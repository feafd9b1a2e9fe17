/** PostDto and its nested AttachmentDto: what the API returns for a post. The
    conversions work on the entity rows; creation and modification dates are
    not part of this model. */
module PostDtos {
  import opened Common
  import opened Users
  import opened Categories
  import opened PostModel

  /** The URL path attachments are downloaded from. */
  const PostFilesUrl := "/api/files/posts/"
  const ThumbnailQuery := "?thumbnail=true"

  datatype AttachmentDto = AttachmentDto(
    id: int,
    fileName: string,
    originalFileName: string,
    fileSize: int,
    fileType: Option<string>,
    fileCategory: Option<string>,
    fileUrl: string,
    thumbnailUrl: Option<string>)

  /** `AttachmentDto.fromEntity`: the columns copied, the download URL built from
      the stored name, and a thumbnail URL for images only. */
  function AttachmentFromEntity(a: AttachmentRow): (d: AttachmentDto)
    ensures d.id == a.id && d.fileName == a.fileName && d.originalFileName == a.originalFileName
    ensures d.fileSize == a.fileSize && d.fileType == a.fileType && d.fileCategory == a.fileCategory
    ensures d.fileUrl == PostFilesUrl + a.fileName
    ensures d.thumbnailUrl.Some? <==> a.fileCategory == Some("IMAGE")
    ensures d.thumbnailUrl.Some? ==> d.thumbnailUrl.value == d.fileUrl + ThumbnailQuery
  {
    var url := PostFilesUrl + a.fileName;
    AttachmentDto(a.id, a.fileName, a.originalFileName, a.fileSize, a.fileType, a.fileCategory, url,
                  if a.fileCategory == Some("IMAGE") then Some(url + ThumbnailQuery) else None)
  }

  /** The download URL names the stored file: the name is what follows the
      path, so different files never share a URL. */
  lemma {:induction false} FileUrlNamesTheFile(a: AttachmentRow, b: AttachmentRow)
    ensures AttachmentFromEntity(a).fileUrl[|PostFilesUrl|..] == a.fileName
    ensures AttachmentFromEntity(a).fileUrl == AttachmentFromEntity(b).fileUrl <==> a.fileName == b.fileName
  {
    var ua, ub := AttachmentFromEntity(a).fileUrl, AttachmentFromEntity(b).fileUrl;
    assert ua[|PostFilesUrl|..] == a.fileName;
    assert ub[|PostFilesUrl|..] == b.fileName;
  }

  datatype PostDto = PostDto(
    id: Option<int>,
    title: string,
    content: string,
    author: Option<string>,
    userId: Option<int>,
    username: Option<string>,
    userNickname: Option<string>,
    categoryId: Option<int>,
    categoryName: Option<string>,
    viewCount: Option<int>,
    attachments: seq<AttachmentDto>)

  /** The author shown for a post: the writer's current nickname when the post
      has a writer (a stored user always has one), else the stored author text. */
  function DisplayAuthor(p: PostRow): (author: Option<string>)
    ensures p.user.Some? ==> author == Some(p.user.value.nickname)
    ensures p.user.None? ==> author == p.author
  {
    match p.user
    case Some(u) => Some(u.nickname)
    case None => p.author
  }

  function AttachmentDtos(s: seq<AttachmentRow>): (ds: seq<AttachmentDto>)
    ensures |ds| == |s| && forall i :: 0 <= i < |s| ==> ds[i] == AttachmentFromEntity(s[i])
  {
    seq(|s|, i requires 0 <= i < |s| => AttachmentFromEntity(s[i]))
  }

  /** `PostDto.fromEntity`. */
  function FromEntity(p: PostRow): (d: PostDto)
    ensures d.id == Some(p.id) && d.title == p.title && d.content == p.content && d.viewCount == p.viewCount
    ensures d.author == DisplayAuthor(p)
    ensures d.userId.None? <==> p.user.None?
    ensures d.username.None? <==> p.user.None?
    ensures d.userNickname.None? <==> p.user.None?
    ensures p.user.Some? ==>
              && d.userId == Some(p.user.value.id)
              && d.username == Some(p.user.value.username)
              && d.userNickname == Some(p.user.value.nickname)
    ensures d.categoryId.None? <==> p.category.None?
    ensures d.categoryName.None? <==> p.category.None?
    ensures p.category.Some? ==> d.categoryId == Some(p.category.value.id) && d.categoryName == Some(p.category.value.name)
    ensures |d.attachments| == |p.attachments|
    ensures forall i :: 0 <= i < |p.attachments| ==> d.attachments[i] == AttachmentFromEntity(p.attachments[i])
  {
    PostDto(
      Some(p.id), p.title, p.content, DisplayAuthor(p),
      if p.user.Some? then Some(p.user.value.id) else None,
      if p.user.Some? then Some(p.user.value.username) else None,
      if p.user.Some? then Some(p.user.value.nickname) else None,
      if p.category.Some? then Some(p.category.value.id) else None,
      if p.category.Some? then Some(p.category.value.name) else None,
      p.viewCount,
      AttachmentDtos(p.attachments))
  }

  /** The entity `toEntity` builds: only these columns are set, every other
      field (writer, category, attachment list) is left null by the builder. */
  datatype NewPost = NewPost(id: Option<int>, title: string, content: string, author: Option<string>, viewCount: int)

  /** `PostDto.toEntity`: a null view count becomes 0. */
  function ToEntity(d: PostDto): (p: NewPost)
    ensures p.id == d.id && p.title == d.title && p.content == d.content && p.author == d.author
    ensures d.viewCount.Some? ==> p.viewCount == d.viewCount.value
    ensures d.viewCount.None? ==> p.viewCount == 0
  {
    NewPost(d.id, d.title, d.content, d.author, d.viewCount.GetOr(0))
  }

  /** Converting a post to its DTO and back keeps the id, the text, the view
      count (0 if it had none) and the shown author, which for a post without
      a writer is its own author column. */
  lemma {:induction false} ToEntityOfFromEntity(p: PostRow)
    ensures ToEntity(FromEntity(p)) == NewPost(Some(p.id), p.title, p.content, DisplayAuthor(p), p.viewCount.GetOr(0))
    ensures p.user.None? ==> ToEntity(FromEntity(p)).author == p.author
  {
    var d := FromEntity(p);
    assert d.viewCount == p.viewCount;
  }
}
