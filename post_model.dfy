/** The Post and PostAttachment entities. Both are updated in place: a post's
    view count and attachment list, an attachment's category at persist time and
    its back-reference to the post. Lombok's field-by-field `equals`, which
    `List.remove` uses, is taken to be object identity here. */
module PostModel {
  import opened Common
  import opened Users
  import opened Categories

  // ---------------------------------------------------------------------------
  // PostAttachment

  /** The category `onCreate` derives from a MIME type: each of the three
      top-level types "image/", "video/" and "audio/" has its own, and every
      other type is "OTHER". */
  function FileCategoryFor(fileType: string): (c: string)
    ensures c == "IMAGE" <==> StartsWith(fileType, "image/")
    ensures c == "VIDEO" <==> StartsWith(fileType, "video/")
    ensures c == "AUDIO" <==> StartsWith(fileType, "audio/")
    ensures c == "OTHER" <==>
              !StartsWith(fileType, "image/") && !StartsWith(fileType, "video/") && !StartsWith(fileType, "audio/")
  {
    MimePrefixesExclusive(fileType);
    if StartsWith(fileType, "image/") then "IMAGE"
    else if StartsWith(fileType, "video/") then "VIDEO"
    else if StartsWith(fileType, "audio/") then "AUDIO"
    else "OTHER"
  }

  /** No MIME type starts with two of the three prefixes. */
  lemma MimePrefixesExclusive(t: string)
    ensures !(StartsWith(t, "image/") && StartsWith(t, "video/"))
    ensures !(StartsWith(t, "image/") && StartsWith(t, "audio/"))
    ensures !(StartsWith(t, "video/") && StartsWith(t, "audio/"))
  {
    if StartsWith(t, "image/") { assert t[0] == "image/"[0] == 'i'; }
    if StartsWith(t, "video/") { assert t[0] == "video/"[0] == 'v'; }
  }

  /** The category column after persisting: a null type leaves it as it was. */
  function CategoryAfterCreate(fileType: Option<string>, before: Option<string>): (c: Option<string>)
    ensures fileType.None? ==> c == before
    ensures fileType.Some? ==> c.Some? && c.value in {"IMAGE", "VIDEO", "AUDIO", "OTHER"}
  {
    if fileType.Some? then Some(FileCategoryFor(fileType.value)) else before
  }

  class PostAttachment {
    const id: int
    const fileName: string
    const originalFileName: string
    const fileSize: int
    const fileType: Option<string>
    var fileCategory: Option<string>
    var post: Post?

    constructor (id: int, fileName: string, originalFileName: string, fileSize: int,
                 fileType: Option<string>, post: Post?)
      ensures this.id == id && this.fileName == fileName && this.originalFileName == originalFileName
      ensures this.fileSize == fileSize && this.fileType == fileType && this.post == post
      ensures fileCategory == None
    {
      this.id := id;
      this.fileName := fileName;
      this.originalFileName := originalFileName;
      this.fileSize := fileSize;
      this.fileType := fileType;
      this.post := post;
      fileCategory := None;
    }

    /** `onCreate` (the persist hook): sets the category from the MIME type. */
    method OnCreate()
      modifies this`fileCategory
      ensures fileCategory == CategoryAfterCreate(fileType, old(fileCategory))
    {
      if fileType.Some? {
        if StartsWith(fileType.value, "image/") {
          fileCategory := Some("IMAGE");
        } else if StartsWith(fileType.value, "video/") {
          fileCategory := Some("VIDEO");
        } else if StartsWith(fileType.value, "audio/") {
          fileCategory := Some("AUDIO");
        } else {
          fileCategory := Some("OTHER");
        }
      }
    }
  }

  /** An attachment row as values. */
  datatype AttachmentRow = AttachmentRow(
    id: int,
    fileName: string,
    originalFileName: string,
    fileSize: int,
    fileType: Option<string>,
    fileCategory: Option<string>)

  function RowOfAttachment(a: PostAttachment): AttachmentRow
    reads a
  {
    AttachmentRow(a.id, a.fileName, a.originalFileName, a.fileSize, a.fileType, a.fileCategory)
  }

  function AttachmentRows(s: seq<PostAttachment>): (rows: seq<AttachmentRow>)
    reads s
    ensures |rows| == |s|
    ensures forall i :: 0 <= i < |s| ==> rows[i] == RowOfAttachment(s[i])
  {
    seq(|s|, i reads s requires 0 <= i < |s| => RowOfAttachment(s[i]))
  }

  /** The rows of a concatenation are the concatenated rows. */
  lemma AttachmentRowsAppend(s: seq<PostAttachment>, t: seq<PostAttachment>)
    ensures AttachmentRows(s + t) == AttachmentRows(s) + AttachmentRows(t)
  {
    assert forall i :: 0 <= i < |s + t| ==> AttachmentRows(s + t)[i] == (AttachmentRows(s) + AttachmentRows(t))[i];
  }

  /** Appending one attachment appends its row. */
  lemma AttachmentRowsSnoc(s: seq<PostAttachment>, a: PostAttachment)
    ensures AttachmentRows(s + [a]) == AttachmentRows(s) + [RowOfAttachment(a)]
  {
    AttachmentRowsAppend(s, [a]);
    assert AttachmentRows([a]) == [RowOfAttachment(a)];
  }

  // ---------------------------------------------------------------------------
  // Post

  class Post {
    const id: int
    var title: string
    var content: string
    var author: Option<string>
    var user: Option<User>
    var category: Option<Category>
    var attachments: seq<PostAttachment>
    var viewCount: Option<int>

    /** The builder: every field as given and an empty attachment list. */
    constructor (id: int, title: string, content: string, author: Option<string>,
                 user: Option<User>, category: Option<Category>, viewCount: Option<int>)
      ensures this.id == id && this.title == title && this.content == content
      ensures this.author == author && this.user == user && this.category == category
      ensures this.viewCount == viewCount && attachments == []
    {
      this.id := id;
      this.title := title;
      this.content := content;
      this.author := author;
      this.user := user;
      this.category := category;
      this.viewCount := viewCount;
      attachments := [];
    }

    /** `onCreate` (the persist hook): a null view count becomes 0, any other is kept. */
    method OnCreate()
      modifies this`viewCount
      ensures viewCount == Some(old(viewCount).GetOr(0))
    {
      if viewCount.None? {
        viewCount := Some(0);
      }
    }

    /** `incrementViewCount`: one more view; nothing else changes. */
    method IncrementViewCount()
      requires viewCount.Some?
      modifies this`viewCount
      ensures viewCount == Some(old(viewCount.value) + 1)
    {
      viewCount := Some(viewCount.value + 1);
    }

    /** `addAttachment`: appends and points the attachment at this post. */
    method AddAttachment(a: PostAttachment)
      modifies this`attachments, a`post
      ensures attachments == old(attachments) + [a]
      ensures a.post == this
    {
      attachments := attachments + [a];
      a.post := this;
    }

    /** `removeAttachment`: drops the first occurrence, if any, and clears the
        attachment's back-reference either way. */
    method RemoveAttachment(a: PostAttachment)
      modifies this`attachments, a`post
      ensures attachments == RemoveFirst(old(attachments), a)
      ensures a.post == null
    {
      attachments := RemoveFirst(attachments, a);
      a.post := null;
    }
  }

  /** A post row as values, with its attachment rows in list order. */
  datatype PostRow = PostRow(
    id: int,
    title: string,
    content: string,
    author: Option<string>,
    user: Option<User>,
    category: Option<Category>,
    attachments: seq<AttachmentRow>,
    viewCount: Option<int>)

  function RowOf(p: Post): PostRow
    reads p, p.attachments
  {
    PostRow(p.id, p.title, p.content, p.author, p.user, p.category, AttachmentRows(p.attachments), p.viewCount)
  }

  // ---------------------------------------------------------------------------
  // List operations

  /** The position of the first occurrence of x. */
  function FirstIndex<T(==)>(s: seq<T>, x: T): (i: nat)
    requires x in s
    ensures i < |s| && s[i] == x && x !in s[..i]
  {
    if s[0] == x then 0
    else
      var i := 1 + FirstIndex(s[1..], x);
      assert s[..i] == [s[0]] + s[1..][..i - 1];
      i
  }

  /** `List.remove(Object)`: removes the first occurrence, or nothing. */
  function RemoveFirst<T(==)>(s: seq<T>, x: T): (r: seq<T>)
    ensures x !in s ==> r == s
    ensures x in s ==> r == s[..FirstIndex(s, x)] + s[FirstIndex(s, x) + 1..]
  {
    if s == [] then []
    else if s[0] == x then s[1..]
    else
      var rest := RemoveFirst(s[1..], x);
      assert x in s ==> s[..FirstIndex(s, x)] == [s[0]] + s[1..][..FirstIndex(s[1..], x)];
      [s[0]] + rest
  }

  /** Removing keeps the other elements in their order and takes out exactly one x. */
  lemma {:induction false} RemoveFirstTakesOne<T>(s: seq<T>, x: T)
    requires x in s
    ensures |RemoveFirst(s, x)| == |s| - 1
    ensures multiset(RemoveFirst(s, x)) == multiset(s) - multiset{x}
  {
    var i := FirstIndex(s, x);
    assert s == s[..i] + [x] + s[i + 1..];
    assert multiset(s) == multiset(s[..i]) + multiset{x} + multiset(s[i + 1..]);
  }

  /** The first attachment carrying the given id, as `stream().filter(..).findFirst()`. */
  function FirstWithId(s: seq<PostAttachment>, id: int): (r: Option<nat>)
    ensures r.Some? ==> r.value < |s| && s[r.value].id == id
    ensures r.Some? ==> forall j :: 0 <= j < r.value ==> s[j].id != id
    ensures r.None? ==> forall j :: 0 <= j < |s| ==> s[j].id != id
  {
    if s == [] then None
    else if s[0].id == id then Some(0)
    else
      match FirstWithId(s[1..], id)
      case None => None
      case Some(i) => Some(i + 1)
  }

  /** The attachment found by id is the first occurrence of that object too. */
  lemma FirstWithIdIsFirstIndex(s: seq<PostAttachment>, id: int)
    requires FirstWithId(s, id).Some?
    ensures var i := FirstWithId(s, id).value; FirstIndex(s, s[i]) == i
  {
    var i := FirstWithId(s, id).value;
    var k := FirstIndex(s, s[i]);
    assert s[k].id == id;
    assert i <= k;
    assert forall j :: 0 <= j < k ==> s[..k][j] == s[j];
  }

  /** The list after the removal for one requested id: the first attachment
      with that id goes, and an unknown id changes nothing. */
  function WithoutFirstId(s: seq<PostAttachment>, id: int): (r: seq<PostAttachment>)
    ensures FirstWithId(s, id).None? ==> r == s
    ensures FirstWithId(s, id).Some? ==>
              |r| == |s| - 1 && multiset(r) == multiset(s) - multiset{s[FirstWithId(s, id).value]}
  {
    match FirstWithId(s, id)
    case None => s
    case Some(i) =>
      assert s == s[..i] + [s[i]] + s[i + 1..];
      assert multiset(s) == multiset(s[..i]) + multiset{s[i]} + multiset(s[i + 1..]);
      s[..i] + s[i + 1..]
  }

  /** Removing the attachment found by id is removing that id. */
  lemma RemoveFirstById(s: seq<PostAttachment>, id: int)
    requires FirstWithId(s, id).Some?
    ensures RemoveFirst(s, s[FirstWithId(s, id).value]) == WithoutFirstId(s, id)
  {
    FirstWithIdIsFirstIndex(s, id);
  }

  /** The list after the removals for every requested id, in request order. */
  function WithoutIds(s: seq<PostAttachment>, ids: seq<int>): (r: seq<PostAttachment>)
    ensures |r| <= |s|
  {
    if ids == [] then s
    else WithoutFirstId(WithoutIds(s, ids[..|ids| - 1]), ids[|ids| - 1])
  }

  /** At most one attachment goes per requested id, none is added, and no
      other attachment is touched. */
  lemma {:induction false} WithoutIdsRemovesAtMostOnePerId(s: seq<PostAttachment>, ids: seq<int>)
    ensures |s| - |ids| <= |WithoutIds(s, ids)| <= |s|
    ensures multiset(WithoutIds(s, ids)) <= multiset(s)
  {
    if ids != [] {
      WithoutIdsRemovesAtMostOnePerId(s, ids[..|ids| - 1]);
    }
  }

  /** Ids that name no attachment are ignored. */
  lemma {:induction false} UnknownIdsIgnored(s: seq<PostAttachment>, ids: seq<int>)
    requires forall j, k :: 0 <= j < |s| && 0 <= k < |ids| ==> s[j].id != ids[k]
    ensures WithoutIds(s, ids) == s
  {
    if ids != [] {
      UnknownIdsIgnored(s, ids[..|ids| - 1]);
      assert forall j :: 0 <= j < |s| ==> s[j].id != ids[|ids| - 1];
    }
  }
}
