/** Comments: the Comment entity, the CommentDto mapping of a reply tree, and
    CommentService's writing, editing, soft deletion and counting over the
    comments table, with the comment permission rule. The logged-in user and
    the ids of the existing posts are parameters. */
module Comments {
  import opened Common
  import opened Users
  import PostServices

  // ---------------------------------------------------------------------------
  // Entity

  /** A row of the comments table. The post and the parent are held by id. */
  datatype Comment = Comment(
    id: int,
    content: string,
    user: Option<User>,
    postId: Option<int>,
    parentId: Option<int>,
    deleted: bool)
  {
    /** `isReply` */
    predicate IsReply() {
      parentId.Some?
    }

    /** `isTopLevel` */
    predicate IsTopLevel() {
      parentId.None?
    }
  }

  /** A comment is either a reply or top-level, never both. */
  lemma ReplyOrTopLevel(c: Comment)
    ensures c.IsReply() != c.IsTopLevel()
    ensures c.IsReply() <==> c.parentId.Some?
  {
  }

  /** A comment with its `children` list as loaded: the replies whose parent it is. */
  datatype Thread = Thread(comment: Comment, replies: seq<Thread>)

  // ---------------------------------------------------------------------------
  // CommentDto

  const DeletedContent := "삭제된 댓글입니다."
  const WithdrawnNickname := "탈퇴한 사용자"
  const UnknownUsername := "unknown"

  datatype CommentDto = CommentDto(
    id: int,
    content: string,
    userId: Option<int>,
    userNickname: string,
    username: string,
    postId: Option<int>,
    parentId: Option<int>,
    deleted: bool,
    children: seq<CommentDto>)

  /** `fromEntitySimple`: the comment's own fields, a deleted one's text
      replaced and a missing user shown as withdrawn; no children. */
  function FromEntitySimple(c: Comment): (d: CommentDto)
    ensures d.id == c.id && d.deleted == c.deleted && d.children == []
    ensures d.content == if c.deleted then DeletedContent else c.content
    ensures d.userId.None? <==> c.user.None?
    ensures c.user.Some? ==>
              d.userId == Some(c.user.value.id) && d.userNickname == c.user.value.nickname
              && d.username == c.user.value.username
    ensures c.user.None? ==> d.userNickname == WithdrawnNickname && d.username == UnknownUsername
    ensures d.postId == c.postId && d.parentId == c.parentId
  {
    CommentDto(
      c.id,
      if c.deleted then DeletedContent else c.content,
      if c.user.Some? then Some(c.user.value.id) else None,
      if c.user.Some? then c.user.value.nickname else WithdrawnNickname,
      if c.user.Some? then c.user.value.username else UnknownUsername,
      c.postId,
      c.parentId,
      c.deleted,
      [])
  }

  /** The replies that are not deleted, in their order. */
  function Live(ts: seq<Thread>): (r: seq<Thread>)
    ensures |r| <= |ts|
    ensures forall t :: t in r <==> t in ts && !t.comment.deleted
  {
    if ts == [] then []
    else
      var init := Live(ts[..|ts| - 1]);
      var last := ts[|ts| - 1];
      assert ts == ts[..|ts| - 1] + [last];
      if last.comment.deleted then init else init + [last]
  }

  /** A reply is kept exactly when it is not deleted. */
  lemma LiveSingleton(t: Thread)
    ensures Live([t]) == if t.comment.deleted then [] else [t]
  {
    assert [t][..0] == [];
  }

  /** One more reply is kept at the end exactly when it is not deleted. */
  lemma LiveSnoc(s: seq<Thread>, t: Thread)
    ensures Live(s + [t]) == Live(s) + Live([t])
  {
    var st := s + [t];
    assert st[..|st| - 1] == s && st[|st| - 1] == t;
    LiveSingleton(t);
  }

  /** Filtering keeps the original order: the live replies of two runs of
      replies are those of the first run followed by those of the second. */
  lemma {:induction false} LiveAppend(a: seq<Thread>, b: seq<Thread>)
    ensures Live(a + b) == Live(a) + Live(b)
  {
    if b == [] {
      assert a + b == a;
    } else {
      var n := |b| - 1;
      var init, last := b[..n], b[n];
      assert b == init + [last];
      assert a + b == (a + init) + [last];
      LiveAppend(a, init);
      LiveSnoc(a + init, last);
      LiveSnoc(init, last);
    }
  }

  /** `fromEntity`: as `fromEntitySimple`, and the children are the replies
      that are not deleted, each mapped the same way, in their order. */
  function FromEntity(t: Thread): (d: CommentDto)
    ensures d == FromEntitySimple(t.comment).(children := d.children)
    ensures |d.children| == |Live(t.replies)|
    decreases t
  {
    var live := Live(t.replies);
    var children := seq(|live|, i requires 0 <= i < |live| => assert live[i] in t.replies; FromEntity(live[i]));
    FromEntitySimple(t.comment).(children := children)
  }

  /** Each child of the DTO is the mapping of the matching live reply. */
  lemma ChildrenAreLiveReplies(t: Thread, i: nat)
    requires i < |FromEntity(t).children|
    ensures FromEntity(t).children[i] == FromEntity(Live(t.replies)[i])
  {
  }

  /** No node below the root of a mapped tree is marked deleted. */
  predicate NoDeletedBelow(d: CommentDto) {
    forall i :: 0 <= i < |d.children| ==> !d.children[i].deleted && NoDeletedBelow(d.children[i])
  }

  lemma {:induction false} FromEntityHidesDeleted(t: Thread)
    ensures NoDeletedBelow(FromEntity(t))
    decreases t
  {
    var d := FromEntity(t);
    var live := Live(t.replies);
    forall i | 0 <= i < |d.children|
      ensures !d.children[i].deleted && NoDeletedBelow(d.children[i])
    {
      assert live[i] in live;
      FromEntityHidesDeleted(live[i]);
    }
  }

  /** The simple mapping is the full one without children. */
  lemma SimpleIsFullWithoutChildren(t: Thread)
    ensures FromEntitySimple(t.comment) == FromEntity(t).(children := [])
  {
  }

  // ---------------------------------------------------------------------------
  // Permission

  /** `isAllowedToModifyComment`: nobody when logged out; managers, admins and
      every moderator always; anyone else only on a comment written by them. */
  function IsAllowedToModifyComment(user: Option<User>, comment: Comment): (allowed: bool)
    ensures user.None? ==> !allowed
    ensures user.Some? ==>
              (allowed <==> !user.value.role.RoleUser?
                            || (comment.user.Some? && comment.user.value.id == user.value.id))
  {
    if user.None? then false
    else if user.value.role == RoleManager then true
    else if user.value.role == RoleAdmin then true
    else if user.value.role == RoleModerator then true
    else comment.user.Some? && comment.user.value.id == user.value.id
  }

  /** For a logged-in user the comment rule and the post rule agree; they part
      only for an anonymous caller, whom the post gate lets through and the
      comment rule refuses. */
  lemma CommentRuleMatchesPostRule(user: Option<User>, comment: Comment)
    ensures user.Some? ==>
              IsAllowedToModifyComment(user, comment) == PostServices.IsAllowedToModify(user.value, comment.user)
    ensures user.None? ==>
              !IsAllowedToModifyComment(user, comment) && !PostServices.Refuses(user, comment.user)
  {
  }

  // ---------------------------------------------------------------------------
  // The service

  datatype CommentError =
    | LoginRequired
    | PostNotFound(postId: int)
    | ParentNotFound(parentId: int)
    | ParentInOtherPost
    | CommentNotFound(commentId: int)
    | NotAllowed
    | AlreadyDeleted

  /** A soft-deleted comment: marked deleted with its text cleared. */
  function SoftDeleted(c: Comment): (d: Comment)
    ensures d.deleted && d.content == ""
    ensures d.id == c.id && d.user == c.user && d.postId == c.postId && d.parentId == c.parentId
  {
    c.(deleted := true, content := "")
  }

  /** The ids of a post's comments that are not deleted. */
  function LiveIds(comments: map<int, Comment>, postId: int): set<int> {
    set k | k in comments && comments[k].postId == Some(postId) && !comments[k].deleted
  }

  /** What `deleteComment` does to the table, as a value. */
  function AfterDelete(comments: map<int, Comment>, commentId: int, user: Option<User>)
    : (r: (Result<(), CommentError>, map<int, Comment>))
    ensures commentId !in comments ==> r == (Failure(CommentNotFound(commentId)), comments)
    ensures commentId in comments && !IsAllowedToModifyComment(user, comments[commentId]) ==>
              r == (Failure(NotAllowed), comments)
    ensures commentId in comments && IsAllowedToModifyComment(user, comments[commentId]) ==>
              r == (Success(()), comments[commentId := SoftDeleted(comments[commentId])])
  {
    if commentId !in comments then (Failure(CommentNotFound(commentId)), comments)
    else if !IsAllowedToModifyComment(user, comments[commentId]) then (Failure(NotAllowed), comments)
    else (Success(()), comments[commentId := SoftDeleted(comments[commentId])])
  }

  /** Deleting again succeeds and changes nothing more: there is no check for
      a comment that is already deleted. */
  lemma DeleteIsIdempotent(comments: map<int, Comment>, commentId: int, user: Option<User>)
    requires AfterDelete(comments, commentId, user).0.Success?
    ensures AfterDelete(AfterDelete(comments, commentId, user).1, commentId, user)
            == AfterDelete(comments, commentId, user)
  {
    var once := AfterDelete(comments, commentId, user).1;
    assert once[commentId] == SoftDeleted(comments[commentId]);
    assert SoftDeleted(once[commentId]) == once[commentId];
    assert once[commentId := once[commentId]] == once;
  }

  /** Deleting a live comment of a post lowers that post's count by exactly one;
      other posts' counts do not change. */
  lemma {:induction false} DeleteLowersCount(comments: map<int, Comment>, commentId: int, postId: int)
    requires commentId in comments && comments[commentId].postId == Some(postId) && !comments[commentId].deleted
    ensures |LiveIds(comments[commentId := SoftDeleted(comments[commentId])], postId)| == |LiveIds(comments, postId)| - 1
    ensures forall other :: other != postId ==>
              LiveIds(comments[commentId := SoftDeleted(comments[commentId])], other) == LiveIds(comments, other)
  {
    var after := comments[commentId := SoftDeleted(comments[commentId])];
    assert LiveIds(after, postId) == LiveIds(comments, postId) - {commentId};
  }

  /** Writing a new comment raises its post's count by exactly one and leaves
      every other post's count as it was. */
  lemma CreateRaisesCount(comments: map<int, Comment>, c: Comment, postId: int)
    requires c.id !in comments && !c.deleted
    ensures |LiveIds(comments[c.id := c], postId)|
            == |LiveIds(comments, postId)| + (if c.postId == Some(postId) then 1 else 0)
  {
    var after := comments[c.id := c];
    if c.postId == Some(postId) {
      assert LiveIds(after, postId) == LiveIds(comments, postId) + {c.id};
    } else {
      assert LiveIds(after, postId) == LiveIds(comments, postId);
    }
  }

  class CommentService {
    var comments: map<int, Comment>
    var nextCommentId: int

    constructor ()
      ensures comments == map[] && Valid()
    {
      comments := map[];
      nextCommentId := 1;
    }

    /** Every comment is stored under its own id, below the next id, and has
        a writer and a post (both columns are NOT NULL); a reply's parent is a
        stored comment (the parent column is a foreign key, and deletion only
        marks rows) of the same post. */
    ghost predicate Valid()
      reads this
    {
      forall k | k in comments ::
        && comments[k].id == k && k < nextCommentId
        && comments[k].user.Some? && comments[k].postId.Some?
        && (comments[k].parentId.Some? ==>
              comments[k].parentId.value in comments
              && comments[comments[k].parentId.value].postId == comments[k].postId)
    }

    /** `createComment`: refused when nobody is logged in, then for an unknown
        post, then for an unknown parent or one under another post; otherwise
        a comment that is not deleted is inserted under the next id. */
    method CreateComment(postId: int, content: string, parentId: Option<int>, currentUser: Option<User>,
                         postIds: set<int>)
      returns (r: Result<CommentDto, CommentError>)
      requires Valid()
      modifies this
      ensures Valid()
      ensures r.Failure? ==> comments == old(comments) && nextCommentId == old(nextCommentId)
      ensures currentUser.None? ==> r == Failure(LoginRequired)
      ensures currentUser.Some? && postId !in postIds ==> r == Failure(PostNotFound(postId))
      ensures currentUser.Some? && postId in postIds && parentId.Some? && parentId.value !in old(comments) ==>
                r == Failure(ParentNotFound(parentId.value))
      ensures currentUser.Some? && postId in postIds && parentId.Some? && parentId.value in old(comments)
              && old(comments)[parentId.value].postId != Some(postId) ==>
                r == Failure(ParentInOtherPost)
      ensures r.Success? <==>
                && currentUser.Some? && postId in postIds
                && (parentId.Some? ==> parentId.value in old(comments) && old(comments)[parentId.value].postId == Some(postId))
      ensures r.Success? ==>
                var c := Comment(old(nextCommentId), content, currentUser, Some(postId), parentId, false);
                && old(nextCommentId) !in old(comments)
                && comments == old(comments)[c.id := c] && nextCommentId == old(nextCommentId) + 1
                && r == Success(FromEntitySimple(c))
    {
      if currentUser.None? {
        return Failure(LoginRequired);
      }
      if postId !in postIds {
        return Failure(PostNotFound(postId));
      }
      if parentId.Some? {
        if parentId.value !in comments {
          return Failure(ParentNotFound(parentId.value));
        }
        if comments[parentId.value].postId != Some(postId) {
          return Failure(ParentInOtherPost);
        }
      }
      var c := Comment(nextCommentId, content, currentUser, Some(postId), parentId, false);
      comments := comments[c.id := c];
      nextCommentId := nextCommentId + 1;
      r := Success(FromEntitySimple(c));
    }

    /** `updateComment`: refused for an unknown comment, then for a caller who
        may not change it, then for a deleted one; otherwise only the text
        changes. */
    method UpdateComment(commentId: int, content: string, currentUser: Option<User>)
      returns (r: Result<CommentDto, CommentError>)
      requires Valid()
      modifies this`comments
      ensures Valid()
      ensures r.Failure? ==> comments == old(comments)
      ensures commentId !in old(comments) ==> r == Failure(CommentNotFound(commentId))
      ensures commentId in old(comments) && !IsAllowedToModifyComment(currentUser, old(comments)[commentId]) ==>
                r == Failure(NotAllowed)
      ensures commentId in old(comments) && IsAllowedToModifyComment(currentUser, old(comments)[commentId])
              && old(comments)[commentId].deleted ==>
                r == Failure(AlreadyDeleted)
      ensures r.Success? <==>
                commentId in old(comments) && IsAllowedToModifyComment(currentUser, old(comments)[commentId])
                && !old(comments)[commentId].deleted
      ensures r.Success? ==>
                && comments == old(comments)[commentId := old(comments)[commentId].(content := content)]
                && r == Success(FromEntitySimple(comments[commentId]))
    {
      if commentId !in comments {
        return Failure(CommentNotFound(commentId));
      }
      var comment := comments[commentId];
      if !IsAllowedToModifyComment(currentUser, comment) {
        return Failure(NotAllowed);
      }
      if comment.deleted {
        return Failure(AlreadyDeleted);
      }
      comment := comment.(content := content);
      comments := comments[commentId := comment];
      r := Success(FromEntitySimple(comment));
    }

    /** `deleteComment`: refused for an unknown comment or a caller who may not
        change it; otherwise the comment is soft-deleted, whether or not it
        already was. */
    method DeleteComment(commentId: int, currentUser: Option<User>) returns (r: Result<(), CommentError>)
      requires Valid()
      modifies this`comments
      ensures Valid()
      ensures (r, comments) == AfterDelete(old(comments), commentId, currentUser)
    {
      if commentId !in comments {
        return Failure(CommentNotFound(commentId));
      }
      var comment := comments[commentId];
      if !IsAllowedToModifyComment(currentUser, comment) {
        return Failure(NotAllowed);
      }
      comment := comment.(deleted := true, content := "");
      comments := comments[commentId := comment];
      assert forall k | k in comments :: comments[k].postId == old(comments)[k].postId;
      r := Success(());
    }

    /** `getCommentCount`: for an existing post, the number of its comments
        that are not deleted. */
    method GetCommentCount(postId: int, postIds: set<int>) returns (r: Result<nat, CommentError>)
      ensures postId !in postIds ==> r == Failure(PostNotFound(postId))
      ensures postId in postIds ==> r == Success(|LiveIds(comments, postId)|)
    {
      if postId !in postIds {
        return Failure(PostNotFound(postId));
      }
      r := Success(|LiveIds(comments, postId)|);
    }
  }
}
