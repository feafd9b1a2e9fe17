/** PostService: reading, writing, editing and deleting posts, with the
    permission rule for changing a post and the attachment uploads. The
    logged-in user (resolved from the security context by username) and the
    category table are parameters; the attachment directory on disk is the
    service's `postFiles`, the set of file names stored there. A failing call
    leaves the tables as they were, which is what the transaction rollback
    does; files already written to or deleted from disk stay so. */
module PostServices {
  import opened Common
  import opened Users
  import opened Categories
  import opened FileStorage
  import opened PostModel
  import opened PostDtos

  // ---------------------------------------------------------------------------
  // Permission

  /** `isAllowedToModify`: managers, admins and every moderator may change any
      post, whatever its category; anyone else only a post whose writer is them. */
  function IsAllowedToModify(user: User, owner: Option<User>): (allowed: bool)
    ensures allowed <==> !user.role.RoleUser? || (owner.Some? && owner.value.id == user.id)
  {
    if user.role == RoleManager then true
    else if user.role == RoleAdmin then true
    else if user.role == RoleModerator then true
    else if owner.Some? && owner.value.id == user.id then true
    else false
  }

  /** A moderator's right to change posts does not depend on the categories
      assigned to them. */
  lemma ModeratorIsNotCategoryScoped(user: User, owner: Option<User>, categoryId: int)
    requires user.role == RoleModerator && !IsModeratorFor(user, categoryId)
    ensures IsAllowedToModify(user, owner)
  {
  }

  /** A post without a writer can be changed only by the three privileged roles. */
  lemma OwnerlessPostNeedsPrivilege(user: User)
    ensures IsAllowedToModify(user, None) <==> user.role in {RoleManager, RoleAdmin, RoleModerator}
  {
  }

  /** The check in `updatePost` and `deletePost`: refused only when someone is
      logged in and may not change the post. */
  predicate Refuses(currentUser: Option<User>, owner: Option<User>) {
    currentUser.Some? && !IsAllowedToModify(currentUser.value, owner)
  }

  // ---------------------------------------------------------------------------
  // Uploads

  /** One uploaded part: its client file name, size, content type and the UUID
      the stored name will carry. */
  datatype Upload = Upload(originalFilename: Option<string>, size: nat, contentType: Option<string>, uuid: string)

  datatype PostError =
    | PostNotFound(id: int)
    | CategoryNotFound(categoryId: int)
    | NotAllowed
    | FileRefused(reason: FileError)
      /** The upload had no content type: the attachment row cannot be inserted,
          its file_type column being NOT NULL. */
    | FileTypeMissing
      /** The delete broke a foreign key: comments.post_id has no cascade and
          a post has no relation to its comments. */
    | PostStillReferenced

  /** What `saveAttachments` leaves behind: the names written to disk, in order,
      the attachment rows inserted and the error that stopped it, if any. */
  datatype Saving = Saving(stored: seq<string>, rows: seq<AttachmentRow>, error: Option<PostError>)

  /** The name an upload is stored under, or why it is refused. */
  function AttachmentName(postId: int, u: Upload): (r: Result<string, FileError>)
    ensures u.originalFilename.None? ==> r == Failure(NullFilename)
  {
    StoredFileName(PostAttachment(postId), u.originalFilename, u.uuid)
  }

  /** The outcomes of naming each upload of a list, position by position. */
  function NamesOf(postId: int, uploads: seq<Upload>): (names: seq<Result<string, FileError>>)
    ensures |names| == |uploads|
  {
    seq(|uploads|, i requires 0 <= i < |uploads| => AttachmentName(postId, uploads[i]))
  }

  /** What one upload adds, given the outcome of naming it: nothing for an
      empty one; otherwise the file is written, unless its name is refused
      (a missing name is refused first), and then its row is inserted, unless
      it has no content type. */
  function UploadEffect(named: Result<string, FileError>, nextId: int, u: Upload): (e: Saving)
    ensures |e.stored| <= 1 && |e.rows| <= |e.stored|
  {
    if u.size == 0 then Saving([], [], None)
    else if u.originalFilename.None? then Saving([], [], Some(FileRefused(NullFilename)))
    else match named
      case Failure(err) => Saving([], [], Some(FileRefused(err)))
      case Success(name) =>
        if u.contentType.None? then Saving([name], [], Some(FileTypeMissing))
        else
          var row := AttachmentRow(nextId, name, u.originalFilename.value, u.size, u.contentType,
                                   Some(FileCategoryFor(u.contentType.value)));
          Saving([name], [row], None)
  }

  /** A saving followed by one more upload's effect, whose error is the last one's. */
  function Then(prev: Saving, e: Saving): Saving {
    Saving(prev.stored + e.stored, prev.rows + e.rows, e.error)
  }

  /** `saveAttachments` over the first k uploads, first to last, stopping at
      the first error; `names[i]` is the outcome of naming `uploads[i]`. */
  function SavedUpTo(names: seq<Result<string, FileError>>, firstId: int, uploads: seq<Upload>, k: nat): Saving
    requires k <= |uploads| <= |names|
  {
    if k == 0 then Saving([], [], None)
    else
      var prev := SavedUpTo(names, firstId, uploads, k - 1);
      if prev.error.Some? then prev
      else Then(prev, UploadEffect(names[k - 1], firstId + |prev.rows|, uploads[k - 1]))
  }

  /** `saveAttachments` for a post: each upload named as `storePostAttachment` names it. */
  function Saved(postId: int, firstId: int, uploads: seq<Upload>): Saving {
    SavedUpTo(NamesOf(postId, uploads), firstId, uploads, |uploads|)
  }

  /** While nothing has failed, saving one more upload adds its effect. */
  lemma SaveStep(names: seq<Result<string, FileError>>, firstId: int, uploads: seq<Upload>, k: nat,
                 saved: Saving, nextId: int, e: Saving)
    requires k < |uploads| <= |names|
    requires SavedUpTo(names, firstId, uploads, k) == saved && saved.error.None?
    requires nextId == firstId + |saved.rows| && e == UploadEffect(names[k], nextId, uploads[k])
    ensures SavedUpTo(names, firstId, uploads, k + 1) == Then(saved, e)
  {
  }

  /** The number of uploads among the first k that are not empty. */
  function NonEmpty(uploads: seq<Upload>, k: nat): nat
    requires k <= |uploads|
  {
    if k == 0 then 0
    else NonEmpty(uploads, k - 1) + (if uploads[k - 1].size == 0 then 0 else 1)
  }

  /** Saving is all-or-nothing in the rows: each non-empty upload gets a row
      with the next id, in upload order, named by the file written for it, and
      with the category its content type gives. */
  lemma SavedRowsMatchFiles(postId: int, firstId: int, uploads: seq<Upload>)
    ensures var s := Saved(postId, firstId, uploads);
            s.error.None? ==>
              && |s.rows| == |s.stored| == NonEmpty(uploads, |uploads|)
              && forall i :: 0 <= i < |s.rows| ==>
                   && s.rows[i].id == firstId + i
                   && s.rows[i].fileName == s.stored[i]
                   && StartsWith(s.stored[i], StoreTarget(PostAttachment(postId)).1)
                   && s.rows[i].fileCategory.Some?
  {
    var names := NamesOf(postId, uploads);
    var prefix := StoreTarget(PostAttachment(postId)).1;
    forall i, nextId | 0 <= i < |uploads|
      ensures EffectMatchesStored(UploadEffect(names[i], nextId, uploads[i]), nextId, prefix, uploads[i])
    {
      UploadEffectMatchesStored(postId, uploads[i], nextId);
    }
    SavedUpToRowsMatchFiles(names, firstId, uploads, |uploads|, prefix);
  }

  /** One row per stored file, ids counting up from `firstId`, each row
      naming its file, each file under `prefix`, each row categorised. */
  ghost predicate RowsMatchStored(s: Saving, firstId: int, prefix: string) {
    && |s.rows| == |s.stored|
    && forall i :: 0 <= i < |s.rows| ==>
         && s.rows[i].id == firstId + i
         && s.rows[i].fileName == s.stored[i]
         && StartsWith(s.stored[i], prefix)
         && s.rows[i].fileCategory.Some?
  }

  /** An upload that does not fail leaves rows matching its files, one row
      unless it is empty. */
  ghost predicate EffectMatchesStored(e: Saving, nextId: int, prefix: string, u: Upload) {
    e.error.None? ==> RowsMatchStored(e, nextId, prefix) && |e.rows| == (if u.size == 0 then 0 else 1)
  }

  /** The upload's file name is the post prefix, the UUID and the extension,
      so the one row of a non-empty upload names a file under the prefix. */
  lemma UploadEffectMatchesStored(postId: int, u: Upload, nextId: int)
    ensures EffectMatchesStored(UploadEffect(AttachmentName(postId, u), nextId, u), nextId,
                                StoreTarget(PostAttachment(postId)).1, u)
  {
    if u.size != 0 && u.originalFilename.Some? && AttachmentName(postId, u).Success? {
      StoredNameShape(PostAttachment(postId), u.originalFilename, u.uuid);
    }
  }

  /** Matching rows and files stay matched when a matching effect, with ids
      continuing where they stopped, is appended. */
  lemma ThenMatchesStored(prev: Saving, e: Saving, firstId: int, prefix: string)
    requires RowsMatchStored(prev, firstId, prefix) && RowsMatchStored(e, firstId + |prev.rows|, prefix)
    ensures RowsMatchStored(Then(prev, e), firstId, prefix)
  {
    var s := Then(prev, e);
    forall i | |prev.rows| <= i < |s.rows|
      ensures s.rows[i] == e.rows[i - |prev.rows|] && s.stored[i] == e.stored[i - |prev.rows|]
    {
    }
  }

  /** `SavedRowsMatchFiles` for the first k uploads, given that each upload's
      effect on its own matches its files. */
  lemma {:induction false} SavedUpToRowsMatchFiles(names: seq<Result<string, FileError>>, firstId: int,
                                                   uploads: seq<Upload>, k: nat, prefix: string)
    requires k <= |uploads| <= |names|
    requires forall i, nextId :: 0 <= i < |uploads| ==>
               EffectMatchesStored(UploadEffect(names[i], nextId, uploads[i]), nextId, prefix, uploads[i])
    ensures var s := SavedUpTo(names, firstId, uploads, k);
            s.error.None? ==> RowsMatchStored(s, firstId, prefix) && |s.rows| == NonEmpty(uploads, k)
  {
    if k != 0 {
      SavedUpToRowsMatchFiles(names, firstId, uploads, k - 1, prefix);
      var prev := SavedUpTo(names, firstId, uploads, k - 1);
      if prev.error.None? {
        var nextId := firstId + |prev.rows|;
        var e := UploadEffect(names[k - 1], nextId, uploads[k - 1]);
        MatchesStoredStep(names, firstId, uploads, k - 1, prefix, prev, nextId, e);
      }
    }
  }

  /** One step of `SavedUpToRowsMatchFiles`. */
  lemma MatchesStoredStep(names: seq<Result<string, FileError>>, firstId: int, uploads: seq<Upload>, k: nat,
                          prefix: string, prev: Saving, nextId: int, e: Saving)
    requires k < |uploads| <= |names|
    requires SavedUpTo(names, firstId, uploads, k) == prev && prev.error.None?
    requires RowsMatchStored(prev, firstId, prefix) && |prev.rows| == NonEmpty(uploads, k)
    requires nextId == firstId + |prev.rows| && e == UploadEffect(names[k], nextId, uploads[k])
    requires EffectMatchesStored(e, nextId, prefix, uploads[k])
    ensures var s := SavedUpTo(names, firstId, uploads, k + 1);
            s.error.None? ==> RowsMatchStored(s, firstId, prefix) && |s.rows| == NonEmpty(uploads, k + 1)
  {
    SaveStep(names, firstId, uploads, k, prev, nextId, e);
    if e.error.None? {
      ThenMatchesStored(prev, e, firstId, prefix);
    }
  }

  lemma {:induction false} SavedStopsAtError(names: seq<Result<string, FileError>>, firstId: int,
                                             uploads: seq<Upload>, k: nat, n: nat)
    requires k <= n <= |uploads| <= |names|
    requires SavedUpTo(names, firstId, uploads, k).error.Some?
    ensures SavedUpTo(names, firstId, uploads, n) == SavedUpTo(names, firstId, uploads, k)
  {
    if k < n {
      SavedStopsAtError(names, firstId, uploads, k, n - 1);
    }
  }

  /** Where the loop of `saveAttachments` stops, at the end or at the first
      failure, its saving is the whole saving. */
  lemma SavedAtExit(postId: int, names: seq<Result<string, FileError>>, firstId: int, uploads: seq<Upload>,
                    k: nat, saved: Saving)
    requires names == NamesOf(postId, uploads) && k <= |uploads|
    requires SavedUpTo(names, firstId, uploads, k) == saved
    requires k == |uploads| || saved.error.Some?
    ensures Saved(postId, firstId, uploads) == saved
  {
    if k < |uploads| {
      SavedStopsAtError(names, firstId, uploads, k, |uploads|);
    }
  }

  /** The attachment `saveAttachments` builds and persists for one upload. */
  method BuildAttachment(id: int, name: string, originalFileName: string, size: int, fileType: string, post: Post)
    returns (a: PostAttachment)
    ensures fresh(a) && a.post == post
    ensures RowOfAttachment(a) == AttachmentRow(id, name, originalFileName, size, Some(fileType), Some(FileCategoryFor(fileType)))
  {
    a := new PostAttachment(id, name, originalFileName, size, Some(fileType), post);
    a.OnCreate();
  }

  /** The names in a list, as a set. */
  function Elems(s: seq<string>): (r: set<string>)
    ensures forall x :: x in r <==> x in s
  {
    set x | x in s
  }

  /** The names of an appended list are the union of the names of its parts. */
  lemma ElemsAppend(s: seq<string>, t: seq<string>)
    ensures Elems(s + t) == Elems(s) + Elems(t)
  {
  }

  /** The stored names of a list of attachments. */
  function FileNames(s: seq<PostAttachment>): (names: set<string>)
    ensures forall i :: 0 <= i < |s| ==> s[i].fileName in names
    ensures forall n | n in names :: exists i :: 0 <= i < |s| && s[i].fileName == n
  {
    if s == [] then {}
    else
      var init := FileNames(s[..|s| - 1]);
      assert forall i :: 0 <= i < |s| - 1 ==> s[..|s| - 1][i] == s[i];
      init + {s[|s| - 1].fileName}
  }

  /** The stored names of the attachments `updatePost` removes for the requested ids. */
  function RemovedNames(s: seq<PostAttachment>, ids: seq<int>): set<string> {
    if ids == [] then {}
    else
      var before := WithoutIds(s, ids[..|ids| - 1]);
      RemovedNames(s, ids[..|ids| - 1])
      + match FirstWithId(before, ids[|ids| - 1])
        case Some(i) => {before[i].fileName}
        case None => {}
  }

  /** One more requested id extends the removals for the ids before it. */
  lemma RemovalStep(s: seq<PostAttachment>, ids: seq<int>, k: nat)
    requires k < |ids|
    ensures var before := WithoutIds(s, ids[..k]);
            && WithoutIds(s, ids[..k + 1]) == WithoutFirstId(before, ids[k])
            && RemovedNames(s, ids[..k + 1])
               == RemovedNames(s, ids[..k]) + match FirstWithId(before, ids[k])
                                              case Some(i) => {before[i].fileName}
                                              case None => {}
  {
    var w := ids[..k + 1];
    assert w[..|w| - 1] == ids[..k] && w[|w| - 1] == ids[k];
  }

  // ---------------------------------------------------------------------------
  // The service

  class PostService {
    var posts: map<int, Post>
    var nextPostId: int
    var nextAttachmentId: int
    var postFiles: set<string>

    constructor ()
      ensures posts == map[] && postFiles == {} && Valid()
    {
      posts := map[];
      nextPostId := 1;
      nextAttachmentId := 1;
      postFiles := {};
    }

    /** Every post is stored under its own id, below the next id, and has a view count. */
    ghost predicate Valid()
      reads this`posts, this`nextPostId, posts.Values
    {
      forall k | k in posts :: posts[k].id == k && k < nextPostId && posts[k].viewCount.Some?
    }

    /** The attachments of all stored posts. */
    ghost function AttachmentObjects(): (objs: set<PostAttachment>)
      reads this`posts, posts.Values
      ensures forall k | k in posts :: forall a | a in posts[k].attachments :: a in objs
    {
      set k, a | k in posts && a in posts[k].attachments :: a
    }

    /** The post table as values. */
    ghost function Rows(): map<int, PostRow>
      reads this`posts, posts.Values, AttachmentObjects()
    {
      map k | k in posts :: RowOf(posts[k])
    }

    /** The table reads only the posts and their attachments: while none of
        them and not the map changes, neither does the table. */
    twostate lemma RowsFramed()
      requires unchanged(this`posts)
      requires forall p | p in old(posts.Values) :: unchanged(p)
      requires forall a | a in old(AttachmentObjects()) :: unchanged(a)
      ensures Rows() == old(Rows())
    {
    }

    /** The author column of a new post: "익명" for an anonymous writer, else
        the writer's nickname (the name and username fallbacks of the source
        apply only to a user without a nickname, which the users table rules out). */
    static function AuthorName(user: Option<User>): (author: string)
      ensures user.None? ==> author == "익명"
      ensures user.Some? ==> author == user.value.nickname
    {
      if user.Some? then user.value.nickname else "익명"
    }

    /** `getPost`: one more view of the post, returned as a DTO; no other row changes. */
    method GetPost(id: int) returns (r: Result<PostDto, PostError>)
      requires Valid()
      modifies if id in posts then {posts[id]} else {}
      ensures Valid() && posts == old(posts)
      ensures id !in posts ==> r == Failure(PostNotFound(id)) && Rows() == old(Rows())
      ensures id in posts ==>
                && Rows() == old(Rows())[id := old(Rows())[id].(viewCount := Some(old(posts[id].viewCount.value) + 1))]
                && r == Success(FromEntity(Rows()[id]))
    {
      if id !in posts {
        return Failure(PostNotFound(id));
      }
      ghost var before := Rows();
      var post := posts[id];
      post.IncrementViewCount();
      r := Success(FromEntity(RowOf(post)));
      assert forall k | k in posts && k != id :: posts[k] != post && Rows()[k] == before[k];
      assert Rows()[id] == before[id].(viewCount := post.viewCount);
    }

    /** The body of the loop in `saveAttachments` for one upload: skipped when
        empty, otherwise written to disk under its name and turned into an
        attachment of the post, as `UploadEffect` describes. */
    method SaveOne(uploads: seq<Upload>, k: nat, post: Post, nextId: int, ghost names: seq<Result<string, FileError>>)
      returns (attachment: PostAttachment?, error: Option<PostError>, ghost stored: seq<string>)
      requires k < |uploads| && names == NamesOf(post.id, uploads)
      modifies this`postFiles
      ensures var e := UploadEffect(names[k], nextId, uploads[k]);
              && error == e.error && stored == e.stored && postFiles == old(postFiles) + Elems(e.stored)
              && (attachment == null <==> e.rows == [])
              && (attachment != null ==> fresh(attachment) && attachment.post == post && e.rows == [RowOfAttachment(attachment)])
    {
      var u := uploads[k];
      assert names[k] == AttachmentName(post.id, u);
      attachment, error, stored := null, None, [];
      if u.size == 0 {
        return;
      }
      var named := AttachmentName(post.id, u);
      if named.Failure? {
        error := Some(FileRefused(named.error));
        return;
      }
      var name := named.value;
      postFiles := postFiles + {name};
      stored := [name];
      assert Elems(stored) == {name} by { assert stored[..0] == []; }
      if u.contentType.None? {
        error := Some(FileTypeMissing);
        return;
      }
      attachment := BuildAttachment(nextId, name, u.originalFilename.value, u.size, u.contentType.value, post);
    }

    /** The state of `saveAttachments` after k uploads: the attachments built
        so far carry the rows of the saving so far, and the files written are
        its stored names. */
    ghost predicate SaveProgress(uploads: seq<Upload>, names: seq<Result<string, FileError>>, firstId: int, k: nat,
                                 attachments: seq<PostAttachment>, saved: Saving, files: set<string>)
      reads this`postFiles, attachments
    {
      && k <= |uploads| <= |names|
      && SavedUpTo(names, firstId, uploads, k) == saved
      && |attachments| == |saved.rows| && AttachmentRows(attachments) == saved.rows
      && postFiles == files + Elems(saved.stored)
    }

    /** One pass of the loop in `saveAttachments`: the attachments built for
        the k-th upload, to be appended to the others. */
    method SaveNext(uploads: seq<Upload>, k: nat, post: Post, firstId: int, attachments: seq<PostAttachment>,
                    ghost names: seq<Result<string, FileError>>, ghost saved: Saving, ghost files: set<string>)
      returns (more: seq<PostAttachment>, error: Option<PostError>, ghost saved': Saving)
      requires k < |uploads| && names == NamesOf(post.id, uploads)
      requires SaveProgress(uploads, names, firstId, k, attachments, saved, files) && saved.error.None?
      modifies this`postFiles
      ensures SaveProgress(uploads, names, firstId, k + 1, attachments + more, saved', files)
      ensures error == saved'.error
      ensures forall a | a in more :: fresh(a) && a.post == post
    {
      var nextId := firstId + |attachments|;
      ghost var e := UploadEffect(names[k], nextId, uploads[k]);
      var attachment;
      ghost var stored;
      attachment, error, stored := SaveOne(uploads, k, post, nextId, names);
      saved' := Then(saved, e);
      ElemsAppend(saved.stored, stored);
      SaveStep(names, firstId, uploads, k, saved, nextId, e);
      ghost var rows := AttachmentRows(attachments);
      assert rows == saved.rows;
      if attachment == null {
        more := [];
        assert attachments + more == attachments && saved'.rows == rows + [];
      } else {
        AttachmentRowsSnoc(attachments, attachment);
        assert saved'.rows == rows + [RowOfAttachment(attachment)];
        more := [attachment];
      }
    }

    /** `saveAttachments`: writes each non-empty upload to disk and builds its
        attachment, stopping at the first upload that fails. */
    method SaveAttachments(uploads: seq<Upload>, post: Post, firstId: int)
      returns (attachments: seq<PostAttachment>, error: Option<PostError>)
      modifies this`postFiles
      ensures var s := Saved(post.id, firstId, uploads);
              && error == s.error
              && AttachmentRows(attachments) == s.rows
              && postFiles == old(postFiles) + Elems(s.stored)
      ensures forall a | a in attachments :: fresh(a) && a.post == post
    {
      ghost var names := NamesOf(post.id, uploads);
      ghost var k, saved;
      attachments, error, k, saved := SaveLoop(uploads, post, firstId, names);
      SavedAtExit(post.id, names, firstId, uploads, k, saved);
    }

    /** The loop of `saveAttachments`: it ends after the last upload or at the
        first failure, with the saving of the uploads it has gone through. */
    method SaveLoop(uploads: seq<Upload>, post: Post, firstId: int, ghost names: seq<Result<string, FileError>>)
      returns (attachments: seq<PostAttachment>, error: Option<PostError>, ghost k: nat, ghost saved: Saving)
      requires names == NamesOf(post.id, uploads)
      modifies this`postFiles
      ensures SaveProgress(uploads, names, firstId, k, attachments, saved, old(postFiles))
      ensures error == saved.error && (k == |uploads| || error.Some?)
      ensures forall a | a in attachments :: fresh(a) && a.post == post
    {
      attachments := [];
      error := None;
      saved := Saving([], [], None);
      var i := 0;
      assert SaveProgress(uploads, names, firstId, 0, attachments, saved, old(postFiles)) by {
        assert AttachmentRows(attachments) == [] && Elems([]) == {};
      }
      while i < |uploads| && error.None?
        invariant SaveProgress(uploads, names, firstId, i, attachments, saved, old(postFiles))
        invariant error == saved.error
        invariant forall a | a in attachments :: fresh(a) && a.post == post
      {
        var more;
        more, error, saved := SaveNext(uploads, i, post, firstId, attachments, names, saved, old(postFiles));
        attachments := attachments + more;
        i := i + 1;
      }
      k := i;
    }

    /** The category a post is given: none when no id is given, else the one with that id. */
    static function CategoryOf(categoryId: Option<int>, categories: map<int, Category>): (c: Option<Category>)
      requires categoryId.Some? ==> categoryId.value in categories
      ensures c.None? <==> categoryId.None?
      ensures c.Some? ==> c.value == categories[categoryId.value]
    {
      if categoryId.Some? then Some(categories[categoryId.value]) else None
    }

    /** `postRepository.save` of a new post: it is stored under the next id. */
    method Insert(post: Post)
      requires Valid() && post.id == nextPostId && post.viewCount.Some?
      modifies this`posts, this`nextPostId
      ensures posts == old(posts)[post.id := post] && nextPostId == old(nextPostId) + 1
      ensures Valid() && Rows() == old(Rows())[post.id := RowOf(post)]
    {
      ghost var before := Rows();
      posts := posts[post.id := post];
      nextPostId := nextPostId + 1;
      assert forall k | k in before :: k in posts && posts[k] == old(posts)[k] && Rows()[k] == before[k];
    }

    /** `postRepository.delete`: the post and, by cascade, its attachment rows go. */
    method Remove(id: int)
      requires Valid() && id in posts
      modifies this`posts
      ensures posts == old(posts) - {id}
      ensures Valid() && Rows() == old(Rows()) - {id}
    {
      ghost var before := Rows();
      posts := posts - {id};
      assert forall k | k in posts :: posts[k] == old(posts)[k] && Rows()[k] == before[k];
    }

    /** `createPost`: an unknown category is refused before anything is written;
        otherwise the post is inserted under the next id, written by the caller
        (or "익명"), with no views, and the uploads are saved as its attachments.
        A failing upload rolls the post back, but the files already written stay. */
    method CreatePost(title: string, content: string, categoryId: Option<int>, currentUser: Option<User>,
                      categories: map<int, Category>, uploads: seq<Upload>)
      returns (r: Result<PostDto, PostError>)
      requires Valid()
      modifies this
      ensures Valid()
      ensures categoryId.Some? && categoryId.value !in categories ==>
                && r == Failure(PostError.CategoryNotFound(categoryId.value))
                && posts == old(posts) && Rows() == old(Rows()) && postFiles == old(postFiles)
                && nextPostId == old(nextPostId) && nextAttachmentId == old(nextAttachmentId)
      ensures !(categoryId.Some? && categoryId.value !in categories) ==>
                var id := old(nextPostId);
                var s := Saved(id, old(nextAttachmentId), uploads);
                && id !in old(posts)
                && postFiles == old(postFiles) + Elems(s.stored)
                && (s.error.Some? ==>
                      && r == Failure(s.error.value)
                      && posts == old(posts) && Rows() == old(Rows())
                      && nextPostId == old(nextPostId) && nextAttachmentId == old(nextAttachmentId))
                && (s.error.None? ==>
                      && id in posts && posts == old(posts)[id := posts[id]] && fresh(posts[id])
                      && Rows() == old(Rows())[id := PostRow(id, title, content, Some(AuthorName(currentUser)), currentUser,
                                                             CategoryOf(categoryId, categories), s.rows, Some(0))]
                      && r == Success(FromEntity(Rows()[id]))
                      && nextPostId == id + 1 && nextAttachmentId == old(nextAttachmentId) + |s.rows|)
    {
      if categoryId.Some? && categoryId.value !in categories {
        return Failure(PostError.CategoryNotFound(categoryId.value));
      }
      ghost var before := Rows();
      var category := CategoryOf(categoryId, categories);
      var post := new Post(nextPostId, title, content, Some(AuthorName(currentUser)), currentUser, category, Some(0));
      post.OnCreate();
      var attachments, error := SaveAttachments(uploads, post, nextAttachmentId);
      RowsFramed();
      if error.Some? {
        return Failure(error.value);
      }
      post.attachments := attachments;
      nextAttachmentId := nextAttachmentId + |attachments|;
      RowsFramed();
      assert RowOf(post) == PostRow(post.id, title, content, Some(AuthorName(currentUser)), currentUser, category,
                                    Saved(post.id, old(nextAttachmentId), uploads).rows, Some(0));
      Insert(post);
      r := Success(FromEntity(RowOf(post)));
    }

    /** One pass of the removal loop of `updatePost`: the first attachment
        still on the list carrying the k-th requested id, if any, is deleted
        from disk and taken off the list. */
    method RemoveNext(attachments: seq<PostAttachment>, filesToDelete: seq<int>, k: nat, kept: seq<PostAttachment>,
                      ghost files: set<string>)
      returns (kept': seq<PostAttachment>)
      requires k < |filesToDelete| && kept == WithoutIds(attachments, filesToDelete[..k])
      requires postFiles == files - RemovedNames(attachments, filesToDelete[..k])
      modifies this`postFiles
      ensures kept' == WithoutIds(attachments, filesToDelete[..k + 1])
      ensures postFiles == files - RemovedNames(attachments, filesToDelete[..k + 1])
    {
      var fileId := filesToDelete[k];
      RemovalStep(attachments, filesToDelete, k);
      var found := FirstWithId(kept, fileId);
      kept' := kept;
      if found.Some? {
        var attachment := kept[found.value];
        RemoveFirstById(kept, fileId);
        postFiles := postFiles - {attachment.fileName};
        kept' := RemoveFirst(kept, attachment);
      }
    }

    /** The removal loop of `updatePost`: for each requested id in turn, the
        first attachment still on the list carrying it is deleted from disk and
        taken off the list; an id that names none is skipped. */
    method RemoveRequested(attachments: seq<PostAttachment>, filesToDelete: seq<int>)
      returns (kept: seq<PostAttachment>)
      modifies this`postFiles
      ensures kept == WithoutIds(attachments, filesToDelete)
      ensures postFiles == old(postFiles) - RemovedNames(attachments, filesToDelete)
    {
      kept := attachments;
      var k := 0;
      while k < |filesToDelete|
        invariant 0 <= k <= |filesToDelete|
        invariant kept == WithoutIds(attachments, filesToDelete[..k])
        invariant postFiles == old(postFiles) - RemovedNames(attachments, filesToDelete[..k])
      {
        kept := RemoveNext(attachments, filesToDelete, k, kept, old(postFiles));
        k := k + 1;
      }
      assert filesToDelete[..k] == filesToDelete;
    }

    /** The row changes of a successful `updatePost`, saved at commit. */
    method Edit(post: Post, title: string, content: string, category: Option<Category>, attachments: seq<PostAttachment>)
      requires Valid() && post.id in posts && posts[post.id] == post
      modifies post`title, post`content, post`category, post`attachments
      ensures Valid()
      ensures Rows() == old(Rows())[post.id := old(Rows())[post.id].(title := title, content := content, category := category,
                                                                      attachments := AttachmentRows(attachments))]
    {
      ghost var before := Rows();
      post.title, post.content, post.category, post.attachments := title, content, category, attachments;
      ghost var after := Rows();
      ghost var expected := before[post.id := before[post.id].(title := title, content := content, category := category,
                                                               attachments := AttachmentRows(attachments))];
      assert after.Keys == expected.Keys;
      forall k | k in after
        ensures after[k] == expected[k]
      {
        if k != post.id {
          assert posts[k] != post;
        }
      }
    }

    /** The editing part of `updatePost`, once the checks have passed: the
        requested attachments are deleted, the uploads saved and, if that
        succeeds, the row takes the new title, content, category and list. */
    method ApplyUpdate(post: Post, title: string, content: string, category: Option<Category>,
                       uploads: seq<Upload>, filesToDelete: seq<int>)
      returns (r: Result<PostDto, PostError>)
      requires Valid() && post.id in posts && posts[post.id] == post
      modifies this`postFiles, this`nextAttachmentId, post`title, post`content, post`category, post`attachments
      ensures Valid()
      ensures var s := Saved(post.id, old(nextAttachmentId), uploads);
              var kept := WithoutIds(old(post.attachments), filesToDelete);
              && postFiles == old(postFiles) - RemovedNames(old(post.attachments), filesToDelete) + Elems(s.stored)
              && (s.error.Some? ==>
                    r == Failure(s.error.value) && Rows() == old(Rows()) && nextAttachmentId == old(nextAttachmentId))
              && (s.error.None? ==>
                    && Rows() == old(Rows())[post.id := old(Rows())[post.id].(
                                   title := title, content := content, category := category,
                                   attachments := old(AttachmentRows(kept)) + s.rows)]
                    && r == Success(FromEntity(Rows()[post.id]))
                    && nextAttachmentId == old(nextAttachmentId) + |s.rows|)
    {
      ghost var keptRows := AttachmentRows(WithoutIds(post.attachments, filesToDelete));
      var kept := RemoveRequested(post.attachments, filesToDelete);
      assert AttachmentRows(kept) == keptRows;
      var added, error := SaveAttachments(uploads, post, nextAttachmentId);
      RowsFramed();
      if error.Some? {
        return Failure(error.value);
      }
      r := Commit(post, title, content, category, kept, added);
    }

    /** The success branch of `updatePost`: the attachment ids are used up and
        the row takes the new title, content, category and the kept attachments
        followed by the added ones. */
    method Commit(post: Post, title: string, content: string, category: Option<Category>,
                  kept: seq<PostAttachment>, added: seq<PostAttachment>)
      returns (r: Result<PostDto, PostError>)
      requires Valid() && post.id in posts && posts[post.id] == post
      modifies this`nextAttachmentId, post`title, post`content, post`category, post`attachments
      ensures Valid()
      ensures Rows() == old(Rows())[post.id := old(Rows())[post.id].(
                          title := title, content := content, category := category,
                          attachments := old(AttachmentRows(kept)) + old(AttachmentRows(added)))]
      ensures r == Success(FromEntity(Rows()[post.id]))
      ensures nextAttachmentId == old(nextAttachmentId) + |added|
    {
      ghost var rows := AttachmentRows(kept) + AttachmentRows(added);
      AttachmentRowsAppend(kept, added);
      nextAttachmentId := nextAttachmentId + |added|;
      RowsFramed();
      Edit(post, title, content, category, kept + added);
      assert AttachmentRows(kept + added) == rows;
      r := Success(FromEntity(RowOf(post)));
    }

    /** `updatePost`: an unknown post, then a logged-in caller who may not
        change it, then an unknown category is refused; otherwise title and
        content are overwritten, the category too when one is given, the
        requested attachments are deleted and the uploads appended after the
        ones kept. A failing upload rolls the rows back; the files deleted and
        written before it stay so. The category is looked up before the title
        and content are set, which the rollback makes indistinguishable from
        the other order. */
    method UpdatePost(id: int, title: string, content: string, categoryId: Option<int>, currentUser: Option<User>,
                      categories: map<int, Category>, uploads: seq<Upload>, filesToDelete: seq<int>)
      returns (r: Result<PostDto, PostError>)
      requires Valid()
      modifies this`postFiles, this`nextAttachmentId
      modifies if id in posts then {posts[id]} else {}
      ensures Valid() && posts == old(posts) && nextPostId == old(nextPostId)
      ensures id !in posts ==>
                r == Failure(PostNotFound(id)) && Rows() == old(Rows()) && postFiles == old(postFiles)
                && nextAttachmentId == old(nextAttachmentId)
      ensures id in posts && Refuses(currentUser, old(posts[id].user)) ==>
                r == Failure(NotAllowed) && Rows() == old(Rows()) && postFiles == old(postFiles)
                && nextAttachmentId == old(nextAttachmentId)
      ensures id in posts && !Refuses(currentUser, old(posts[id].user)) && categoryId.Some? && categoryId.value !in categories ==>
                r == Failure(PostError.CategoryNotFound(categoryId.value)) && Rows() == old(Rows()) && postFiles == old(postFiles)
                && nextAttachmentId == old(nextAttachmentId)
      ensures id in posts && !Refuses(currentUser, old(posts[id].user)) && !(categoryId.Some? && categoryId.value !in categories) ==>
                var s := Saved(id, old(nextAttachmentId), uploads);
                var kept := WithoutIds(old(posts[id].attachments), filesToDelete);
                && postFiles == old(postFiles) - RemovedNames(old(posts[id].attachments), filesToDelete) + Elems(s.stored)
                && (s.error.Some? ==>
                      r == Failure(s.error.value) && Rows() == old(Rows()) && nextAttachmentId == old(nextAttachmentId))
                && (s.error.None? ==>
                      && Rows() == old(Rows())[id := old(Rows())[id].(
                                     title := title, content := content,
                                     category := if categoryId.Some? then Some(categories[categoryId.value]) else old(Rows())[id].category,
                                     attachments := old(AttachmentRows(kept)) + s.rows)]
                      && r == Success(FromEntity(Rows()[id]))
                      && nextAttachmentId == old(nextAttachmentId) + |s.rows|)
    {
      if id !in posts {
        return Failure(PostNotFound(id));
      }
      var post := posts[id];
      if currentUser.Some? && !IsAllowedToModify(currentUser.value, post.user) {
        return Failure(NotAllowed);
      }
      if categoryId.Some? && categoryId.value !in categories {
        return Failure(PostError.CategoryNotFound(categoryId.value));
      }
      var category := if categoryId.Some? then Some(categories[categoryId.value]) else post.category;
      r := ApplyUpdate(post, title, content, category, uploads, filesToDelete);
    }

    /** `deletePost`: an unknown post, then a logged-in caller who may not
        delete it, is refused; otherwise every attachment file of the post is
        deleted from disk and the post goes, with its attachment rows.
        `referenced` holds the post ids that comments still point at, a table
        this service cannot see: the delete of such a post fails at commit, so
        the post stays, but the files deleted before it are gone. */
    method DeletePost(id: int, currentUser: Option<User>, referenced: set<int>) returns (r: Result<(), PostError>)
      requires Valid()
      modifies this`posts, this`postFiles
      ensures Valid()
      ensures id !in old(posts) ==> r == Failure(PostNotFound(id)) && posts == old(posts) && postFiles == old(postFiles)
      ensures id in old(posts) && Refuses(currentUser, old(posts[id].user)) ==>
                r == Failure(NotAllowed) && posts == old(posts) && postFiles == old(postFiles)
      ensures id in old(posts) && !Refuses(currentUser, old(posts[id].user)) ==>
                && postFiles == old(postFiles) - FileNames(old(posts[id].attachments))
                && (id in referenced ==> r == Failure(PostStillReferenced) && posts == old(posts) && Rows() == old(Rows()))
                && (id !in referenced ==> r == Success(()) && posts == old(posts) - {id} && Rows() == old(Rows()) - {id})
    {
      if id !in posts {
        return Failure(PostNotFound(id));
      }
      var post := posts[id];
      if currentUser.Some? && !IsAllowedToModify(currentUser.value, post.user) {
        return Failure(NotAllowed);
      }
      var k := 0;
      while k < |post.attachments|
        invariant 0 <= k <= |post.attachments|
        invariant postFiles == old(postFiles) - FileNames(post.attachments[..k])
        modifies this`postFiles
      {
        assert post.attachments[..k + 1][..k] == post.attachments[..k];
        postFiles := postFiles - {post.attachments[k].fileName};
        k := k + 1;
      }
      assert post.attachments[..k] == post.attachments;
      if id in referenced {
        return Failure(PostStillReferenced);
      }
      Remove(id);
      r := Success(());
    }
  }
}
