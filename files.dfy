/** The name-handling part of FileStorageService: how an uploaded file's stored
    name is built and which directory a file type lives in. Copying, deleting and
    loading the bytes are not part of this model; `StringUtils.cleanPath` is taken
    to return its argument, and the random UUID is passed in. */
module FileStorage {
  import opened Common

  /** `getFileExtension`: from the last '.' on, unless there is no '.' or the
      only candidate is a leading one (a hidden file name has no extension). */
  function GetFileExtension(filename: string): (ext: string)
    ensures |ext| <= |filename| && ext == filename[|filename| - |ext|..]
    ensures ext != [] ==> ext[0] == '.' && forall i :: 0 < i < |ext| ==> ext[i] != '.'
    ensures ext == [] <==> forall i :: 0 < i < |filename| ==> filename[i] != '.'
  {
    var dot := LastIndexOf(filename, '.');
    if dot != -1 && dot != 0 then filename[dot..] else ""
  }

  /** A dot-free text with a non-empty extension appended has exactly that extension. */
  lemma ExtensionOfAppended(stem: string, ext: string)
    requires |stem| > 0 && forall i :: 0 <= i < |stem| ==> stem[i] != '.'
    requires ext == [] || (ext[0] == '.' && forall i :: 0 < i < |ext| ==> ext[i] != '.')
    ensures GetFileExtension(stem + ext) == ext
  {
    var s := stem + ext;
    var dot := LastIndexOf(s, '.');
    if ext == [] {
      assert s == stem;
    } else {
      assert s[|stem|] == '.';
      assert s[dot..] == ext;
    }
  }

  datatype FileError = NullFilename | InvalidPathSequence(filename: string)

  /** The three kinds of upload and the id each name carries. */
  datatype StoreKind = ProfileImage(userId: int) | PostAttachment(postId: int) | Temporary

  /** The subdirectories of the storage root. */
  datatype Directory = StorageRoot | Profiles | Posts | Temp

  /** The directory names created at start-up. */
  function DirectoryName(d: Directory): (name: string)
    ensures d != StorageRoot ==> name in {"profiles", "posts", "temp"}
  {
    match d
    case StorageRoot => ""
    case Profiles => "profiles"
    case Posts => "posts"
    case Temp => "temp"
  }

  /** `storeProfileImage`, `storePostAttachment`, `storeTemporaryFile`: the
      directory and the name prefix each passes to `storeFile`. */
  function StoreTarget(kind: StoreKind): (target: (Directory, string))
    ensures target.0 != StorageRoot
    ensures |target.1| > 0 && target.1[|target.1| - 1] == '_'
  {
    match kind
    case ProfileImage(userId) => (Profiles, "profile_" + IntToString(userId) + "_")
    case PostAttachment(postId) => (Posts, "post_" + IntToString(postId) + "_")
    case Temporary => (Temp, "temp_")
  }

  /** The type word the rest of the backend passes to `loadFileAsResource` and
      `deleteFile` for a file of each kind. */
  function TypeWord(kind: StoreKind): string {
    match kind
    case ProfileImage(_) => "profile"
    case PostAttachment(_) => "post"
    case Temporary => "temp"
  }

  /** The `switch` in `loadFileAsResource` and the if-chain in `deleteFile`,
      which agree: three words name their subdirectory, anything else the root. */
  function DirectoryFor(fileType: string): (d: Directory)
    ensures d == Profiles <==> fileType == "profile"
    ensures d == Posts <==> fileType == "post"
    ensures d == Temp <==> fileType == "temp"
  {
    if fileType == "profile" then Profiles
    else if fileType == "post" then Posts
    else if fileType == "temp" then Temp
    else StorageRoot
  }

  /** A file is looked up and deleted in the directory it was stored in. */
  lemma StoredFilesAreFoundAgain(kind: StoreKind)
    ensures DirectoryFor(TypeWord(kind)) == StoreTarget(kind).0
  {
  }

  /** The name `storeFile` gives an upload: the original name must be present
      and free of "..", and the stored name is the kind's prefix, the UUID and
      the original's extension. */
  function StoredFileName(kind: StoreKind, originalFilename: Option<string>, uuid: string): (r: Result<string, FileError>)
    ensures originalFilename.None? ==> r == Failure(NullFilename)
    ensures originalFilename.Some? ==>
              (r.Failure? <==> Contains(originalFilename.value, ".."))
    ensures r.Failure? && originalFilename.Some? ==> r.error == InvalidPathSequence(originalFilename.value)
  {
    match originalFilename
    case None => Failure(NullFilename)
    case Some(name) =>
      if Contains(name, "..") then Failure(InvalidPathSequence(name))
      else Success(StoreTarget(kind).1 + uuid + GetFileExtension(name))
  }

  /** A stored name starts with its kind's prefix, carries the UUID next and
      ends in the original's extension. */
  lemma StoredNameShape(kind: StoreKind, originalFilename: Option<string>, uuid: string)
    requires StoredFileName(kind, originalFilename, uuid).Success?
    ensures var stored := StoredFileName(kind, originalFilename, uuid).value;
            var prefix := StoreTarget(kind).1;
            && StartsWith(stored, prefix)
            && stored[|prefix|..|prefix| + |uuid|] == uuid
            && EndsWith(stored, GetFileExtension(originalFilename.value))
  {
    var prefix := StoreTarget(kind).1;
    var ext := GetFileExtension(originalFilename.value);
    var stored := prefix + uuid + ext;
    assert stored[..|prefix|] == prefix;
    assert stored[|prefix|..|prefix| + |uuid|] == uuid;
    assert stored[|stored| - |ext|..] == ext;
  }

  /** A stored name never contains "..": the original was refused if it did,
      and the prefix, a dot-free UUID and the extension cannot produce one. */
  lemma StoredNameHasNoDotDot(kind: StoreKind, originalFilename: Option<string>, uuid: string)
    requires forall i :: 0 <= i < |uuid| ==> uuid[i] != '.'
    requires StoredFileName(kind, originalFilename, uuid).Success?
    ensures !Contains(StoredFileName(kind, originalFilename, uuid).value, "..")
  {
    var stem := DotFreeStem(kind, uuid);
    NoDoubleDot(stem, GetFileExtension(originalFilename.value));
  }

  /** A dot-free text followed by an extension has no two dots in a row. */
  lemma NoDoubleDot(stem: string, ext: string)
    requires forall i :: 0 <= i < |stem| ==> stem[i] != '.'
    requires ext == [] || (ext[0] == '.' && forall i :: 0 < i < |ext| ==> ext[i] != '.')
    ensures !Contains(stem + ext, "..")
  {
    var s := stem + ext;
    forall i | 0 <= i < |s| - 1
      ensures s[i] != '.' || s[i + 1] != '.'
    {
      if i + 1 < |stem| {
        assert s[i + 1] == stem[i + 1];
      } else if i < |stem| {
        assert s[i] == stem[i];
      } else {
        assert s[i + 1] == ext[i + 1 - |stem|];
      }
    }
    forall i | 0 <= i <= |s| - 2
      ensures !OccursAt(s, "..", i)
    {
      assert s[i..i + 2][0] == s[i] && s[i..i + 2][1] == s[i + 1];
    }
  }

  /** The extension of a stored name is the extension of the original: the
      served file keeps the type the uploader's name announced. */
  lemma StoredNameKeepsExtension(kind: StoreKind, originalFilename: Option<string>, uuid: string)
    requires forall i :: 0 <= i < |uuid| ==> uuid[i] != '.'
    requires StoredFileName(kind, originalFilename, uuid).Success?
    ensures GetFileExtension(StoredFileName(kind, originalFilename, uuid).value)
            == GetFileExtension(originalFilename.value)
  {
    var stem := DotFreeStem(kind, uuid);
    ExtensionOfAppended(stem, GetFileExtension(originalFilename.value));
  }

  /** The part of a stored name before the extension has no '.'. */
  lemma DotFreeStem(kind: StoreKind, uuid: string) returns (stem: string)
    requires forall i :: 0 <= i < |uuid| ==> uuid[i] != '.'
    ensures stem == StoreTarget(kind).1 + uuid && |stem| > 0
    ensures forall i :: 0 <= i < |stem| ==> stem[i] != '.'
  {
    var prefix := StoreTarget(kind).1;
    PrefixIsDotFree(kind);
    stem := prefix + uuid;
    forall i | 0 <= i < |stem| ensures stem[i] != '.' {
      if i < |prefix| { assert stem[i] == prefix[i]; } else { assert stem[i] == uuid[i - |prefix|]; }
    }
  }

  lemma PrefixIsDotFree(kind: StoreKind)
    ensures forall i :: 0 <= i < |StoreTarget(kind).1| ==> StoreTarget(kind).1[i] != '.'
  {
    match kind
    case ProfileImage(userId) => DecimalIsDotFree("profile_", userId);
    case PostAttachment(postId) => DecimalIsDotFree("post_", postId);
    case Temporary =>
  }

  lemma DecimalIsDotFree(word: string, n: int)
    requires forall i :: 0 <= i < |word| ==> word[i] != '.'
    ensures var s := word + IntToString(n) + "_"; forall i :: 0 <= i < |s| ==> s[i] != '.'
  {
    var d := IntToString(n);
    assert forall i :: 0 <= i < |d| ==> d[i] != '.' by {
      if n < 0 {
        assert d == "-" + NatToString(-n);
        forall i | 0 <= i < |d| ensures d[i] != '.' {
          if i > 0 { assert d[i] == NatToString(-n)[i - 1]; }
        }
      }
    }
    var s := word + d + "_";
    forall i | 0 <= i < |s| ensures s[i] != '.' {
      if i < |word| { assert s[i] == word[i]; }
      else if i < |word| + |d| { assert s[i] == d[i - |word|]; }
    }
  }
}
