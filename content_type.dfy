/** `FileController.determineContentType`: the Content-Type a downloaded file is
    served with, chosen from the end of its lower-cased name. */
module FileController {
  import opened Common
  import opened FileStorage

  const OctetStream := "application/octet-stream"

  /** Every answer `determineContentType` can give. */
  const ContentTypes: set<string> :=
    {"image/jpeg", "image/png", "image/gif", "image/webp", "application/pdf",
     "video/mp4", "video/quicktime", "video/webm", OctetStream}

  /** The suffixes the if-chain tests, in its order, with the type each selects. */
  const Listed: seq<(string, string)> :=
    [(".jpg", "image/jpeg"), (".jpeg", "image/jpeg"), (".png", "image/png"), (".gif", "image/gif"),
     (".webp", "image/webp"), (".pdf", "application/pdf"), (".mp4", "video/mp4"),
     (".mov", "video/quicktime"), (".webm", "video/webm")]

  /** `determineContentType`: a null name is served as a byte stream; otherwise
      the name is lower-cased and its ending picks the type. */
  function DetermineContentType(filename: Option<string>): (t: string)
    ensures t in ContentTypes
    ensures filename.None? ==> t == OctetStream
  {
    match filename
    case None => OctetStream
    case Some(name) => TypeOfLowerName(ToLower(name))
  }

  /** The if/else chain on the lower-cased name. */
  function TypeOfLowerName(lower: string): (t: string)
    ensures t in ContentTypes
  {
    if EndsWith(lower, ".jpg") || EndsWith(lower, ".jpeg") then "image/jpeg"
    else if EndsWith(lower, ".png") then "image/png"
    else if EndsWith(lower, ".gif") then "image/gif"
    else if EndsWith(lower, ".webp") then "image/webp"
    else if EndsWith(lower, ".pdf") then "application/pdf"
    else if EndsWith(lower, ".mp4") then "video/mp4"
    else if EndsWith(lower, ".mov") then "video/quicktime"
    else if EndsWith(lower, ".webm") then "video/webm"
    else OctetStream
  }

  /** The type depends only on the lower-cased name: names differing only in
      the case of ASCII letters are served alike. */
  lemma ContentTypeIgnoresCase(a: string, b: string)
    requires ToLower(a) == ToLower(b)
    ensures DetermineContentType(Some(a)) == DetermineContentType(Some(b))
  {
  }

  /** A name ending in a listed suffix gets that suffix's type whatever the
      order of the chain: no name ends in two listed suffixes. */
  lemma {:induction false} ListedSuffixDecides(name: string, k: nat)
    requires k < |Listed| && EndsWith(ToLower(name), Listed[k].0)
    ensures DetermineContentType(Some(name)) == Listed[k].1
  {
    var lower := ToLower(name);
    var p := Listed[k].0;
    ListedIsExtension(k);
    OnlyOneListedEnding(lower, p, ".jpg");
    OnlyOneListedEnding(lower, p, ".jpeg");
    OnlyOneListedEnding(lower, p, ".png");
    OnlyOneListedEnding(lower, p, ".gif");
    OnlyOneListedEnding(lower, p, ".webp");
    OnlyOneListedEnding(lower, p, ".pdf");
    OnlyOneListedEnding(lower, p, ".mp4");
    OnlyOneListedEnding(lower, p, ".mov");
    OnlyOneListedEnding(lower, p, ".webm");
  }

  lemma OnlyOneListedEnding(lower: string, p: string, q: string)
    requires IsExtension(p) && EndsWith(lower, p)
    requires IsExtension(q)
    ensures EndsWith(lower, q) <==> q == p
  {
    if EndsWith(lower, q) {
      SuffixesAgree(lower, p, q);
    }
  }

  /** Every listed suffix is an extension: one leading '.', no other. */
  lemma ListedIsExtension(k: nat)
    requires k < |Listed|
    ensures IsExtension(Listed[k].0)
  {
  }

  predicate IsExtension(p: string) {
    |p| > 0 && p[0] == '.' && forall i :: 0 < i < |p| ==> p[i] != '.'
  }

  /** A text ends in at most one extension. */
  lemma SuffixesAgree(s: string, p: string, q: string)
    requires IsExtension(p) && IsExtension(q)
    requires EndsWith(s, p) && EndsWith(s, q)
    ensures p == q
  {
    var n := if |p| < |q| then |p| else |q|;
    assert p[|p| - n] == s[|s| - n] == q[|q| - n];
  }

  /** Lower-casing keeps '.' where it is and creates no new one. */
  lemma LowerKeepsDots(x: string)
    ensures forall i :: 0 <= i < |x| ==> (ToLower(x)[i] == '.' <==> x[i] == '.')
  {
  }

  /** The lower-cased name ends in an extension exactly when its own extension,
      lower-cased, is that extension. */
  lemma EndsWithIffExtension(x: string, p: string)
    requires IsExtension(p)
    requires !(|x| > 0 && x[0] == '.' && GetFileExtension(x) == [])
    ensures EndsWith(ToLower(x), p) <==> (GetFileExtension(x) != [] && ToLower(GetFileExtension(x)) == p)
  {
    var e := GetFileExtension(x);
    if EndsWith(ToLower(x), p) {
      EndingIsTheExtension(x, p);
    }
    if e != [] && ToLower(e) == p {
      LowerTail(x, |x| - |e|);
    }
  }

  lemma EndingIsTheExtension(x: string, p: string)
    requires IsExtension(p) && EndsWith(ToLower(x), p)
    requires !(|x| > 0 && x[0] == '.' && GetFileExtension(x) == [])
    ensures GetFileExtension(x) == x[|x| - |p|..] && ToLower(x[|x| - |p|..]) == p
  {
    var k := |x| - |p|;
    var tail := x[k..];
    assert ToLower(tail) == p by { LowerTail(x, k); }
    assert IsExtension(tail) by { DotsOfLowered(tail); }
    var e := GetFileExtension(x);
    assert x[k] == '.' by { assert x[k] == tail[0]; }
    assert IsExtension(e) && EndsWith(x, e) by {
      assert e != [] by {
        if k > 0 {
          assert x[k] == '.';
        }
      }
    }
    assert EndsWith(x, tail);
    SuffixesAgree(x, e, tail);
  }

  /** Lower-casing a suffix is the suffix of the lower-cased text. */
  lemma LowerTail(x: string, k: nat)
    requires k <= |x|
    ensures ToLower(x[k..]) == ToLower(x)[k..]
  {
  }

  /** A text whose lower-cased form is an extension is itself one. */
  lemma DotsOfLowered(t: string)
    requires IsExtension(ToLower(t))
    ensures IsExtension(t)
  {
    LowerKeepsDots(t);
  }

  /** A name without any '.' ends in no listed suffix. */
  lemma DotFreeEndsInNoExtension(x: string, p: string)
    requires IsExtension(p)
    requires forall i :: 0 <= i < |x| ==> x[i] != '.'
    ensures !EndsWith(ToLower(x), p)
  {
    LowerKeepsDots(x);
  }

  /** Two names ending in the same listed suffixes are served with the same type. */
  lemma SameEndingsSameType(a: string, b: string)
    requires forall p :: IsExtension(p) ==> (EndsWith(ToLower(a), p) <==> EndsWith(ToLower(b), p))
    ensures DetermineContentType(Some(a)) == DetermineContentType(Some(b))
  {
    var la, lb := ToLower(a), ToLower(b);
    assert EndsWith(la, ".jpg") == EndsWith(lb, ".jpg") by { assert IsExtension(".jpg"); }
    assert EndsWith(la, ".jpeg") == EndsWith(lb, ".jpeg") by { assert IsExtension(".jpeg"); }
    assert EndsWith(la, ".png") == EndsWith(lb, ".png") by { assert IsExtension(".png"); }
    assert EndsWith(la, ".gif") == EndsWith(lb, ".gif") by { assert IsExtension(".gif"); }
    assert EndsWith(la, ".webp") == EndsWith(lb, ".webp") by { assert IsExtension(".webp"); }
    assert EndsWith(la, ".pdf") == EndsWith(lb, ".pdf") by { assert IsExtension(".pdf"); }
    assert EndsWith(la, ".mp4") == EndsWith(lb, ".mp4") by { assert IsExtension(".mp4"); }
    assert EndsWith(la, ".mov") == EndsWith(lb, ".mov") by { assert IsExtension(".mov"); }
    assert EndsWith(la, ".webm") == EndsWith(lb, ".webm") by { assert IsExtension(".webm"); }
    SameListedEndingsSameType(la, lb);
  }

  /** The if-chain reads nothing of a name but the nine suffix tests. */
  lemma SameListedEndingsSameType(la: string, lb: string)
    requires EndsWith(la, ".jpg") == EndsWith(lb, ".jpg") && EndsWith(la, ".jpeg") == EndsWith(lb, ".jpeg")
    requires EndsWith(la, ".png") == EndsWith(lb, ".png") && EndsWith(la, ".gif") == EndsWith(lb, ".gif")
    requires EndsWith(la, ".webp") == EndsWith(lb, ".webp") && EndsWith(la, ".pdf") == EndsWith(lb, ".pdf")
    requires EndsWith(la, ".mp4") == EndsWith(lb, ".mp4") && EndsWith(la, ".mov") == EndsWith(lb, ".mov")
    requires EndsWith(la, ".webm") == EndsWith(lb, ".webm")
    ensures TypeOfLowerName(la) == TypeOfLowerName(lb)
  {
  }

  /** A stored upload is served with the type its original name would have
      got, provided that name had an extension; without one the stored name
      has no '.' at all and is served as a byte stream. */
  lemma StoredNameServedLikeOriginal(kind: StoreKind, originalFilename: Option<string>, uuid: string)
    requires forall i :: 0 <= i < |uuid| ==> uuid[i] != '.'
    requires StoredFileName(kind, originalFilename, uuid).Success?
    ensures var stored := StoredFileName(kind, originalFilename, uuid).value;
            DetermineContentType(Some(stored))
            == if GetFileExtension(originalFilename.value) == [] then OctetStream
               else DetermineContentType(originalFilename)
  {
    var stored := StoredFileName(kind, originalFilename, uuid).value;
    var original := originalFilename.value;
    var e := GetFileExtension(original);
    var stem := DotFreeStem(kind, uuid);
    assert stored == stem + e;
    if e == [] {
      forall p | IsExtension(p) ensures !EndsWith(ToLower(stored), p) {
        DotFreeEndsInNoExtension(stored, p);
      }
      SameEndingsSameType(stored, "");
    } else {
      ExtensionOfAppended(stem, e);
      assert stored[0] == stem[0] != '.';
      forall p | IsExtension(p)
        ensures EndsWith(ToLower(stored), p) <==> EndsWith(ToLower(original), p)
      {
        EndsWithIffExtension(stored, p);
        EndsWithIffExtension(original, p);
      }
      SameEndingsSameType(stored, original);
    }
  }
}
