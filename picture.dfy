/** Validation of the picture file and the `data:` URL that embeds it: the
    existence check, the case-insensitive extension check against a fixed
    allow-list, the MIME type derived from the extension, and the URL built
    from the MIME type and the base64 payload. */
module Picture {
  import opened Wrappers

  /** The supported extensions, in the order the error message lists them. */
  const ValidExtensions: seq<string> := [".png", ".jpg", ".jpeg", ".gif", ".bmp", ".webp", ".svg"]

  // ---------------------------------------------------------------------
  // path.extname, after Node's POSIX implementation (a library call the
  // source relies on; see README).

  /** The path without its run of trailing '/' characters. */
  function StripTrailingSlashes(p: string): (r: string)
    ensures |r| <= |p| && r == p[..|r|]
    ensures r == "" || r[|r| - 1] != '/'
    ensures forall j :: |r| <= j < |p| ==> p[j] == '/'
  {
    if |p| > 0 && p[|p| - 1] == '/' then StripTrailingSlashes(p[..|p| - 1]) else p
  }

  /** The characters after the last '/'. */
  function LastSegment(p: string): (r: string)
    ensures |r| <= |p| && r == p[|p| - |r|..]
    ensures forall j :: 0 <= j < |r| ==> r[j] != '/'
    ensures |r| < |p| ==> p[|p| - |r| - 1] == '/'
  {
    if |p| == 0 || p[|p| - 1] == '/' then "" else LastSegment(p[..|p| - 1]) + [p[|p| - 1]]
  }

  /** The index of the last '.', or -1 when there is none. */
  function LastDot(seg: string): (d: int)
    ensures -1 <= d < |seg|
    ensures d >= 0 ==> seg[d] == '.'
    ensures forall j :: d < j < |seg| ==> seg[j] != '.'
  {
    if |seg| == 0 then -1
    else if seg[|seg| - 1] == '.' then |seg| - 1
    else LastDot(seg[..|seg| - 1])
  }

  /** The extension of one path segment: from its last '.' to its end; empty
      when it has no '.', when that '.' is its first character, or when the
      segment is "..". */
  function SegmentExt(seg: string): (r: string)
    ensures r == "" || (r[0] == '.' && |r| < |seg| && r == seg[|seg| - |r|..])
    ensures forall j :: 0 < j < |r| ==> r[j] != '.'
  {
    var d := LastDot(seg);
    if d <= 0 || seg == ".." then "" else seg[d..]
  }

  /** `path.extname`: the extension of the final segment once trailing '/'
      characters are dropped. */
  function Extname(p: string): (r: string)
    ensures r == "" || r[0] == '.'
    ensures forall j :: 0 < j < |r| ==> r[j] != '.' && r[j] != '/'
    ensures r != "" ==> EndsAfterSegmentChar(StripTrailingSlashes(p), r)
  {
    var q := StripTrailingSlashes(p);
    var seg := LastSegment(q);
    ExtOfSegmentInPath(q, seg, SegmentExt(seg));
    SegmentExt(seg)
  }

  /** `q` ends with `r`, and a character other than '/' stands before it. */
  predicate EndsAfterSegmentChar(q: string, r: string) {
    |r| < |q| && r == q[|q| - |r|..] && q[|q| - |r| - 1] != '/'
  }

  /** The extension of the last segment of `q`, read as a suffix of `q`. */
  lemma ExtOfSegmentInPath(q: string, seg: string, r: string)
    requires |seg| <= |q| && seg == q[|q| - |seg|..]
    requires forall j :: 0 <= j < |seg| ==> seg[j] != '/'
    requires r == "" || (r[0] == '.' && |r| < |seg| && r == seg[|seg| - |r|..])
    requires forall j :: 0 < j < |r| ==> r[j] != '.'
    ensures forall j :: 0 < j < |r| ==> r[j] != '.' && r[j] != '/'
    ensures r != "" ==> EndsAfterSegmentChar(q, r)
  {
    if r != "" {
      var o := |seg| - |r|;
      assert forall j :: 0 <= j < |r| ==> r[j] == seg[o + j];
      assert q[|q| - |r| - 1] == seg[o - 1];
    }
  }

  lemma StripKeepsPath(p: string)
    requires p != "" && p[|p| - 1] != '/'
    ensures StripTrailingSlashes(p) == p
  {
  }

  lemma {:induction false} LastSegmentAppend(a: string, b: string)
    requires forall j :: 0 <= j < |b| ==> b[j] != '/'
    ensures LastSegment(a + b) == LastSegment(a) + b
    decreases |b|
  {
    if b == [] {
      assert a + b == a;
    } else {
      var n := |b| - 1;
      var c := b[n];
      AppendLast(a, b);
      AppendLast(LastSegment(a), b);
      LastSegmentSnoc(a + b[..n], c);
      LastSegmentAppend(a, b[..n]);
    }
  }

  lemma AppendLast(x: string, b: string)
    requires b != []
    ensures x + b == (x + b[..|b| - 1]) + [b[|b| - 1]]
  {
  }

  lemma LastSegmentSnoc(q: string, c: char)
    requires c != '/'
    ensures LastSegment(q + [c]) == LastSegment(q) + [c]
  {
    assert (q + [c])[..|q|] == q;
  }

  /** The last '.' is at `k` when there is one there and none after it. */
  lemma LastDotIs(seg: string, k: nat)
    requires k < |seg| && seg[k] == '.'
    requires forall j :: k < j < |seg| ==> seg[j] != '.'
    ensures LastDot(seg) == k
  {
  }

  lemma LastSegmentNonEmpty(p: string)
    requires p != "" && p[|p| - 1] != '/'
    ensures LastSegment(p) != ""
  {
  }

  /** A segment `l.x`, with `l` not empty and `x` free of dots, has the
      extension `.x`. */
  lemma SegmentExtOfName(l: string, x: string)
    requires l != "" && x != ""
    requires forall j :: 0 <= j < |x| ==> x[j] != '.'
    ensures SegmentExt(l + ("." + x)) == "." + x
  {
    var seg := l + ("." + x);
    assert forall j :: |l| < j < |seg| ==> seg[j] == x[j - |l| - 1];
    LastDotIs(seg, |l|);
    assert seg[|l|..] == "." + x;
  }

  /** A segment `.x`, with `x` free of dots, has no extension. */
  lemma SegmentExtOfDotFile(x: string)
    requires forall j :: 0 <= j < |x| ==> x[j] != '.'
    ensures SegmentExt("." + x) == ""
  {
    var seg := "." + x;
    assert forall j :: 0 < j < |seg| ==> seg[j] == x[j - 1];
    LastDotIs(seg, 0);
  }

  /** A file name `stem.x` has the extension `.x`, whatever directories the
      stem contains. */
  lemma ExtnameOfName(stem: string, x: string)
    requires stem != "" && stem[|stem| - 1] != '/'
    requires x != ""
    requires forall j :: 0 <= j < |x| ==> x[j] != '.' && x[j] != '/'
    ensures Extname(stem + "." + x) == "." + x
  {
    var p := stem + ("." + x);
    assert p == stem + "." + x;
    assert p[|p| - 1] == x[|x| - 1];
    StripKeepsPath(p);
    LastSegmentNonEmpty(stem);
    LastSegmentAppend(stem, "." + x);
    SegmentExtOfName(LastSegment(stem), x);
  }

  /** A hidden file `.x` (a segment that starts with its only dot) has no
      extension. */
  lemma ExtnameOfDotFile(dir: string, x: string)
    requires dir == "" || dir[|dir| - 1] == '/'
    requires x != ""
    requires forall j :: 0 <= j < |x| ==> x[j] != '.' && x[j] != '/'
    ensures Extname(dir + "." + x) == ""
  {
    var p := dir + ("." + x);
    assert p == dir + "." + x;
    assert p[|p| - 1] == x[|x| - 1];
    StripKeepsPath(p);
    assert LastSegment(dir) == "";
    LastSegmentAppend(dir, "." + x);
    SegmentExtOfDotFile(x);
  }

  // ---------------------------------------------------------------------
  // String.prototype.toLowerCase on the letters that matter here.

  function LowerChar(c: char): char {
    if 'A' <= c <= 'Z' then (c as int + 32) as char else c
  }

  function UpperChar(c: char): char {
    if 'a' <= c <= 'z' then (c as int - 32) as char else c
  }

  function ToLower(s: string): (r: string)
    ensures |r| == |s|
    ensures forall j :: 0 <= j < |s| ==> r[j] == LowerChar(s[j])
  {
    seq(|s|, j requires 0 <= j < |s| => LowerChar(s[j]))
  }

  function ToUpper(s: string): (r: string)
    ensures |r| == |s|
    ensures forall j :: 0 <= j < |s| ==> r[j] == UpperChar(s[j])
  {
    seq(|s|, j requires 0 <= j < |s| => UpperChar(s[j]))
  }

  /** Lowering an upper-cased string gives back any string without capitals. */
  lemma LowerOfUpper(s: string)
    requires forall j :: 0 <= j < |s| ==> !('A' <= s[j] <= 'Z')
    ensures ToLower(ToUpper(s)) == s
  {
  }

  // ---------------------------------------------------------------------
  // Validation.

  /** The two errors `generateOGImage` throws before reading the file. */
  datatype PictureError = DoesNotExist(path: string) | InvalidFormat

  /** JavaScript's `Array.prototype.join`. */
  function Join(xs: seq<string>, sep: string): (r: string)
    ensures |xs| == 0 ==> r == ""
    ensures |xs| > 0 ==> |xs[0]| <= |r| && r[..|xs[0]|] == xs[0]
    decreases |xs|
  {
    if |xs| == 0 then "" else if |xs| == 1 then xs[0] else xs[0] + sep + Join(xs[1..], sep)
  }

  /** The text of the thrown `Error`. */
  function Message(e: PictureError): (r: string)
    ensures e.DoesNotExist? ==> |e.path| < |r| && r[|r| - |e.path|..] == e.path
  {
    match e
    case DoesNotExist(p) => "Picture file does not exist: " + p
    case InvalidFormat => "Invalid image file format. " + "Supported formats: " + Join(ValidExtensions, ", ")
  }

  predicate OccursAt(s: string, w: string, o: int) {
    0 <= o && o + |w| <= |s| && s[o..o + |w|] == w
  }

  lemma {:induction false} JoinListsEach(xs: seq<string>, sep: string, k: nat)
    requires k < |xs|
    ensures exists o :: OccursAt(Join(xs, sep), xs[k], o)
    decreases |xs|
  {
    var s := Join(xs, sep);
    if |xs| == 1 {
      assert OccursAt(s, xs[k], 0);
    } else if k == 0 {
      assert s[..|xs[0]|] == xs[0];
      assert OccursAt(s, xs[k], 0);
    } else {
      JoinListsEach(xs[1..], sep, k - 1);
      var tail := Join(xs[1..], sep);
      var o :| OccursAt(tail, xs[1..][k - 1], o);
      var shift := |xs[0] + sep|;
      assert s == xs[0] + sep + tail;
      assert s[shift + o..shift + o + |xs[k]|] == tail[o..o + |xs[k]|];
      assert OccursAt(s, xs[k], shift + o);
    }
  }

  /** The message identifies the error: different errors have different
      texts, and a missing file's text names its path. */
  lemma MessageDeterminesError(e1: PictureError, e2: PictureError)
    requires Message(e1) == Message(e2)
    ensures e1 == e2
  {
    MessageFirst(e1);
    MessageFirst(e2);
    if e1.DoesNotExist? && e2.DoesNotExist? {
      var pre := "Picture file does not exist: ";
      SplitSuffix(pre, e1.path, Message(e1));
      SplitSuffix(pre, e2.path, Message(e2));
    }
  }

  /** The two texts begin with different letters. */
  lemma MessageFirst(e: PictureError)
    ensures |Message(e)| > 0 && Message(e)[0] == if e.DoesNotExist? then 'P' else 'I'
  {
    match e
    case DoesNotExist(p) => FirstOf("Picture file does not exist: ", p);
    case InvalidFormat =>
      FirstOf("Invalid image file format. ", "Supported formats: " + Join(ValidExtensions, ", "));
      assert Message(e) == "Invalid image file format. " + ("Supported formats: " + Join(ValidExtensions, ", "));
  }

  lemma FirstOf(a: string, b: string)
    requires a != ""
    ensures (a + b)[0] == a[0]
  {
  }

  lemma SplitSuffix(a: string, b: string, s: string)
    requires s == a + b
    ensures s[|a|..] == b
  {
  }

  /** The unsupported-format error names every supported extension. */
  lemma FormatMessageListsAll(e: string)
    requires e in ValidExtensions
    ensures exists o :: OccursAt(Message(InvalidFormat), e, o)
  {
    var k :| 0 <= k < |ValidExtensions| && ValidExtensions[k] == e;
    JoinListsEach(ValidExtensions, ", ", k);
    var joined := Join(ValidExtensions, ", ");
    var o :| OccursAt(joined, e, o);
    var prefix := "Invalid image file format. " + "Supported formats: ";
    OccursAfterPrefix(prefix, joined, e, o);
    assert Message(InvalidFormat) == prefix + joined;
  }

  lemma OccursAfterPrefix(prefix: string, s: string, w: string, o: int)
    requires OccursAt(s, w, o)
    ensures OccursAt(prefix + s, w, |prefix| + o)
  {
    assert (prefix + s)[|prefix| + o..|prefix| + o + |w|] == s[o..o + |w|];
  }

  /** The checks of `generateOGImage` on the picture path, in their order:
      existence, then the lower-cased extension against the allow-list. The
      result is the lower-cased extension. */
  function ValidatePicture(path: string, fileExists: bool): (r: Result<string, PictureError>)
    ensures !fileExists ==> r == Failure(DoesNotExist(path))
    ensures fileExists ==> (r.Success? <==> ToLower(Extname(path)) in ValidExtensions)
    ensures fileExists && r.Failure? ==> r.error == InvalidFormat
    ensures r.Success? ==> r.value in ValidExtensions && r.value == ToLower(Extname(path))
  {
    if !fileExists then Failure(DoesNotExist(path))
    else
      var ext := ToLower(Extname(path));
      if ext in ValidExtensions then Success(ext) else Failure(InvalidFormat)
  }

  /** A missing file is reported as missing whatever its extension: the
      format check is never reached. */
  lemma MissingBeforeFormat(p: string)
    ensures ValidatePicture(p, false) == Failure(DoesNotExist(p))
  {
  }

  /** An existing file `stem.x` is accepted exactly when `.x`, lower-cased,
      is on the allow-list; the case of `x` does not matter. */
  lemma AcceptedIff(stem: string, x: string)
    requires stem != "" && stem[|stem| - 1] != '/'
    requires x != ""
    requires forall j :: 0 <= j < |x| ==> x[j] != '.' && x[j] != '/'
    ensures ValidatePicture(stem + "." + x, true).Success? <==> "." + ToLower(x) in ValidExtensions
    ensures ValidatePicture(stem + "." + x, true).Success? ==>
              ValidatePicture(stem + "." + x, true).value == "." + ToLower(x)
  {
    ExtnameOfName(stem, x);
    LowerOfDotted(x);
  }

  lemma LowerOfDotted(x: string)
    ensures ToLower("." + x) == "." + ToLower(x)
  {
    assert forall j :: 0 < j < |x| + 1 ==> ("." + x)[j] == x[j - 1];
  }

  /** Each supported extension is a dot followed by lower-case letters. */
  lemma ExtensionShape(e: string)
    requires e in ValidExtensions
    ensures |e| >= 2 && e[0] == '.' && e == "." + e[1..]
    ensures forall j :: 1 <= j < |e| ==> 'a' <= e[j] <= 'z'
  {
    if e == ".png" {
    } else if e == ".jpg" {
    } else if e == ".jpeg" {
    } else if e == ".gif" {
    } else if e == ".bmp" {
    } else if e == ".webp" {
    } else {
      assert e == ".svg";
    }
  }

  /** Capital letters in an allowed extension are accepted: `photo.JPG`
      validates to `.jpg`. */
  lemma UpperCaseAccepted(stem: string, e: string)
    requires stem != "" && stem[|stem| - 1] != '/'
    requires e in ValidExtensions
    ensures ValidatePicture(stem + "." + ToUpper(e[1..]), true) == Success(e)
  {
    ExtensionShape(e);
    var x := e[1..];
    assert forall j :: 0 <= j < |x| ==> x[j] == e[j + 1];
    LowerOfUpper(x);
    AcceptedIff(stem, ToUpper(x));
  }

  // ---------------------------------------------------------------------
  // MIME type and data URL.

  /** JavaScript's `s.slice(1)`. */
  function Slice1(s: string): (r: string)
    ensures |s| == 0 ==> r == ""
    ensures |s| > 0 ==> |r| == |s| - 1 && forall j :: 0 <= j < |r| ==> r[j] == s[j + 1]
  {
    if |s| == 0 then "" else s[1..]
  }

  /** `image/` followed by the extension without its dot, `jpg` spelled
      `jpeg`. */
  function MimeType(ext: string): (r: string)
    ensures |r| >= 6 && r[..6] == "image/"
  {
    "image/" + (if Slice1(ext) == "jpg" then "jpeg" else Slice1(ext))
  }

  /** The MIME type of every supported extension; `.svg` gives `image/svg`,
      not `image/svg+xml`. */
  lemma MimeTable()
    ensures MimeType(".png") == "image/png"
    ensures MimeType(".jpg") == "image/jpeg"
    ensures MimeType(".jpeg") == "image/jpeg"
    ensures MimeType(".gif") == "image/gif"
    ensures MimeType(".bmp") == "image/bmp"
    ensures MimeType(".webp") == "image/webp"
    ensures MimeType(".svg") == "image/svg"
  {
  }

  /** Every supported extension `.x` gets `image/x`, except `.jpg`, which
      gets `image/jpeg`; none of these types contains ';'. */
  lemma MimeOfAccepted(e: string)
    requires e in ValidExtensions
    ensures MimeType(e) == "image/" + (if e == ".jpg" then "jpeg" else e[1..])
    ensures ';' !in MimeType(e)
  {
    ExtensionShape(e);
    var x := e[1..];
    assert Slice1(e) == x;
    assert forall j :: 0 <= j < |x| ==> x[j] == e[j + 1];
    assert x == "jpg" <==> e == ".jpg";
    LettersHaveNoSemicolon(x);
    LettersHaveNoSemicolon("jpeg");
  }

  /** `image/` followed by lower-case letters contains no ';'. */
  lemma LettersHaveNoSemicolon(x: string)
    requires forall j :: 0 <= j < |x| ==> 'a' <= x[j] <= 'z'
    ensures ';' !in "image/" + x
  {
    var m := "image/" + x;
    forall j | 0 <= j < |m| ensures m[j] != ';' {
      if j >= 6 {
        assert m[j] == x[j - 6];
      }
    }
  }

  /** The `data:` URL of a payload: `data:<mime>;base64,<payload>`. */
  function DataUrl(mime: string, payload: string): (u: string)
    ensures |u| == 13 + |mime| + |payload|
  {
    "data:" + mime + ";base64," + payload
  }

  /** The index of the first `c` in `s`, or `|s|`. */
  function IndexOf(s: string, c: char): (k: nat)
    ensures k <= |s|
    ensures k < |s| ==> s[k] == c
    ensures forall j :: 0 <= j < k ==> s[j] != c
  {
    if |s| == 0 then 0 else if s[0] == c then 0 else 1 + IndexOf(s[1..], c)
  }

  /** Reads a base64 `data:` URL (section 3 of RFC 2397) back into its media
      type and its payload. */
  function ParseDataUrl(u: string): Option<(string, string)> {
    if |u| < 5 || u[..5] != "data:" then None
    else
      var rest := u[5..];
      var k := IndexOf(rest, ';');
      if k + 8 <= |rest| && rest[k..k + 8] == ";base64," then Some((rest[..k], rest[k + 8..]))
      else None
  }

  /** The URL determines the MIME type and the payload it was built from. */
  lemma DataUrlRoundTrip(mime: string, payload: string)
    requires ';' !in mime
    ensures ParseDataUrl(DataUrl(mime, payload)) == Some((mime, payload))
  {
    var u := DataUrl(mime, payload);
    assert u[..5] == "data:";
    var rest := u[5..];
    assert rest == mime + ";base64," + payload;
    assert rest[|mime|] == ';';
    assert IndexOf(rest, ';') == |mime|;
    assert rest[|mime|..|mime| + 8] == ";base64,";
    assert rest[..|mime|] == mime;
    assert rest[|mime| + 8..] == payload;
  }

  /** Every URL the reader accepts is the URL of what it reads. */
  lemma ParseDataUrlSound(u: string)
    requires ParseDataUrl(u).Some?
    ensures ';' !in ParseDataUrl(u).value.0
    ensures DataUrl(ParseDataUrl(u).value.0, ParseDataUrl(u).value.1) == u
  {
    var rest := u[5..];
    var k := IndexOf(rest, ';');
    var mime, payload := rest[..k], rest[k + 8..];
    assert ParseDataUrl(u) == Some((mime, payload));
    assert u[..5] == "data:" && rest[k..k + 8] == ";base64,";
    Rejoin3(u, 5, 5 + k, 5 + k + 8);
    assert u == "data:" + mime + ";base64," + payload;
  }

  lemma Rejoin3(s: string, i: nat, j: nat, k: nat)
    requires i <= j <= k <= |s|
    ensures s == s[..i] + s[i..][..j - i] + s[j..k] + s[i..][k - i..]
  {
    assert s[i..][..j - i] == s[i..j];
    assert s[i..][k - i..] == s[k..];
  }
}
