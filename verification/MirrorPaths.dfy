/** Mirror paths: reviewed URL paths, relative artifact paths and the catalog directories of a mirror tree. */
module MirrorPaths {
  import opened Prelude
  import opened Ordering
  import opened IdentifierText

  const SLASH := '/'

  /* ---------- Splitting at slashes ---------- */

  /** The position of the first slash, or the length. */
  function FirstSlash(s: string): (k: nat)
    ensures k <= |s| && SLASH !in s[..k]
    ensures k < |s| ==> s[k] == SLASH
  {
    if |s| == 0 || s[0] == SLASH then 0
    else
      assert s[..1 + FirstSlash(s[1..])] == [s[0]] + s[1..][..FirstSlash(s[1..])];
      1 + FirstSlash(s[1..])
  }

  /** `split("/")` */
  function Segments(s: string): (segments: seq<string>)
    ensures |segments| > 0
  {
    var k := FirstSlash(s);
    if k == |s| then [s] else [s[..k]] + Segments(s[k + 1..])
  }

  lemma {:induction false} FirstSlashIs(s: string, k: nat)
    requires k <= |s| && SLASH !in s[..k] && (k < |s| ==> s[k] == SLASH)
    ensures FirstSlash(s) == k
  {
    if k > 0 {
      assert s[0] in s[..k];
      assert s[1..][..k - 1] == s[..k][1..];
      FirstSlashIs(s[1..], k - 1);
    }
  }

  lemma SegmentsOne(s: string)
    requires SLASH !in s
    ensures Segments(s) == [s]
  {
    assert s[..|s|] == s;
    FirstSlashIs(s, |s|);
  }

  lemma SegmentsMore(segment: string, rest: string)
    requires SLASH !in segment
    ensures Segments(segment + [SLASH] + rest) == [segment] + Segments(rest)
  {
    var s := segment + [SLASH] + rest;
    assert s[..|segment|] == segment && s[|segment| + 1..] == rest;
    FirstSlashIs(s, |segment|);
  }

  lemma {:induction false} SegmentsAppend(a: string, b: string)
    ensures Segments(a + [SLASH] + b) == Segments(a) + Segments(b)
  {
    hide Segments;
    var k := FirstSlash(a);
    if k == |a| {
      assert a[..|a|] == a;
      SegmentsOne(a);
      SegmentsMore(a, b);
    } else {
      var first, rest := a[..k], a[k + 1..];
      assert a == first + [SLASH] + rest;
      SegmentsAppend(rest, b);
      SegmentsMore(first, rest);
      SegmentsMore(first, rest + [SLASH] + b);
      assert a + [SLASH] + b == first + [SLASH] + (rest + [SLASH] + b);
    }
  }

  /** `rsplit("/", 1)`: the text before the last slash, and after it. */
  function Parent(s: string): string {
    if |s| == 0 then "" else if s[|s| - 1] == SLASH then s[..|s| - 1] else Parent(s[..|s| - 1])
  }

  function Name(s: string): string {
    if |s| == 0 || s[|s| - 1] == SLASH then "" else Name(s[..|s| - 1]) + [s[|s| - 1]]
  }

  lemma {:induction false} ParentAndName(s: string)
    ensures SLASH in s ==> s == Parent(s) + [SLASH] + Name(s)
    ensures SLASH !in Name(s)
    ensures SLASH !in s ==> Name(s) == s
  {
    if |s| > 0 && s[|s| - 1] != SLASH {
      var front := s[..|s| - 1];
      ParentAndName(front);
      assert s == front + [s[|s| - 1]];
      if SLASH in s {
        assert SLASH in front;
      }
    }
  }

  lemma {:induction false} NameAppend(a: string, name: string)
    requires SLASH !in name
    ensures Parent(a + [SLASH] + name) == a && Name(a + [SLASH] + name) == name
  {
    var s := a + [SLASH] + name;
    if |name| == 0 {
      assert s[..|s| - 1] == a;
    } else {
      NameAppend(a, name[..|name| - 1]);
      assert s[..|s| - 1] == a + [SLASH] + name[..|name| - 1];
      assert s[|s| - 1] == name[|name| - 1] != SLASH;
    }
  }

  /* ---------- The validators ---------- */

  /** ASCII, neither a control character nor blank. */
  predicate Graphic(c: char) {
    0x21 <= c as int <= 0x7E
  }

  predicate IsDots(segment: string) {
    segment == "." || segment == ".."
  }

  predicate HasDoubleSlash(s: string) {
    exists i :: 0 <= i < |s| - 1 && s[i] == SLASH && s[i + 1] == SLASH
  }

  predicate ValidRelativePath(s: string) {
    && 0 < |s| <= 500
    && s[0] != SLASH && s[|s| - 1] != SLASH && !HasDoubleSlash(s)
    && (forall c :: c in s ==> Graphic(c) && c !in {'\\', '%', '?', '#'})
    && (forall segment :: segment in Segments(s) ==> segment != "" && !IsDots(segment))
  }

  /** The part after the first `mark`, which URL splitting takes as query or fragment. */
  function After(s: string, mark: char): string {
    if |s| == 0 then "" else if s[0] == mark then s[1..] else After(s[1..], mark)
  }

  function UpTo(s: string, mark: char): string {
    if |s| == 0 || s[0] == mark then "" else [s[0]] + UpTo(s[1..], mark)
  }

  /** A path that starts with one slash has neither scheme nor host. */
  predicate ValidFeedPath(s: string) {
    && (forall c :: c in s ==> Graphic(c) && c !in {'\\', '%'})
    && |s| > 0 && s[0] == SLASH && !(|s| > 1 && s[1] == SLASH)
    && After(s, '#') == "" && After(UpTo(s, '#'), '?') == ""
    && (forall segment :: segment in Segments(s) ==> !IsDots(segment))
  }

  predicate ValidLayout(indexPath: string, signaturePath: string) {
    && ValidFeedPath(indexPath) && ValidFeedPath(signaturePath)
    && Parent(indexPath) == Parent(signaturePath)
    && Name(indexPath) == "index.json" && Name(signaturePath) == "index.ed25519"
  }

  function ArtifactPath(indexPath: string, relative: string): string {
    if |Parent(indexPath)| > 0 then Parent(indexPath) + "/" + relative else "/" + relative
  }

  /* ---------- Removing dot segments (RFC 3986, section 5.2.4) ---------- */

  /** The output buffer without its last segment and the slash before it. */
  function WithoutLast(output: string): string {
    if |output| == 0 then "" else if output[|output| - 1] == SLASH then output[..|output| - 1] else WithoutLast(output[..|output| - 1])
  }

  /** One round of the algorithm, on the input and output buffers. */
  function DotStep(input: string, output: string): (next: (string, string))
    requires |input| > 0
    ensures |next.0| < |input|
  {
    if "../" <= input then (input[3..], output)
    else if "./" <= input then (input[2..], output)
    else if "/./" <= input then (input[2..], output)
    else if input == "/." then ("/", output)
    else if "/../" <= input then (input[3..], WithoutLast(output))
    else if input == "/.." then ("/", WithoutLast(output))
    else if IsDots(input) then ("", output)
    else
      var start := if input[0] == SLASH then 1 else 0;
      var k := start + FirstSlash(input[start..]);
      (input[k..], output + input[..k])
  }

  function RemoveDotSegments(input: string, output: string): string
    decreases |input|
  {
    if |input| == 0 then output
    else
      var (rest, longer) := DotStep(input, output);
      RemoveDotSegments(rest, longer)
  }

  lemma SplitAt(rest: string, k: nat)
    requires k < |rest| && rest[k] == SLASH
    ensures rest == rest[..k] + [SLASH] + rest[k + 1..]
  {
  }

  lemma FirstSegment(rest: string)
    ensures Segments(rest)[0] == rest[..FirstSlash(rest)]
    ensures FirstSlash(rest) < |rest| ==> Segments(rest) == [rest[..FirstSlash(rest)]] + Segments(rest[FirstSlash(rest) + 1..])
  {
    hide Segments, FirstSlash;
    var k := FirstSlash(rest);
    if k == |rest| {
      assert rest[..k] == rest;
      SegmentsOne(rest);
    } else {
      SplitAt(rest, k);
      SegmentsMore(rest[..k], rest[k + 1..]);
    }
  }

  /** Where a rule for dot segments applies, the first segment is made of dots. */
  lemma DottedStart(rest: string)
    ensures
      var input := [SLASH] + rest;
      "/./" <= input || input == "/." || "/../" <= input || input == "/.." ==> IsDots(rest[..FirstSlash(rest)])
  {
    var input := [SLASH] + rest;
    assert forall i :: 0 <= i < |rest| ==> rest[i] == input[i + 1];
    if "/./" <= input || input == "/." {
      assert input[1] == '.' && rest[..1] == ".";
      FirstSlashIs(rest, 1);
    } else if "/../" <= input || input == "/.." {
      assert input[1] == '.' && input[2] == '.' && rest[..2] == "..";
      FirstSlashIs(rest, 2);
    }
  }

  lemma StartsWithSlash(rest: string)
    ensures
      var input := [SLASH] + rest;
      input[0] == SLASH && !("../" <= input) && !("./" <= input) && !IsDots(input)
  {
    var input := [SLASH] + rest;
    assert input[0] == SLASH && "../"[0] == "./"[0] == '.';
  }

  /** An ordinary first segment moves to the output. */
  lemma MoveSegment(rest: string, output: string)
    requires !IsDots(rest[..FirstSlash(rest)])
    ensures
      var k := FirstSlash(rest);
      DotStep([SLASH] + rest, output) == (rest[k..], output + [SLASH] + rest[..k])
  {
    var input, k := [SLASH] + rest, FirstSlash(rest);
    DottedStart(rest);
    StartsWithSlash(rest);
    hide WithoutLast, FirstSlash, IsDots;
    assert input[1..] == rest;
    assert input[1 + k..] == rest[k..];
    assert output + input[..1 + k] == output + [SLASH] + rest[..k];
  }

  lemma NothingLeft(output: string)
    ensures RemoveDotSegments("", output) == output
  {
  }

  /** An absolute path without dot segments is left as it is. */
  lemma {:induction false} NothingToRemove(rest: string, output: string)
    requires forall segment :: segment in Segments(rest) ==> !IsDots(segment)
    ensures RemoveDotSegments([SLASH] + rest, output) == output + [SLASH] + rest
    decreases |rest|
  {
    hide DotStep, Segments, FirstSlash, IsDots;
    var k := FirstSlash(rest);
    FirstSegment(rest);
    MoveSegment(rest, output);
    if k < |rest| {
      var next := rest[k + 1..];
      assert rest[k..] == [SLASH] + next;
      NothingToRemove(next, output + [SLASH] + rest[..k]);
      assert output + [SLASH] + rest[..k] + [SLASH] + next == output + [SLASH] + rest;
    } else {
      assert rest[k..] == "" && rest[..k] == rest;
      NothingLeft(output + [SLASH] + rest);
    }
  }

  /* ---------- Artifact paths ---------- */

  lemma {:induction false} NoMark(s: string, mark: char)
    requires mark !in s
    ensures After(s, mark) == "" && UpTo(s, mark) == s
  {
    if |s| > 0 {
      NoMark(s[1..], mark);
    }
  }

  lemma {:induction false} MarkLeaves(s: string, name: string, mark: char)
    requires mark in s && |name| > 0
    ensures After(s + name, mark) != ""
  {
    if s[0] == mark {
      assert (s + name)[1..] == s[1..] + name;
    } else {
      assert s == [s[0]] + s[1..];
      assert (s + name)[1..] == s[1..] + name;
      MarkLeaves(s[1..], name, mark);
    }
  }

  lemma {:induction false} MarkIn(s: string, mark: char)
    ensures After(s, mark) != "" ==> mark in s
  {
    if |s| > 0 && s[0] != mark {
      MarkIn(s[1..], mark);
    }
  }

  ghost predicate PlainDirectory(parent: string) {
    && (forall c :: c in parent ==> Graphic(c) && c !in {'\\', '%', '?', '#'})
    && (forall segment :: segment in Segments(parent) ==> !IsDots(segment))
    && (|parent| > 0 ==> parent[0] == SLASH && parent != "/" && parent[1] != SLASH)
  }

  /** A query or fragment mark in the directory would be followed by the file name. */
  lemma {:induction false} NoMarkInParent(parent: string, name: string)
    requires |name| > 0 && '#' !in name && '?' !in name
    requires After(parent + name, '#') == "" && After(UpTo(parent + name, '#'), '?') == ""
    ensures '#' !in parent && '?' !in parent
  {
    if '#' in parent {
      MarkLeaves(parent, name, '#');
    } else {
      NoMark(parent + name, '#');
      if '?' in parent {
        MarkLeaves(parent, name, '?');
      }
    }
  }

  lemma LayoutParent(indexPath: string, signaturePath: string)
    requires ValidLayout(indexPath, signaturePath)
    ensures PlainDirectory(Parent(indexPath)) && indexPath == Parent(indexPath) + "/index.json"
  {
    hide Segments, After, UpTo, Parent, Name;
    var parent := Parent(indexPath);
    ParentAndName(indexPath);
    assert SLASH in indexPath;
    assert indexPath == parent + [SLASH] + "index.json" == parent + "/index.json";
    SegmentsAppend(parent, "index.json");
    NoMarkInParent(parent, "/index.json");
    assert forall segment :: segment in Segments(parent) ==> segment in Segments(indexPath);
    assert forall i :: 0 <= i < |parent| ==> parent[i] == indexPath[i];
    assert forall c :: c in parent ==> c in indexPath && c != '#' && c != '?';
    assert |parent| > 0 ==> indexPath[1] == if |parent| > 1 then parent[1] else SLASH;
  }

  /** Every valid relative path names, from every reviewed layout, a reviewed URL path below the directory of the
      index: no query, fragment, escape or dot segment, unchanged by dot-segment removal. */
  lemma ArtifactStaysBelow(indexPath: string, signaturePath: string, relative: string)
    requires ValidLayout(indexPath, signaturePath) && ValidRelativePath(relative)
    ensures
      var path := ArtifactPath(indexPath, relative);
      && path == Parent(indexPath) + "/" + relative
      && ValidFeedPath(path)
      && RemoveDotSegments(path, "") == path
  {
    hide Segments, After, UpTo, Parent, Name, RemoveDotSegments, IsDots;
    var parent, path := Parent(indexPath), ArtifactPath(indexPath, relative);
    LayoutParent(indexPath, signaturePath);
    assert path == parent + [SLASH] + relative;
    SegmentsAppend(parent, relative);
    assert forall c :: c in path ==> c in parent || c == SLASH || c in relative;
    NoMark(path, '#');
    NoMark(path, '?');
    assert path[0] == SLASH && path[1] == if |parent| > 0 then parent[1] else relative[0];
    var rest := path[1..];
    assert path == [SLASH] + rest == "" + [SLASH] + rest;
    SegmentsAppend("", rest);
    assert forall segment :: segment in Segments(rest) ==> segment in Segments(path);
    NothingToRemove(rest, "");
  }

  /** Different relative paths name different artifacts. */
  lemma ArtifactIsInjective(indexPath: string, a: string, b: string)
    requires ArtifactPath(indexPath, a) == ArtifactPath(indexPath, b)
    ensures a == b
  {
    var p, q := ArtifactPath(indexPath, a), ArtifactPath(indexPath, b);
    var n := if |Parent(indexPath)| > 0 then |Parent(indexPath)| + 1 else 1;
    assert p[n..] == a && q[n..] == b;
  }

  /* ---------- Catalog directories ---------- */

  /** The decimal text of `n`, padded with zeros to at least `width` digits. */
  function Padded(n: nat, width: nat): string {
    Zeros(width - |Decimal(n)|) + Decimal(n)
  }

  function Zeros(n: int): (s: string)
    ensures |s| == Max(n, 0) && forall i :: 0 <= i < |s| ==> s[i] == '0'
  {
    if n <= 0 then "" else Zeros(n - 1) + "0"
  }

  /** Exactly `width` digits, the last of them the units. */
  function Digits(n: nat, width: nat): (s: string)
    ensures |s| == width && forall i :: 0 <= i < |s| ==> '0' <= s[i] <= '9'
  {
    if width == 0 then "" else Digits(n / 10, width - 1) + [Digit(n % 10)]
  }

  function Power10(k: nat): nat {
    if k == 0 then 1 else 10 * Power10(k - 1)
  }

  lemma {:induction false} ZeroDigits(width: nat)
    ensures Digits(0, width) == Zeros(width)
  {
    if width > 0 {
      ZeroDigits(width - 1);
    }
  }

  lemma PowerStep(n: nat, width: nat)
    requires width > 0 && n < Power10(width)
    ensures n / 10 < Power10(width - 1) && (n >= 10 ==> width > 1)
  {
    assert Power10(width) == 10 * Power10(width - 1);
    assert Power10(0) == 1;
  }

  lemma {:induction false} PaddedIsDigits(n: nat, width: nat)
    requires width > 0 && n < Power10(width)
    ensures |Decimal(n)| <= width && Padded(n, width) == Digits(n, width)
  {
    PowerStep(n, width);
    hide Power10;
    if n < 10 {
      assert n / 10 == 0 && n % 10 == n;
      ZeroDigits(width - 1);
    } else {
      PaddedIsDigits(n / 10, width - 1);
      assert Padded(n, width) == Zeros(width - 1 - |Decimal(n / 10)|) + Decimal(n / 10) + [Digit(n % 10)];
    }
  }

  lemma {:induction false} TextLessLast(a: string, b: string, c: char, d: char)
    requires |a| == |b|
    ensures TextLess(a + [c], b + [d]) <==> TextLess(a, b) || (a == b && c < d)
  {
    if |a| == 0 {
      assert a + [c] == [c] && b + [d] == [d];
    } else {
      TextLessLast(a[1..], b[1..], c, d);
      assert (a + [c])[1..] == a[1..] + [c] && (b + [d])[1..] == b[1..] + [d];
      assert a == [a[0]] + a[1..] && b == [b[0]] + b[1..];
      assert a == b <==> a[0] == b[0] && a[1..] == b[1..];
    }
  }

  /** Texts of one width are ordered as their numbers. */
  lemma {:induction false} DigitsAreOrdered(m: nat, n: nat, width: nat)
    requires m < Power10(width) && n < Power10(width)
    ensures TextLess(Digits(m, width), Digits(n, width)) <==> m < n
    ensures Digits(m, width) == Digits(n, width) <==> m == n
  {
    if width > 0 {
      var a, b := Digits(m / 10, width - 1), Digits(n / 10, width - 1);
      DigitsAreOrdered(m / 10, n / 10, width - 1);
      TextLessLast(a, b, Digit(m % 10), Digit(n % 10));
      assert (a + [Digit(m % 10)])[..width - 1] == a && (b + [Digit(n % 10)])[..width - 1] == b;
      assert (a + [Digit(m % 10)])[width - 1] == Digit(m % 10) && (b + [Digit(n % 10)])[width - 1] == Digit(n % 10);
    }
  }

  const MAX_SEQUENCE := 9_223_372_036_854_775_807

  lemma TwentyDigits()
    ensures MAX_SEQUENCE < Power10(20)
  {
    assert Power10(5) == 100_000 by {
      assert Power10(2) == 100;
    }
    assert Power10(10) == 100_000 * 100_000 by {
      assert Power10(7) == 100 * 100_000;
    }
    assert Power10(15) == 100_000 * 100_000 * 100_000 by {
      assert Power10(12) == 100 * (100_000 * 100_000);
    }
    assert Power10(17) == 100 * (100_000 * 100_000 * 100_000);
  }

  /** Over the whole allowed range, padded sequences have twenty digits and are distinct and ordered as the
      sequences are. */
  lemma PaddedSequences(m: nat, n: nat)
    requires m <= MAX_SEQUENCE && n <= MAX_SEQUENCE
    ensures |Padded(m, 20)| == 20
    ensures TextLess(Padded(m, 20), Padded(n, 20)) <==> m < n
    ensures Padded(m, 20) == Padded(n, 20) <==> m == n
  {
    TwentyDigits();
    PaddedIsDigits(m, 20);
    PaddedIsDigits(n, 20);
    DigitsAreOrdered(m, n, 20);
  }

  /** `catalogs/{sequence:020d}-{digest[:16]}` */
  function DirectoryFor(sequence: nat, digest: string): string {
    "catalogs/" + (Padded(sequence, 20) + "-" + (if |digest| <= 16 then digest else digest[..16]))
  }

  predicate IsHex(digest: string) {
    |digest| == 64 && forall c :: c in digest ==> '0' <= c <= '9' || 'a' <= c <= 'f'
  }

  predicate NameCharacter(c: char) {
    '0' <= c <= '9' || 'A' <= c <= 'Z' || 'a' <= c <= 'z' || c == '.' || c == '_' || c == '-'
  }

  /** The reviewed pattern of payload names. */
  predicate ValidName(name: string) {
    && 2 <= |name| <= 128 && name[0] !in {'.', '_', '-'}
    && forall c :: c in name ==> NameCharacter(c)
  }

  lemma NoDoubleSlash(a: string, b: string)
    requires |a| > 0 && |b| > 0 && a[|a| - 1] != SLASH && b[0] != SLASH && !HasDoubleSlash(a) && !HasDoubleSlash(b)
    ensures !HasDoubleSlash(a + [SLASH] + b)
  {
    var s := a + [SLASH] + b;
    forall i | 0 <= i < |s| - 1 ensures !(s[i] == SLASH && s[i + 1] == SLASH) {
      if i < |a| - 1 {
        assert s[i] == a[i] && s[i + 1] == a[i + 1];
      } else if i > |a| {
        assert s[i] == b[i - |a| - 1] && s[i + 1] == b[i - |a|];
      }
    }
  }

  /** A nonempty run of name characters that is not made of dots is one path segment. */
  lemma PlainSegment(s: string)
    requires 0 < |s| <= 200 && !IsDots(s) && forall c :: c in s ==> NameCharacter(c)
    ensures ValidRelativePath(s) && Segments(s) == [s]
  {
    assert SLASH !in s;
    SegmentsOne(s);
    assert forall i :: 0 <= i < |s| ==> s[i] in s;
  }

  lemma JoinPaths(a: string, b: string)
    requires ValidRelativePath(a) && ValidRelativePath(b) && |a| + |b| < 500
    ensures ValidRelativePath(a + [SLASH] + b)
  {
    hide Segments, HasDoubleSlash, IsDots;
    SegmentsAppend(a, b);
    NoDoubleSlash(a, b);
  }

  /** The part of a directory after `catalogs/`. */
  lemma DirectorySegment(sequence: nat, digest: string)
    requires sequence <= MAX_SEQUENCE && IsHex(digest)
    ensures
      var leaf := Padded(sequence, 20) + "-" + digest[..16];
      |leaf| == 37 && !IsDots(leaf) && forall c :: c in leaf ==> NameCharacter(c)
  {
    PaddedSequences(sequence, sequence);
    TwentyDigits();
    PaddedIsDigits(sequence, 20);
    var leaf := Padded(sequence, 20) + "-" + digest[..16];
    forall c | c in leaf ensures NameCharacter(c) {
      assert c in Padded(sequence, 20) || c == '-' || c in digest;
    }
  }

  /** A catalog directory with any valid name in it is a valid relative path, and splits back into the two. */
  lemma DirectoryPath(sequence: nat, digest: string, name: string)
    requires sequence <= MAX_SEQUENCE && IsHex(digest) && ValidName(name)
    ensures
      var path := DirectoryFor(sequence, digest) + "/" + name;
      ValidRelativePath(path) && Parent(path) == DirectoryFor(sequence, digest) && Name(path) == name
  {
    hide ValidRelativePath, Segments, Padded;
    var leaf := Padded(sequence, 20) + "-" + digest[..16];
    DirectorySegment(sequence, digest);
    PlainSegment("catalogs");
    PlainSegment(leaf);
    PlainSegment(name);
    JoinPaths("catalogs", leaf);
    JoinPaths("catalogs" + [SLASH] + leaf, name);
    assert DirectoryFor(sequence, digest) == "catalogs" + [SLASH] + leaf;
    assert SLASH !in name;
    NameAppend(DirectoryFor(sequence, digest), name);
  }

  lemma {:induction false} TextLessPrefix(p: string, a: string, b: string)
    ensures TextLess(p + a, p + b) <==> TextLess(a, b)
  {
    if |p| == 0 {
      assert p + a == a && p + b == b;
    } else {
      TextLessPrefix(p[1..], a, b);
      assert (p + a)[1..] == p[1..] + a && (p + b)[1..] == p[1..] + b;
    }
  }

  lemma {:induction false} TextLessDecided(a: string, b: string, x: string, y: string)
    requires |a| == |b| && a != b
    ensures TextLess(a + x, b + y) <==> TextLess(a, b)
  {
    assert a == [a[0]] + a[1..] && b == [b[0]] + b[1..];
    assert (a + x)[1..] == a[1..] + x && (b + y)[1..] == b[1..] + y;
    if a[0] == b[0] {
      TextLessDecided(a[1..], b[1..], x, y);
    }
  }

  function DirectorySuffix(digest: string): string {
    "-" + (if |digest| <= 16 then digest else digest[..16])
  }

  lemma DirectoryShape(sequence: nat, digest: string)
    ensures DirectoryFor(sequence, digest) == "catalogs/" + (Padded(sequence, 20) + DirectorySuffix(digest))
  {
    hide Padded;
  }

  lemma PrefixedDiffer(prefix: string, a: string, b: string)
    requires a != b
    ensures prefix + a != prefix + b
  {
    assert a == (prefix + a)[|prefix|..] && b == (prefix + b)[|prefix|..];
  }

  lemma ExtendedDiffer(a: string, b: string, x: string, y: string)
    requires |a| == |b| && a != b
    ensures a + x != b + y
  {
    assert a == (a + x)[..|a|] && b == (b + y)[..|b|];
  }

  /** Directories of different sequences differ, and sort as the sequences do. */
  lemma DirectoriesAreOrdered(m: nat, n: nat, d: string, e: string)
    requires m <= MAX_SEQUENCE && n <= MAX_SEQUENCE && m != n
    ensures DirectoryFor(m, d) != DirectoryFor(n, e)
    ensures TextLess(DirectoryFor(m, d), DirectoryFor(n, e)) <==> m < n
  {
    hide Padded, DirectoryFor, DirectorySuffix, TextLess;
    PaddedSequences(m, n);
    PaddedSequences(n, m);
    DirectoryShape(m, d);
    DirectoryShape(n, e);
    var x, y := DirectorySuffix(d), DirectorySuffix(e);
    ExtendedDiffer(Padded(m, 20), Padded(n, 20), x, y);
    PrefixedDiffer("catalogs/", Padded(m, 20) + x, Padded(n, 20) + y);
    TextLessPrefix("catalogs/", Padded(m, 20) + x, Padded(n, 20) + y);
    TextLessDecided(Padded(m, 20), Padded(n, 20), x, y);
  }
}
