/** The JavaScript string and array built-ins that the tree engine and the app
    rely on, written out with their ECMAScript meaning, and the facts about
    them that the engine's proofs need. */
module JsStrings {

  predicate SlashFree(s: string) {
    '/' !in s
  }

  /** `s.split('/')`: the pieces between slashes, empty pieces included;
      never an empty list. */
  function Split(s: string): (r: seq<string>)
    ensures |r| >= 1
    ensures forall i :: 0 <= i < |r| ==> SlashFree(r[i])
  {
    if |s| == 0 then [""]
    else
      var rest := Split(s[1..]);
      if s[0] == '/' then [""] + rest
      else [[s[0]] + rest[0]] + rest[1..]
  }

  /** `parts.join('/')`. */
  function Join(parts: seq<string>): string
  {
    if |parts| == 0 then ""
    else if |parts| == 1 then parts[0]
    else parts[0] + "/" + Join(parts[1..])
  }

  /** `parts.filter(p => p)`: drops the empty strings, keeps the rest in order. */
  function NonEmpty(parts: seq<string>): (r: seq<string>)
    ensures forall i :: 0 <= i < |r| ==> r[i] != "" && r[i] in parts
    ensures |r| <= |parts|
  {
    if |parts| == 0 then []
    else (if parts[0] == "" then [] else [parts[0]]) + NonEmpty(parts[1..])
  }

  /** `path.split('/').filter(p => p)`: the path's segments. */
  function Segments(path: string): (r: seq<string>)
    ensures forall i :: 0 <= i < |r| ==> r[i] != "" && SlashFree(r[i])
  {
    NonEmpty(Split(path))
  }

  /** Segments that no slash-joined path can tell apart from its own segments. */
  predicate ProperSegments(parts: seq<string>) {
    forall i :: 0 <= i < |parts| ==> parts[i] != "" && SlashFree(parts[i])
  }

  /** `sub` occurs in `s` at position `i`. */
  predicate OccursAt(s: string, sub: string, i: int) {
    0 <= i && i + |sub| <= |s| && s[i..i + |sub|] == sub
  }

  /** `s.indexOf(sub)`: the first position at which `sub` occurs in `s`, or -1. */
  function IndexOf(s: string, sub: string): (r: int)
    ensures r == -1 || OccursAt(s, sub, r)
    ensures r >= 0 ==> forall i :: 0 <= i < r ==> !OccursAt(s, sub, i)
    ensures r == -1 ==> forall i :: !OccursAt(s, sub, i)
  {
    IndexOfFrom(s, sub, 0)
  }

  function IndexOfFrom(s: string, sub: string, from: nat): (r: int)
    ensures r == -1 || (from <= r && OccursAt(s, sub, r))
    ensures r >= 0 ==> forall i :: from <= i < r ==> !OccursAt(s, sub, i)
    ensures r == -1 ==> forall i :: from <= i ==> !OccursAt(s, sub, i)
    decreases |s| - from
  {
    if from + |sub| > |s| then -1
    else if s[from..from + |sub|] == sub then from
    else IndexOfFrom(s, sub, from + 1)
  }

  /** `a.indexOf(x)` on an array: the first index holding `x`, or -1. */
  function FirstIndex<T(==)>(a: seq<T>, x: T): (r: int)
    ensures -1 <= r < |a|
    ensures r >= 0 ==> a[r] == x && forall j :: 0 <= j < r ==> a[j] != x
    ensures r == -1 <==> x !in a
  {
    if |a| == 0 then -1
    else if a[0] == x then 0
    else
      var k := FirstIndex(a[1..], x);
      if k == -1 then -1 else k + 1
  }

  function Clamp(k: int, len: nat): (r: nat)
    ensures r <= len
  {
    if k < 0 then 0 else if k > len then len else k
  }

  /** `s.substring(start, end)`: both bounds clamped to the string, swapped
      when the start lies after the end. */
  function Substring(s: string, start: int, end: int): (r: string)
    ensures |r| <= |s|
    ensures 0 <= start <= end <= |s| ==> r == s[start..end]
    ensures 0 <= end <= start <= |s| ==> r == s[end..start]
  {
    var a := Clamp(start, |s|);
    var b := Clamp(end, |s|);
    if a <= b then s[a..b] else s[b..a]
  }

  /** WhiteSpace and LineTerminator code points of ECMAScript, which
      `String.prototype.trim` removes. */
  predicate IsJsWhitespace(c: char) {
    || ('\U{9}' <= c <= '\U{D}') || c == ' ' || c == '\U{A0}' || c == '\U{1680}'
    || ('\U{2000}' <= c <= '\U{200A}') || c == '\U{2028}' || c == '\U{2029}'
    || c == '\U{202F}' || c == '\U{205F}' || c == '\U{3000}' || c == '\U{FEFF}'
  }

  function TrimStart(s: string): (r: string)
    ensures |r| <= |s| && r == s[|s| - |r|..]
    ensures |r| > 0 ==> !IsJsWhitespace(r[0])
  {
    if |s| > 0 && IsJsWhitespace(s[0]) then TrimStart(s[1..]) else s
  }

  function TrimEnd(s: string): (r: string)
    ensures |r| <= |s| && r == s[..|r|]
  {
    if |s| > 0 && IsJsWhitespace(s[|s| - 1]) then TrimEnd(s[..|s| - 1]) else s
  }

  /** `s.trim()`. */
  function Trim(s: string): string {
    TrimEnd(TrimStart(s))
  }

  predicate IsBlank(s: string) {
    forall i :: 0 <= i < |s| ==> IsJsWhitespace(s[i])
  }

  /** `arr.filter(p => p !== x)`. */
  function Without(a: seq<string>, x: string): (r: seq<string>)
    ensures x !in r
    ensures forall y :: y in r <==> y in a && y != x
    ensures |r| <= |a|
  {
    if |a| == 0 then []
    else (if a[0] == x then [] else [a[0]]) + Without(a[1..], x)
  }

  predicate NoDuplicates<T(==)>(a: seq<T>) {
    forall i, j :: 0 <= i < j < |a| ==> a[i] != a[j]
  }

  // ---------------------------------------------------------------------------
  // Split and Join

  /** Splitting around one slash splits the two sides independently. */
  lemma {:induction false} SplitAroundSlash(x: string, y: string)
    ensures Split(x + "/" + y) == Split(x) + Split(y)
    decreases |x|
  {
    var s := x + "/" + y;
    if |x| == 0 {
      assert s == "/" + y && s[1..] == y;
    } else {
      assert s[0] == x[0] && s[1..] == x[1..] + "/" + y;
      SplitAroundSlash(x[1..], y);
    }
  }

  lemma {:induction false} SplitSlashFree(x: string)
    requires SlashFree(x)
    ensures Split(x) == [x]
    decreases |x|
  {
    if |x| > 0 {
      SplitSlashFree(x[1..]);
      assert [x[0]] + x[1..] == x;
    }
  }

  /** Joining then splitting gives back slash-free pieces. */
  lemma {:induction false} SplitJoin(parts: seq<string>)
    requires |parts| >= 1
    requires forall i :: 0 <= i < |parts| ==> SlashFree(parts[i])
    ensures Split(Join(parts)) == parts
    decreases |parts|
  {
    if |parts| == 1 {
      SplitSlashFree(parts[0]);
    } else {
      SplitAroundSlash(parts[0], Join(parts[1..]));
      SplitSlashFree(parts[0]);
      SplitJoin(parts[1..]);
    }
  }

  /** Splitting then joining gives back the string. */
  lemma {:induction false} JoinSplit(s: string)
    ensures Join(Split(s)) == s
    decreases |s|
  {
    if |s| > 0 {
      var rest := Split(s[1..]);
      JoinSplit(s[1..]);
      if s[0] == '/' {
        assert Split(s) == [""] + rest;
        assert ([""] + rest)[1..] == rest;
        assert s == "/" + s[1..];
      } else {
        var head := [s[0]] + rest[0];
        assert Split(s) == [head] + rest[1..];
        if |rest| == 1 {
          assert s == [s[0]] + s[1..];
        } else {
          assert ([head] + rest[1..])[1..] == rest[1..];
          assert Join(rest) == rest[0] + "/" + Join(rest[1..]);
          assert s == [s[0]] + s[1..];
        }
      }
    }
  }

  // ---------------------------------------------------------------------------
  // Segments

  lemma {:induction false} NonEmptyAppend(a: seq<string>, b: seq<string>)
    ensures NonEmpty(a + b) == NonEmpty(a) + NonEmpty(b)
    decreases |a|
  {
    if |a| > 0 {
      assert (a + b)[1..] == a[1..] + b;
      NonEmptyAppend(a[1..], b);
    } else {
      assert a + b == b;
    }
  }

  lemma {:induction false} NonEmptyKeepsNonEmpty(parts: seq<string>)
    requires forall i :: 0 <= i < |parts| ==> parts[i] != ""
    ensures NonEmpty(parts) == parts
    decreases |parts|
  {
    if |parts| > 0 {
      NonEmptyKeepsNonEmpty(parts[1..]);
    }
  }

  /** Segments and Join are inverse on lists of proper segments. */
  lemma SegmentsOfJoin(parts: seq<string>)
    requires ProperSegments(parts)
    ensures Segments(Join(parts)) == parts
  {
    if |parts| > 0 {
      SplitJoin(parts);
      NonEmptyKeepsNonEmpty(parts);
    }
  }

  /** A leading slash does not change the segments. */
  lemma SegmentsLeadingSlash(s: string)
    ensures Segments("/" + s) == Segments(s)
  {
    var t := "/" + s;
    assert t[0] == '/' && t[1..] == s;
    assert Split(t) == [""] + Split(s);
    NonEmptyAppend([""], Split(s));
  }

  /** A trailing slash does not change the segments. */
  lemma SegmentsTrailingSlash(s: string)
    ensures Segments(s + "/") == Segments(s)
  {
    SplitAroundSlash(s, "");
    assert s + "/" == s + "/" + "";
    NonEmptyAppend(Split(s), [""]);
    assert Split(s) + [""] == Split(s + "/");
  }

  /** A doubled slash counts as one. */
  lemma SegmentsDoubledSlash(x: string, y: string)
    ensures Segments(x + "//" + y) == Segments(x + "/" + y)
  {
    assert x + "//" + y == x + "/" + ("/" + y);
    SplitAroundSlash(x, "/" + y);
    SplitAroundSlash(x, y);
    NonEmptyAppend(Split(x), Split("/" + y));
    NonEmptyAppend(Split(x), Split(y));
    SegmentsLeadingSlash(y);
  }

  /** A path has no segments exactly when it is made of slashes only. */
  lemma {:induction false} SegmentsEmptyIff(s: string)
    ensures Segments(s) == [] <==> forall i :: 0 <= i < |s| ==> s[i] == '/'
    decreases |s|
  {
    if |s| > 0 {
      SegmentsEmptyIff(s[1..]);
      assert s == [s[0]] + s[1..];
      var rest := Split(s[1..]);
      if s[0] == '/' {
        assert Split(s) == [""] + rest;
        NonEmptyAppend([""], rest);
      } else {
        assert Split(s)[0] != "";
        assert Segments(s) != [];
      }
    }
  }

  /** Number of slashes in front of the first segment. */
  function LeadingSlashes(s: string): (n: nat)
    ensures n <= |s|
    ensures forall i :: 0 <= i < n ==> s[i] == '/'
    ensures n < |s| ==> s[n] != '/'
  {
    if |s| > 0 && s[0] == '/' then 1 + LeadingSlashes(s[1..]) else 0
  }

  lemma {:induction false} SplitHeadIsPrefix(s: string)
    ensures |Split(s)[0]| <= |s| && s[..|Split(s)[0]|] == Split(s)[0]
    decreases |s|
  {
    if |s| > 0 {
      SplitHeadIsPrefix(s[1..]);
    }
  }

  /** The first segment starts right after the leading slashes. */
  lemma {:induction false} FirstSegmentPosition(s: string)
    requires |Segments(s)| > 0
    ensures var n, seg := LeadingSlashes(s), Segments(s)[0];
      n + |seg| <= |s| && s[n..n + |seg|] == seg
    decreases |s|
  {
    if s[0] == '/' {
      var t := s[1..];
      assert s == "/" + t;
      SegmentsLeadingSlash(t);
      FirstSegmentPosition(t);
      assert s[1..][LeadingSlashes(t)..LeadingSlashes(t) + |Segments(t)[0]|]
          == s[1 + LeadingSlashes(t)..1 + LeadingSlashes(t) + |Segments(t)[0]|];
    } else {
      var rest := Split(s[1..]);
      assert Split(s) == [[s[0]] + rest[0]] + rest[1..];
      assert Segments(s)[0] == Split(s)[0];
      SplitHeadIsPrefix(s);
    }
  }

  lemma {:induction false} IndexOfFromSkipsSlashes(s: string, sub: string, from: nat, n: nat)
    requires from <= n && n + |sub| <= |s| && s[n..n + |sub|] == sub
    requires |sub| > 0 && sub[0] != '/'
    requires forall i :: 0 <= i < n ==> s[i] == '/'
    ensures IndexOfFrom(s, sub, from) == n
    decreases n - from
  {
    if from < n {
      assert s[from..from + |sub|][0] == '/';
      IndexOfFromSkipsSlashes(s, sub, from + 1, n);
    }
  }

  /** `path.indexOf(seg)` for the first segment `seg` is the number of leading
      slashes: the first segment cannot occur inside them. */
  lemma IndexOfFirstSegment(s: string)
    requires |Segments(s)| > 0
    ensures IndexOf(s, Segments(s)[0]) == LeadingSlashes(s)
  {
    FirstSegmentPosition(s);
    IndexOfFromSkipsSlashes(s, Segments(s)[0], 0, LeadingSlashes(s));
  }

  // ---------------------------------------------------------------------------
  // Trim

  lemma {:induction false} TrimStartEmptyIff(s: string)
    ensures TrimStart(s) == "" <==> IsBlank(s)
    decreases |s|
  {
    if |s| > 0 && IsJsWhitespace(s[0]) {
      TrimStartEmptyIff(s[1..]);
      assert IsBlank(s) <==> IsBlank(s[1..]) by {
        if IsBlank(s[1..]) {
          forall i | 0 <= i < |s| ensures IsJsWhitespace(s[i]) {
            if i > 0 { assert s[i] == s[1..][i - 1]; }
          }
        }
      }
    }
  }

  lemma {:induction false} TrimEndNonEmpty(s: string)
    requires |s| > 0 && !IsJsWhitespace(s[0])
    ensures TrimEnd(s) != ""
    decreases |s|
  {
    if |s| > 1 && IsJsWhitespace(s[|s| - 1]) {
      TrimEndNonEmpty(s[..|s| - 1]);
    }
  }

  /** `!s.trim()` holds exactly for blank strings. */
  lemma TrimEmptyIff(s: string)
    ensures Trim(s) == "" <==> IsBlank(s)
  {
    TrimStartEmptyIff(s);
    var t := TrimStart(s);
    if t != "" {
      assert !IsJsWhitespace(t[0]);
      TrimEndNonEmpty(t);
    }
  }
}
