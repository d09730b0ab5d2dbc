/**
 * The .NET string operations the core calls, stated over `string` (`seq<char>`):
 * white space, trimming, ASCII case folding, prefix and suffix tests, `Split`,
 * `Join` and the ordinal `Replace`.
 */
module DotNetText {

  /** The characters `char.IsWhiteSpace` accepts: the controls U+0009..U+000D, U+0085,
      and the Unicode space, line and paragraph separators. */
  const WhiteSpaceChars: set<char> := {
    '\t', '\n', '\U{B}', '\U{C}', '\r', ' ', '\U{85}', '\U{A0}', '\U{1680}',
    '\U{2000}', '\U{2001}', '\U{2002}', '\U{2003}', '\U{2004}', '\U{2005}',
    '\U{2006}', '\U{2007}', '\U{2008}', '\U{2009}', '\U{200A}',
    '\U{2028}', '\U{2029}', '\U{202F}', '\U{205F}', '\U{3000}' }

  /** `char.IsWhiteSpace`. */
  predicate IsWhiteSpace(c: char) {
    c in WhiteSpaceChars
  }

  /** `string.IsNullOrWhiteSpace` for a non-null string: empty or white space only. */
  predicate IsBlank(s: string) {
    forall i :: 0 <= i < |s| ==> IsWhiteSpace(s[i])
  }

  /** The end of the white space run that starts at `i`. */
  function WhiteRunEnd(s: string, i: nat): (r: nat)
    requires i <= |s|
    ensures i <= r <= |s|
    ensures forall j :: i <= j < r ==> IsWhiteSpace(s[j])
    ensures r < |s| ==> !IsWhiteSpace(s[r])
    decreases |s| - i
  {
    if i < |s| && IsWhiteSpace(s[i]) then WhiteRunEnd(s, i + 1) else i
  }

  /** The start of the white space run that ends at `e`. */
  function WhiteRunStart(s: string, e: nat): (r: nat)
    requires e <= |s|
    ensures r <= e
    ensures forall j :: r <= j < e ==> IsWhiteSpace(s[j])
    ensures r > 0 ==> !IsWhiteSpace(s[r - 1])
    decreases e
  {
    if e > 0 && IsWhiteSpace(s[e - 1]) then WhiteRunStart(s, e - 1) else e
  }

  /** `TrimStart()`: drops the leading white space and nothing else. */
  function TrimStart(s: string): (r: string)
    ensures |r| <= |s| && r == s[|s| - |r|..]
    ensures forall i :: 0 <= i < |s| - |r| ==> IsWhiteSpace(s[i])
    ensures r != [] ==> !IsWhiteSpace(r[0])
  {
    s[WhiteRunEnd(s, 0)..]
  }

  /** `TrimEnd()`: drops the trailing white space and nothing else. */
  function TrimEnd(s: string): (r: string)
    ensures |r| <= |s| && r == s[..|r|]
    ensures forall i :: |r| <= i < |s| ==> IsWhiteSpace(s[i])
    ensures r != [] ==> !IsWhiteSpace(r[|r| - 1])
  {
    s[..WhiteRunStart(s, |s|)]
  }

  /** `Trim()`: white space removed from both ends. */
  function Trim(s: string): (r: string)
    ensures |r| <= |s| && IsTrimmed(r)
  {
    var a := TrimStart(s);
    var r := TrimEnd(a);
    if r != [] then assert r[0] == a[0]; r else r
  }

  /** A string with no white space at either end, as `Trim()` leaves it. */
  predicate IsTrimmed(s: string) {
    s != [] ==> !IsWhiteSpace(s[0]) && !IsWhiteSpace(s[|s| - 1])
  }

  /** `Trim()` keeps a contiguous run of the input, and what it drops is white space. */
  lemma {:induction false} TrimIsInnerRun(s: string)
    ensures IsTrimmed(Trim(s))
    ensures var k := |s| - |TrimStart(s)|;
      k + |Trim(s)| <= |s| &&
      (forall j :: 0 <= j < |Trim(s)| ==> Trim(s)[j] == s[k + j]) &&
      (forall j :: 0 <= j < k ==> IsWhiteSpace(s[j])) &&
      (forall j :: k + |Trim(s)| <= j < |s| ==> IsWhiteSpace(s[j]))
    ensures Trim(s) == [] <==> IsBlank(s)
  {
    TrimKeepsRun(s);
    TrimEmptyIffBlank(s);
  }

  lemma {:induction false} TrimKeepsRun(s: string)
    ensures var k := |s| - |TrimStart(s)|;
      k + |Trim(s)| <= |s| &&
      (forall j :: 0 <= j < |Trim(s)| ==> Trim(s)[j] == s[k + j]) &&
      (forall j :: 0 <= j < k ==> IsWhiteSpace(s[j])) &&
      (forall j :: k + |Trim(s)| <= j < |s| ==> IsWhiteSpace(s[j]))
  {
    var a := TrimStart(s);
    var r := TrimEnd(a);
    InnerSlice(s, a, r);
    assert Trim(s) == r;
  }

  /** A prefix `r` of a suffix `a` of `s` is a run of `s`, and what follows `r` in `a`
      follows it in `s`. */
  lemma {:induction false} InnerSlice(s: string, a: string, r: string)
    requires |a| <= |s| && a == s[|s| - |a|..]
    requires |r| <= |a| && r == a[..|r|]
    requires forall i :: |r| <= i < |a| ==> IsWhiteSpace(a[i])
    ensures var k := |s| - |a|;
      k + |r| <= |s| &&
      (forall j :: 0 <= j < |r| ==> r[j] == s[k + j]) &&
      forall j :: k + |r| <= j < |s| ==> IsWhiteSpace(s[j])
  {
    var k := |s| - |a|;
    forall j | k + |r| <= j < |s| ensures IsWhiteSpace(s[j]) {
      assert s[j] == a[j - k];
    }
  }

  lemma {:induction false} TrimEmptyIffBlank(s: string)
    ensures Trim(s) == [] <==> IsBlank(s)
  {
    var a := TrimStart(s);
    var r := TrimEnd(a);
    var i := |s| - |a|;
    if r != [] {
      assert r[0] == a[0] == s[i];
      assert !IsWhiteSpace(s[i]);
    }
  }

  /** A string without white space at its ends is its own trimmed form. */
  lemma {:induction false} TrimTrimmed(s: string)
    requires IsTrimmed(s)
    ensures Trim(s) == s
  {
  }

  /** ASCII lower-casing of one character. */
  function LowerChar(c: char): char {
    if 'A' <= c <= 'Z' then (c as int + 32) as char else c
  }

  /** ASCII lower-casing of a string. */
  function ToLowerAscii(s: string): (r: string)
    ensures |r| == |s|
    ensures forall i :: 0 <= i < |s| ==> r[i] == LowerChar(s[i])
  {
    seq(|s|, i requires 0 <= i < |s| => LowerChar(s[i]))
  }

  /** Case-insensitive equality, with ASCII case folding. */
  predicate EqualsIgnoreCase(a: string, b: string)
    ensures EqualsIgnoreCase(a, b) ==> |a| == |b|
    ensures a == b ==> EqualsIgnoreCase(a, b)
  {
    ToLowerAscii(a) == ToLowerAscii(b)
  }

  /** Case-insensitive equality relates the strings position by position. */
  lemma {:induction false} EqualsIgnoreCaseAt(a: string, b: string)
    ensures EqualsIgnoreCase(a, b) <==>
      |a| == |b| && forall i :: 0 <= i < |a| ==> LowerChar(a[i]) == LowerChar(b[i])
  {
    if |a| == |b| && forall i :: 0 <= i < |a| ==> LowerChar(a[i]) == LowerChar(b[i]) {
      assert forall i :: 0 <= i < |a| ==> ToLowerAscii(a)[i] == ToLowerAscii(b)[i];
    }
  }

  /** Ordinal `StartsWith`. */
  predicate StartsWith(s: string, prefix: string) {
    |prefix| <= |s| && s[..|prefix|] == prefix
  }

  /** Ordinal `EndsWith`. */
  predicate EndsWith(s: string, suffix: string) {
    |suffix| <= |s| && s[|s| - |suffix|..] == suffix
  }

  /** `s.Split(sep)`: the pieces between the separators, always at least one. */
  function Split(s: string, sep: char): (r: seq<string>)
    ensures |r| >= 1
    ensures forall i :: 0 <= i < |r| ==> sep !in r[i]
    decreases |s|
  {
    if s == [] then [""]
    else
      var rest := Split(s[1..], sep);
      if s[0] == sep then [""] + rest
      else [[s[0]] + rest[0]] + rest[1..]
  }

  /** `string.Join(sep, parts)`. */
  function Join(parts: seq<string>, sep: char): string
    decreases |parts|
  {
    if |parts| == 0 then ""
    else if |parts| == 1 then parts[0]
    else parts[0] + [sep] + Join(parts[1..], sep)
  }

  /** Joining the pieces of a split with the same separator gives back the string. */
  lemma {:induction false} JoinSplit(s: string, sep: char)
    ensures Join(Split(s, sep), sep) == s
    decreases |s|
  {
    if s != [] {
      var rest := Split(s[1..], sep);
      JoinSplit(s[1..], sep);
      if s[0] == sep {
        assert ([""] + rest)[1..] == rest;
        assert Join([""] + rest, sep) == [sep] + Join(rest, sep);
      } else {
        var parts := [[s[0]] + rest[0]] + rest[1..];
        if |rest| == 1 {
          assert Join(parts, sep) == [s[0]] + rest[0];
        } else {
          assert parts[1..] == rest[1..];
          assert Join(parts, sep) == [s[0]] + (rest[0] + [sep] + Join(rest[1..], sep));
        }
        assert s == [s[0]] + s[1..];
      }
    }
  }

  /** Splitting a prefix that holds no separator extends the first piece. */
  lemma {:induction false} SplitPrefix(w: string, rest: string, sep: char)
    requires sep !in w
    ensures Split(w + rest, sep) ==
      [w + Split(rest, sep)[0]] + Split(rest, sep)[1..]
    decreases |w|
  {
    if w != [] {
      SplitPrefix(w[1..], rest, sep);
      var parts := Split(rest, sep);
      var t := Split(w[1..] + rest, sep);
      assert t[0] == w[1..] + parts[0] && t[1..] == parts[1..];
      assert (w + rest)[1..] == w[1..] + rest;
      assert (w + rest)[0] == w[0] && w[0] != sep;
      assert Split(w + rest, sep) == [[w[0]] + t[0]] + t[1..];
      assert [w[0]] + (w[1..] + parts[0]) == ([w[0]] + w[1..]) + parts[0];
      assert [w[0]] + w[1..] == w;
    } else {
      var parts := Split(rest, sep);
      assert w + rest == rest;
      assert w + parts[0] == parts[0];
      assert parts == [parts[0]] + parts[1..];
    }
  }

  /** Splitting a join of separator-free pieces gives back the pieces. */
  lemma {:induction false} SplitJoin(parts: seq<string>, sep: char)
    requires |parts| >= 1
    requires forall i :: 0 <= i < |parts| ==> sep !in parts[i]
    ensures Split(Join(parts, sep), sep) == parts
    decreases |parts|
  {
    if |parts| == 1 {
      SplitPrefix(parts[0], "", sep);
      assert Split("", sep) == [""];
      assert parts[0] + "" == parts[0];
    } else {
      var tail := Join(parts[1..], sep);
      SplitJoin(parts[1..], sep);
      assert Join(parts, sep) == parts[0] + [sep] + tail;
      SplitCons(parts[0], tail, sep);
      assert parts == [parts[0]] + parts[1..];
    }
  }

  /** A separator-free first piece, a separator, then the rest: the first piece is the
      first part of the split. */
  lemma {:induction false} SplitCons(first: string, tail: string, sep: char)
    requires sep !in first
    ensures Split(first + [sep] + tail, sep) == [first] + Split(tail, sep)
  {
    assert Split([sep] + tail, sep) == [""] + Split(tail, sep) by {
      assert ([sep] + tail)[1..] == tail;
    }
    SplitPrefix(first, [sep] + tail, sep);
    var pieces := [""] + Split(tail, sep);
    assert pieces[0] == "" && pieces[1..] == Split(tail, sep);
    assert first + pieces[0] == first;
    assert first + [sep] + tail == first + ([sep] + tail);
  }

  /** `StringSplitOptions.RemoveEmptyEntries`: the non-empty pieces, in order. */
  function RemoveEmpty(parts: seq<string>): (r: seq<string>)
    ensures forall i :: 0 <= i < |r| ==> r[i] != ""
    ensures forall x :: x in r <==> x in parts && x != ""
    decreases |parts|
  {
    if parts == [] then []
    else if parts[0] == "" then RemoveEmpty(parts[1..])
    else [parts[0]] + RemoveEmpty(parts[1..])
  }

  /** A list without empty pieces loses nothing to `RemoveEmptyEntries`. */
  lemma {:induction false} RemoveEmptyKeepsNonEmpty(parts: seq<string>)
    requires forall i :: 0 <= i < |parts| ==> parts[i] != ""
    ensures RemoveEmpty(parts) == parts
    decreases |parts|
  {
    if parts != [] {
      RemoveEmptyKeepsNonEmpty(parts[1..]);
    }
  }

  /** `s.Split(sep, StringSplitOptions.RemoveEmptyEntries)`. */
  function SplitNonEmpty(s: string, sep: char): seq<string> {
    RemoveEmpty(Split(s, sep))
  }

  /** A string without the character `c`. */
  function Without(s: string, c: char): (r: string)
    ensures c !in r
    decreases |s|
  {
    if s == [] then [] else (if s[0] == c then [] else [s[0]]) + Without(s[1..], c)
  }

  /** All pieces glued without separators. */
  function Concat(parts: seq<string>): string
    decreases |parts|
  {
    if parts == [] then "" else parts[0] + Concat(parts[1..])
  }

  /** Concatenating the pieces of a split deletes exactly the separators. */
  lemma {:induction false} ConcatSplit(s: string, sep: char)
    ensures Concat(Split(s, sep)) == Without(s, sep)
    decreases |s|
  {
    if s != [] {
      var rest := Split(s[1..], sep);
      ConcatSplit(s[1..], sep);
      if s[0] == sep {
        assert ([""] + rest)[1..] == rest;
      } else {
        var parts := [[s[0]] + rest[0]] + rest[1..];
        assert parts[1..] == rest[1..];
        assert Concat(rest) == rest[0] + Concat(rest[1..]);
      }
    }
  }

  /** Dropping the empty pieces changes nothing once they are glued together. */
  lemma {:induction false} ConcatRemoveEmpty(parts: seq<string>)
    ensures Concat(RemoveEmpty(parts)) == Concat(parts)
    decreases |parts|
  {
    if parts != [] {
      ConcatRemoveEmpty(parts[1..]);
      if parts[0] == "" {
        assert Concat(parts) == Concat(parts[1..]);
      }
    }
  }

  /** Ordinal `s.Replace(from, to)`: a left-to-right scan replacing each
      non-overlapping occurrence of `from`. */
  function Replace(s: string, from: string, to: string): (r: string)
    requires |from| > 0
    ensures to == from ==> r == s
    ensures |to| <= |from| ==> |r| <= |s|
    decreases |s|
  {
    if |s| < |from| then s
    else if s[..|from|] == from then
      assert s == s[..|from|] + s[|from|..];
      to + Replace(s[|from|..], from, to)
    else
      assert s == [s[0]] + s[1..];
      [s[0]] + Replace(s[1..], from, to)
  }

  /** Replacing one character: each character is replaced on its own. */
  lemma {:induction false} ReplaceCharCons(x: char, s: string, c: char, to: string)
    ensures Replace([x] + s, [c], to) == (if x == c then to else [x]) + Replace(s, [c], to)
  {
    assert ([x] + s)[..1] == [x];
    assert ([x] + s)[1..] == s;
  }

  /** Replacing one character distributes over concatenation. */
  lemma {:induction false} ReplaceCharConcat(a: string, b: string, c: char, to: string)
    ensures Replace(a + b, [c], to) == Replace(a, [c], to) + Replace(b, [c], to)
    decreases |a|
  {
    if a != [] {
      ReplaceCharConcat(a[1..], b, c, to);
      ReplaceCharCons(a[0], a[1..] + b, c, to);
      ReplaceCharCons(a[0], a[1..], c, to);
      assert a + b == [a[0]] + (a[1..] + b);
      assert a == [a[0]] + a[1..];
    } else {
      assert a + b == b;
    }
  }

  /** Case-insensitive equality, one character at a time. */
  lemma {:induction false} EqualsIgnoreCaseCons(x: char, a: string, y: char, b: string)
    ensures EqualsIgnoreCase([x] + a, [y] + b) <==> LowerChar(x) == LowerChar(y) && EqualsIgnoreCase(a, b)
  {
    var xa, yb := [x] + a, [y] + b;
    EqualsIgnoreCaseAt(xa, yb);
    EqualsIgnoreCaseAt(a, b);
    assert forall i :: 0 <= i < |a| ==> xa[i + 1] == a[i];
    assert forall i :: 0 <= i < |b| ==> yb[i + 1] == b[i];
    if LowerChar(x) == LowerChar(y) && EqualsIgnoreCase(a, b) {
      forall i | 0 <= i < |xa| ensures LowerChar(xa[i]) == LowerChar(yb[i]) {
        if i > 0 { assert xa[i] == a[i - 1] && yb[i] == b[i - 1]; }
      }
    }
    if EqualsIgnoreCase(xa, yb) {
      assert LowerChar(xa[0]) == LowerChar(yb[0]);
      forall i | 0 <= i < |a| ensures LowerChar(a[i]) == LowerChar(b[i]) {
        assert LowerChar(xa[i + 1]) == LowerChar(yb[i + 1]);
      }
    }
  }

  /** Joining two non-empty lists of pieces puts one separator between them. */
  lemma {:induction false} JoinAppend(a: seq<string>, b: seq<string>, sep: char)
    requires |a| >= 1 && |b| >= 1
    ensures Join(a + b, sep) == Join(a, sep) + [sep] + Join(b, sep)
    decreases |a|
  {
    if |a| == 1 {
      assert (a + b)[1..] == b;
    } else {
      JoinAppend(a[1..], b, sep);
      assert (a + b)[1..] == a[1..] + b;
    }
  }

  /** Splitting at one separator more splits the two sides separately. */
  lemma {:induction false} SplitAppend(a: string, b: string, sep: char)
    ensures Split(a + [sep] + b, sep) == Split(a, sep) + Split(b, sep)
  {
    var pa, pb := Split(a, sep), Split(b, sep);
    JoinSplit(a, sep);
    JoinSplit(b, sep);
    JoinAppend(pa, pb, sep);
    SplitJoin(pa + pb, sep);
  }

  /** The characters `bool.TryParse` trims from both ends: white space and NUL. */
  predicate IsWhiteSpaceOrNull(c: char) {
    IsWhiteSpace(c) || c == '\0'
  }

  /** The first position at or after `i` that holds neither white space nor NUL. */
  function SkipWhiteOrNull(s: string, i: nat): (r: nat)
    requires i <= |s|
    ensures i <= r <= |s|
    ensures forall j :: i <= j < r ==> IsWhiteSpaceOrNull(s[j])
    ensures r < |s| ==> !IsWhiteSpaceOrNull(s[r])
    decreases |s| - i
  {
    if i < |s| && IsWhiteSpaceOrNull(s[i]) then SkipWhiteOrNull(s, i + 1) else i
  }

  /** The start of the run of white space and NUL that ends at `e`, not going below `lo`. */
  function BackWhiteOrNull(s: string, lo: nat, e: nat): (r: nat)
    requires lo <= e <= |s|
    ensures lo <= r <= e
    ensures forall j :: r <= j < e ==> IsWhiteSpaceOrNull(s[j])
    ensures r > lo ==> !IsWhiteSpaceOrNull(s[r - 1])
    decreases e
  {
    if e > lo && IsWhiteSpaceOrNull(s[e - 1]) then BackWhiteOrNull(s, lo, e - 1) else e
  }

  /** Drops white space and NUL characters from both ends. */
  function TrimWhiteSpaceAndNull(s: string): (r: string)
    ensures |r| <= |s|
    ensures r != [] ==> !IsWhiteSpaceOrNull(r[0]) && !IsWhiteSpaceOrNull(r[|r| - 1])
    ensures (forall i :: 0 <= i < |s| ==> !IsWhiteSpaceOrNull(s[i])) ==> r == s
  {
    var start := SkipWhiteOrNull(s, 0);
    s[start..BackWhiteOrNull(s, start, |s|)]
  }
}
