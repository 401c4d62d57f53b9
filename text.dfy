/** ASCII models of the Python string operations the cleanup script relies on:
    str.lower, str.strip, str.split, str.join, str.startswith, the `in`
    substring test, `s.split(sep)[0]` and the decimal rendering of an int
    inside an f-string. Only ASCII letters are case-mapped and only ASCII
    whitespace is stripped. */
module Text {

  // ---------------------------------------------------------------------
  // Characters
  // ---------------------------------------------------------------------

  /** Python's str.isspace restricted to ASCII: space, \t \n \v \f \r and the
      four separators \x1c-\x1f. */
  predicate IsSpace(c: char) {
    c == ' ' || (9 <= c as int <= 13) || (28 <= c as int <= 31)
  }

  predicate IsUpper(c: char) {
    'A' <= c <= 'Z'
  }

  function LowerChar(c: char): (d: char)
    ensures !IsUpper(d)
    ensures IsUpper(c) ==> d as int == c as int + 32
    ensures !IsUpper(c) ==> d == c
  {
    if IsUpper(c) then (c as int + 32) as char else c
  }

  lemma LowerCharKeepsSpace(c: char)
    ensures IsSpace(LowerChar(c)) == IsSpace(c)
  {
  }

  // ---------------------------------------------------------------------
  // str.lower
  // ---------------------------------------------------------------------

  /** No ASCII upper-case letter occurs in `s`. */
  predicate IsLowered(s: string) {
    forall i :: 0 <= i < |s| ==> !IsUpper(s[i])
  }

  function Lower(s: string): (r: string)
    ensures |r| == |s|
    ensures forall i :: 0 <= i < |s| ==> r[i] == LowerChar(s[i])
  {
    seq(|s|, i requires 0 <= i < |s| => LowerChar(s[i]))
  }

  /** Lower-casing leaves no upper-case letter. */
  lemma LowerIsLowered(s: string)
    ensures IsLowered(Lower(s))
  {
  }

  /** Lower-casing introduces no character other than a lower-case letter. */
  lemma LowerKeepsAbsent(s: string, c: char)
    requires c !in s && !('a' <= c <= 'z')
    ensures c !in Lower(s)
  {
    forall i | 0 <= i < |s| ensures Lower(s)[i] != c {
      assert s[i] in s;
    }
  }

  /** Lower-casing twice is lower-casing once. */
  lemma LowerIdempotent(s: string)
    ensures Lower(Lower(s)) == Lower(s)
  {
  }

  /** A string without upper-case letters is its own lower-case form. */
  lemma LowerOfLowered(s: string)
    requires IsLowered(s)
    ensures Lower(s) == s
  {
  }

  // ---------------------------------------------------------------------
  // str.strip
  // ---------------------------------------------------------------------

  /** Neither end of `s` is whitespace: what str.strip leaves. */
  predicate IsStripped(s: string) {
    s == [] || (!IsSpace(s[0]) && !IsSpace(s[|s| - 1]))
  }

  predicate AllSpace(s: string) {
    forall i :: 0 <= i < |s| ==> IsSpace(s[i])
  }

  /** Drop leading whitespace. */
  function TrimStart(s: string): (r: string)
    ensures |r| <= |s|
    ensures r == [] || !IsSpace(r[0])
    ensures r != [] ==> r[|r| - 1] == s[|s| - 1]
  {
    if |s| > 0 && IsSpace(s[0]) then TrimStart(s[1..]) else s
  }

  /** Drop trailing whitespace. */
  function TrimEnd(s: string): (r: string)
    ensures |r| <= |s|
    ensures r == [] || !IsSpace(r[|r| - 1])
    ensures r != [] ==> r[0] == s[0]
  {
    if |s| > 0 && IsSpace(s[|s| - 1]) then TrimEnd(s[..|s| - 1]) else s
  }

  /** TrimStart cuts whitespace only, and only on the left. */
  lemma {:induction false} TrimStartSlice(s: string)
    ensures TrimStart(s) == s[|s| - |TrimStart(s)|..]
    ensures AllSpace(s[..|s| - |TrimStart(s)|])
    decreases |s|
  {
    if |s| > 0 && IsSpace(s[0]) {
      TrimStartSlice(s[1..]);
      var k := |s| - |TrimStart(s)|;
      assert s[1..][..k - 1] == s[1..k];
      assert s[1..][k - 1..] == s[k..];
    }
  }

  /** TrimEnd cuts whitespace only, and only on the right. */
  lemma {:induction false} TrimEndSlice(s: string)
    ensures TrimEnd(s) == s[..|TrimEnd(s)|]
    ensures AllSpace(s[|TrimEnd(s)|..])
    decreases |s|
  {
    if |s| > 0 && IsSpace(s[|s| - 1]) {
      TrimEndSlice(s[..|s| - 1]);
      var k := |TrimEnd(s)|;
      assert s[..|s| - 1][..k] == s[..k];
      assert s[k..] == s[..|s| - 1][k..] + [s[|s| - 1]];
    }
  }

  /** str.strip() without arguments: neither end of the result is
      whitespace; StripIsSlice and StripCutsSpace add that the result is a
      slice of `s` with only whitespace cut off on either side. */
  function Strip(s: string): (r: string)
    ensures IsStripped(r)
    ensures |r| <= |s|
  {
    TrimEnd(TrimStart(s))
  }

  /** Leading whitespace is all a blank string has, so nothing is left. */
  lemma {:induction false} TrimStartBlanks(s: string)
    requires AllSpace(s)
    ensures TrimStart(s) == ""
    decreases |s|
  {
    if |s| > 0 {
      assert s[0] == s[0..1][0];
      assert AllSpace(s[1..]) by {
        forall i | 0 <= i < |s| - 1 ensures IsSpace(s[1..][i]) {
          assert s[1..][i] == s[i + 1];
        }
      }
      TrimStartBlanks(s[1..]);
    }
  }

  /** Stripping a blank string leaves the empty string. */
  lemma StripBlanks(s: string)
    requires AllSpace(s)
    ensures Strip(s) == ""
  {
    TrimStartBlanks(s);
  }

  /** Strip returns a slice of `s`: the one that starts after the leading
      whitespace. */
  lemma StripIsSlice(s: string)
    ensures var i := |s| - |TrimStart(s)|;
            i + |Strip(s)| <= |s| && Strip(s) == s[i..i + |Strip(s)|]
  {
    var left := TrimStart(s);
    var r := TrimEnd(left);
    TrimStartSlice(s);
    TrimEndSlice(left);
    SliceOfSlice(s, |s| - |left|, |r|);
  }

  /** What strip cuts off on either side is whitespace only. */
  lemma StripCutsSpace(s: string)
    ensures var i := |s| - |TrimStart(s)|;
            i + |Strip(s)| <= |s| && AllSpace(s[..i]) && AllSpace(s[i + |Strip(s)|..])
  {
    var left := TrimStart(s);
    var r := TrimEnd(left);
    TrimStartSlice(s);
    TrimEndSlice(left);
    SliceOfSlice(s, |s| - |left|, |r|);
  }

  lemma SliceOfSlice(s: string, i: nat, n: nat)
    requires i + n <= |s|
    ensures s[i..][..n] == s[i..i + n]
    ensures s[i..][n..] == s[i + n..]
  {
  }

  /** Strip introduces no character. */
  lemma StripKeepsAbsent(s: string, c: char)
    requires c !in s
    ensures c !in Strip(s)
  {
    StripIsSlice(s);
    var i := |s| - |TrimStart(s)|;
    var r := Strip(s);
    forall k | 0 <= k < |r| ensures r[k] != c {
      assert r[k] == s[i + k];
      assert s[i + k] in s;
    }
  }

  lemma TrimStartOfStripped(s: string)
    requires s == [] || !IsSpace(s[0])
    ensures TrimStart(s) == s
  {
  }

  lemma TrimEndOfStripped(s: string)
    requires s == [] || !IsSpace(s[|s| - 1])
    ensures TrimEnd(s) == s
  {
  }

  /** Stripping twice is stripping once. */
  lemma StripIdempotent(s: string)
    ensures Strip(Strip(s)) == Strip(s)
  {
    StripOfStripped(Strip(s));
  }

  lemma StripOfStripped(s: string)
    requires IsStripped(s)
    ensures Strip(s) == s
  {
    TrimStartOfStripped(s);
    TrimEndOfStripped(s);
  }

  lemma {:induction false} TrimStartLower(s: string)
    ensures TrimStart(Lower(s)) == Lower(TrimStart(s))
    decreases |s|
  {
    if |s| > 0 {
      LowerCharKeepsSpace(s[0]);
      assert Lower(s)[1..] == Lower(s[1..]);
      if IsSpace(s[0]) {
        TrimStartLower(s[1..]);
      }
    }
  }

  lemma {:induction false} TrimEndLower(s: string)
    ensures TrimEnd(Lower(s)) == Lower(TrimEnd(s))
    decreases |s|
  {
    if |s| > 0 {
      LowerCharKeepsSpace(s[|s| - 1]);
      assert Lower(s)[..|s| - 1] == Lower(s[..|s| - 1]);
      if IsSpace(s[|s| - 1]) {
        TrimEndLower(s[..|s| - 1]);
      }
    }
  }

  /** Lower-casing keeps a stripped string stripped. */
  lemma LowerKeepsStripped(s: string)
    requires IsStripped(s)
    ensures IsStripped(Lower(s))
  {
    if s != [] {
      LowerCharKeepsSpace(s[0]);
      LowerCharKeepsSpace(s[|s| - 1]);
    }
  }

  /** Case mapping never touches whitespace, so strip and lower commute. */
  lemma StripLowerCommute(s: string)
    ensures Strip(Lower(s)) == Lower(Strip(s))
  {
    TrimStartLower(s);
    TrimEndLower(TrimStart(s));
  }

  // ---------------------------------------------------------------------
  // str.split(c) and sep.join
  // ---------------------------------------------------------------------

  /** sep.join(parts) */
  function Join(parts: seq<string>, sep: string): string
  {
    if |parts| == 0 then ""
    else if |parts| == 1 then parts[0]
    else parts[0] + sep + Join(parts[1..], sep)
  }

  /** Number of occurrences of `c` in `s`. */
  function Count(s: string, c: char): nat
  {
    if |s| == 0 then 0 else (if s[0] == c then 1 else 0) + Count(s[1..], c)
  }

  /** A string without `c` counts no occurrence of it. */
  lemma {:induction false} CountAbsent(s: string, c: char)
    requires c !in s
    ensures Count(s, c) == 0
    decreases |s|
  {
    if |s| > 0 {
      assert s[0] in s;
      assert forall x :: x in s[1..] ==> x in s;
      CountAbsent(s[1..], c);
    }
  }

  /** Python's s.split(c) for a one-character separator: every occurrence of
      `c` cuts, so there is one more part than there are separators, no part
      holds `c`, and joining the parts with `c` gives back `s`. */
  function Split(s: string, c: char): (parts: seq<string>)
    ensures |parts| == Count(s, c) + 1
    ensures forall i :: 0 <= i < |parts| ==> c !in parts[i]
    ensures Join(parts, [c]) == s
    decreases |s|
  {
    if |s| == 0 then [""]
    else
      var rest := Split(s[1..], c);
      if s[0] == c then
        assert s == [c] + s[1..];
        [""] + rest
      else
        var parts := [[s[0]] + rest[0]] + rest[1..];
        assert parts[1..] == rest[1..];
        assert Join(parts, [c]) == s by {
          if |rest| > 1 {
            assert Join(rest, [c]) == rest[0] + [c] + Join(rest[1..], [c]);
          }
          assert s == [s[0]] + s[1..];
        }
        parts
  }

  lemma {:induction false} SplitPiece(p: string, c: char)
    requires c !in p
    ensures Split(p, c) == [p]
    decreases |p|
  {
    if |p| > 0 {
      SplitPiece(p[1..], c);
      assert [p[0]] + p[1..] == p;
    }
  }

  lemma {:induction false} SplitPieceThen(p: string, c: char, rest: string)
    requires c !in p
    ensures Split(p + [c] + rest, c) == [p] + Split(rest, c)
    decreases |p|
  {
    var s := p + [c] + rest;
    if |p| == 0 {
      assert s[1..] == rest;
    } else {
      assert s[1..] == p[1..] + [c] + rest;
      SplitPieceThen(p[1..], c, rest);
      assert [p[0]] + p[1..] == p;
    }
  }

  /** Splitting on `c` undoes joining with `c`, as long as no part holds `c`. */
  lemma {:induction false} SplitJoin(parts: seq<string>, c: char)
    requires |parts| >= 1
    requires forall i :: 0 <= i < |parts| ==> c !in parts[i]
    ensures Split(Join(parts, [c]), c) == parts
    decreases |parts|
  {
    if |parts| == 1 {
      SplitPiece(parts[0], c);
    } else {
      SplitJoin(parts[1..], c);
      SplitPieceThen(parts[0], c, Join(parts[1..], [c]));
      assert [parts[0]] + parts[1..] == parts;
    }
  }

  /** A join is empty exactly when it joins one empty part: a separator
      between two parts always adds length. */
  lemma JoinEmpty(parts: seq<string>, c: char)
    requires |parts| >= 1
    ensures Join(parts, [c]) == "" <==> parts == [""]
  {
  }

  // ---------------------------------------------------------------------
  // startswith, the `in` substring test, s.split(sep)[0]
  // ---------------------------------------------------------------------

  /** s.startswith(p) */
  predicate StartsWith(s: string, p: string) {
    |p| <= |s| && s[..|p|] == p
  }

  /** `x` occurs in `s` at index `i`. */
  predicate OccursAt(s: string, x: string, i: int) {
    0 <= i && i + |x| <= |s| && s[i..i + |x|] == x
  }

  /** Python's `x in s` for strings, scanning from the left. */
  predicate Contains(s: string, x: string)
    decreases |s|
  {
    StartsWith(s, x) || (|s| > 0 && Contains(s[1..], x))
  }

  lemma {:induction false} ContainsMeansOccurs(s: string, x: string)
    ensures Contains(s, x) <==> exists i :: OccursAt(s, x, i)
    decreases |s|
  {
    if StartsWith(s, x) {
      assert OccursAt(s, x, 0);
    } else if |s| == 0 {
      assert forall i :: !OccursAt(s, x, i);
    } else {
      ContainsMeansOccurs(s[1..], x);
      forall i | OccursAt(s, x, i)
        ensures OccursAt(s[1..], x, i - 1)
      {
        assert s[1..][i - 1..i - 1 + |x|] == s[i..i + |x|];
      }
      forall i | OccursAt(s[1..], x, i)
        ensures OccursAt(s, x, i + 1)
      {
        assert s[1..][i..i + |x|] == s[i + 1..i + 1 + |x|];
      }
    }
  }

  /** `s.split(sep)[0]`: the part of `s` before the first occurrence of `sep`,
      or all of `s` when `sep` does not occur. The result is a prefix of `s`,
      followed in `s` by `sep` unless it is all of `s`; BeforeFirstIsFirst adds
      that `sep` occurs nowhere earlier. */
  function BeforeFirst(s: string, sep: string): (r: string)
    requires |sep| > 0
    ensures |r| <= |s| && r == s[..|r|]
    ensures |r| < |s| ==> OccursAt(s, sep, |r|)
    decreases |s|
  {
    if |s| == 0 || StartsWith(s, sep) then ""
    else
      var rest := BeforeFirst(s[1..], sep);
      assert |rest| < |s| - 1 ==> s[1..][|rest|..|rest| + |sep|] == s[|rest| + 1..|rest| + 1 + |sep|];
      [s[0]] + rest
  }

  /** No occurrence of `sep` starts inside the part before the first one. */
  lemma {:induction false} BeforeFirstIsFirst(s: string, sep: string)
    requires |sep| > 0
    ensures forall i :: 0 <= i < |BeforeFirst(s, sep)| ==> !OccursAt(s, sep, i)
    decreases |s|
  {
    if |s| > 0 && !StartsWith(s, sep) {
      var r := BeforeFirst(s, sep);
      BeforeFirstIsFirst(s[1..], sep);
      forall i | 0 <= i < |r| ensures !OccursAt(s, sep, i) {
        if i == 0 {
          if |sep| <= |s| {
            assert s[..|sep|] == s[0..|sep|];
          }
        } else if i + |sep| <= |s| {
          assert s[1..][i - 1..i - 1 + |sep|] == s[i..i + |sep|];
          assert !OccursAt(s[1..], sep, i - 1);
        }
      }
    }
  }

  /** The part before the first separator is the whole string exactly when the
      separator does not occur. */
  lemma BeforeFirstWhole(s: string, sep: string)
    requires |sep| > 0
    ensures (BeforeFirst(s, sep) == s) <==> !Contains(s, sep)
  {
    ContainsMeansOccurs(s, sep);
    BeforeFirstIsFirst(s, sep);
    if BeforeFirst(s, sep) == s {
      forall i | 0 <= i ensures !OccursAt(s, sep, i) {
        if i < |s| {
          assert !OccursAt(s, sep, i);
        }
      }
    }
  }

  /** When `sep` first occurs at index `k`, the part before it is `s[..k]`. */
  lemma BeforeFirstAt(s: string, sep: string, k: nat)
    requires |sep| > 0
    requires OccursAt(s, sep, k)
    requires forall i :: 0 <= i < k ==> !OccursAt(s, sep, i)
    ensures BeforeFirst(s, sep) == s[..k]
  {
    BeforeFirstIsFirst(s, sep);
  }

  // ---------------------------------------------------------------------
  // Decimal rendering of a natural number, as in f"{n}"
  // ---------------------------------------------------------------------

  predicate IsDigit(c: char) {
    '0' <= c <= '9'
  }

  function DigitChar(d: nat): (c: char)
    requires d < 10
    ensures IsDigit(c) && c as int - '0' as int == d
  {
    ('0' as int + d) as char
  }

  function DecimalString(n: nat): (s: string)
    ensures |s| >= 1
    ensures forall i :: 0 <= i < |s| ==> IsDigit(s[i])
    ensures |s| > 1 ==> s[0] != '0'
    decreases n
  {
    if n < 10 then [DigitChar(n)] else DecimalString(n / 10) + [DigitChar(n % 10)]
  }

  /** The number a string of decimal digits denotes. */
  function DecimalValue(s: string): int
    requires forall i :: 0 <= i < |s| ==> IsDigit(s[i])
  {
    if |s| == 0 then 0
    else DecimalValue(s[..|s| - 1]) * 10 + (s[|s| - 1] as int - '0' as int)
  }

  /** Reading back a rendered number gives the number. */
  lemma {:induction false} DecimalRoundTrip(n: nat)
    ensures DecimalValue(DecimalString(n)) == n
    decreases n
  {
    if n >= 10 {
      DecimalRoundTrip(n / 10);
      var s := DecimalString(n);
      assert s[..|s| - 1] == DecimalString(n / 10);
    }
  }
}
