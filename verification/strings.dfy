/** The string operations of Go's `strings` package, PostgreSQL's `ILIKE` and
    JavaScript's `toLowerCase`/`includes` that the services rely on. Strings
    are sequences of Unicode scalar values; case folding covers ASCII letters
    only (see README). */
module Strings {

  predicate IsAsciiUpper(c: char) { 'A' <= c <= 'Z' }
  predicate IsAsciiLower(c: char) { 'a' <= c <= 'z' }
  predicate IsAsciiLetter(c: char) { IsAsciiUpper(c) || IsAsciiLower(c) }
  predicate IsAsciiDigit(c: char) { '0' <= c <= '9' }

  function ToLowerChar(c: char): (r: char)
    ensures !IsAsciiUpper(r)
    ensures IsAsciiUpper(c) ==> IsAsciiLower(r)
    ensures !IsAsciiUpper(c) ==> r == c
  {
    if IsAsciiUpper(c) then (c as int + 32) as char else c
  }

  function ToLower(s: string): (r: string)
    ensures |r| == |s|
    ensures forall i :: 0 <= i < |s| ==> r[i] == ToLowerChar(s[i])
  {
    if s == [] then [] else [ToLowerChar(s[0])] + ToLower(s[1..])
  }

  /** Lower-casing twice changes nothing more than lower-casing once. */
  lemma ToLowerIdempotent(s: string)
    ensures ToLower(ToLower(s)) == ToLower(s)
  {
  }

  /** `sub` occurs in `s` at some position (Go's `strings.Contains`,
      JavaScript's `includes`). */
  predicate Contains(s: string, sub: string) {
    exists i :: 0 <= i <= |s| - |sub| && sub <= s[i..]
  }

  /** The empty string occurs in every string. */
  lemma ContainsEmpty(s: string)
    ensures Contains(s, "")
  {
    assert "" <= s[0..];
  }

  /** Every string occurs in itself. */
  lemma ContainsSelf(s: string)
    ensures Contains(s, s)
  {
    assert s <= s[0..];
  }

  /** A string occurring in a part of `s` occurs in `s`. */
  lemma ContainsTrans(s: string, mid: string, sub: string)
    requires Contains(s, mid) && Contains(mid, sub)
    ensures Contains(s, sub)
  {
    var i :| 0 <= i <= |s| - |mid| && mid <= s[i..];
    var j :| 0 <= j <= |mid| - |sub| && sub <= mid[j..];
    assert sub <= s[i + j..] by {
      forall k | 0 <= k < |sub| ensures sub[k] == s[i + j + k] {
        assert sub[k] == mid[j + k];
        assert mid[j + k] == s[i + j + k];
      }
    }
  }

  /** Case-insensitive substring test: `col ILIKE '%' || sub || '%'` and
      `col.toLowerCase().includes(sub.toLowerCase())`. */
  predicate ContainsFold(s: string, sub: string) {
    Contains(ToLower(s), ToLower(sub))
  }

  /** A string found ignoring case still is when its search text is cut
      back to a prefix. */
  lemma ContainsFoldPrefix(s: string, sub: string, more: string)
    requires ContainsFold(s, sub + more)
    ensures ContainsFold(s, sub)
  {
    var whole := ToLower(sub + more);
    assert ToLower(sub) <= whole[0..];
    ContainsTrans(ToLower(s), whole, ToLower(sub));
  }

  /** The folded test does not see the case of either argument. */
  lemma {:induction false} ContainsFoldIgnoresCase(s: string, sub: string)
    ensures ContainsFold(ToLower(s), sub) == ContainsFold(s, sub)
    ensures ContainsFold(s, ToLower(sub)) == ContainsFold(s, sub)
  {
    ToLowerIdempotent(s);
    ToLowerIdempotent(sub);
  }

  /** Position of the first `c` in `s`, or -1. */
  function IndexOf(s: string, c: char): (r: int)
    ensures -1 <= r < |s|
    ensures r >= 0 ==> s[r] == c && c !in s[..r]
    ensures r < 0 <==> c !in s
  {
    if s == [] then -1
    else if s[0] == c then 0
    else
      assert s == [s[0]] + s[1..];
      var k := IndexOf(s[1..], c);
      if k < 0 then -1
      else
        assert s[..k + 1] == [s[0]] + s[1..][..k];
        k + 1
  }

  /** The first occurrence is the position of `c` with no `c` before it. */
  lemma IndexOfAt(s: string, c: char, k: int)
    requires 0 <= k < |s| && s[k] == c
    requires forall i :: 0 <= i < k ==> s[i] != c
    ensures IndexOf(s, c) == k
  {
    var r := IndexOf(s, c);
    assert c in s;
    assert forall j :: 0 <= j < r ==> s[..r][j] == s[j];
  }

  /** Position of the last `c` in `s`, or -1. */
  function LastIndexOf(s: string, c: char): (r: int)
    ensures -1 <= r < |s|
    ensures r >= 0 ==> s[r] == c && c !in s[r + 1..]
    ensures r < 0 <==> c !in s
  {
    if s == [] then -1
    else if s[|s| - 1] == c then |s| - 1
    else
      var init := s[..|s| - 1];
      assert s == init + [s[|s| - 1]];
      var k := LastIndexOf(init, c);
      if k < 0 then -1
      else
        assert s[k + 1..] == init[k + 1..] + [s[|s| - 1]];
        k
  }

  /** Go's `strings.Split(s, string(sep))`: the pieces between occurrences
      of `sep`; there is always one more piece than separators. */
  function Split(s: string, sep: char): (parts: seq<string>)
    ensures |parts| >= 1
    ensures forall i :: 0 <= i < |parts| ==> sep !in parts[i]
    decreases |s|
  {
    var k := IndexOf(s, sep);
    if k < 0 then [s]
    else
      var rest := Split(s[k + 1..], sep);
      PiecesWithoutSeparator(s[..k], rest, sep);
      [s[..k]] + rest
  }

  /** Putting a piece without the separator in front of such pieces keeps
      every piece free of it. */
  lemma PiecesWithoutSeparator(a: string, rest: seq<string>, sep: char)
    requires sep !in a
    requires forall i :: 0 <= i < |rest| ==> sep !in rest[i]
    ensures forall i :: 0 <= i < |[a] + rest| ==> sep !in ([a] + rest)[i]
  {
    var parts := [a] + rest;
    assert forall i :: 1 <= i < |parts| ==> parts[i] == rest[i - 1];
  }

  /** Go's `strings.Join(parts, string(sep))`. */
  function Join(parts: seq<string>, sep: char): string {
    if parts == [] then ""
    else if |parts| == 1 then parts[0]
    else parts[0] + [sep] + Join(parts[1..], sep)
  }

  /** Joining the pieces of a split with the same separator gives back the
      original string. */
  lemma {:induction false} JoinSplit(s: string, sep: char)
    ensures Join(Split(s, sep), sep) == s
    decreases |s|, 1
  {
    var k := IndexOf(s, sep);
    if k >= 0 {
      JoinSplitAt(s, sep, k);
    } else {
      SplitNoSeparator(s, sep);
    }
  }

  /** `JoinSplit` for a string whose first separator is at `k`. */
  lemma {:induction false} JoinSplitAt(s: string, sep: char, k: int)
    requires 0 <= k && k == IndexOf(s, sep)
    ensures Join(Split(s, sep), sep) == s
    decreases |s|, 0
  {
    var a, b := s[..k], s[k + 1..];
    var rest := Split(b, sep);
    SplitAround(s, k);
    calc {
      Join(Split(s, sep), sep);
      Join([a] + rest, sep);
      { JoinCons(a, rest, sep); }
      a + [sep] + Join(rest, sep);
      { JoinSplit(b, sep); }
      a + [sep] + b;
    }
  }

  /** A string is what comes before position `k`, the character there, and
      what comes after. */
  lemma SplitAround(s: string, k: int)
    requires 0 <= k < |s|
    ensures s == s[..k] + [s[k]] + s[k + 1..]
  {
    assert s == s[..k] + s[k..];
  }

  /** Joining a piece in front of at least one more puts the separator
      between them. */
  lemma JoinCons(a: string, rest: seq<string>, sep: char)
    requires |rest| >= 1
    ensures Join([a] + rest, sep) == a + [sep] + Join(rest, sep)
  {
    assert ([a] + rest)[1..] == rest;
  }

  /** Splitting at the first separator, found at `k`. */
  lemma SplitFirst(s: string, sep: char, k: int)
    requires 0 <= k && k == IndexOf(s, sep)
    ensures Split(s, sep) == [s[..k]] + Split(s[k + 1..], sep)
  {
  }

  /** A string without the separator is split into itself alone. */
  lemma SplitNoSeparator(s: string, sep: char)
    requires sep !in s
    ensures Split(s, sep) == [s]
  {
  }

  /** Splitting `a + [sep] + b` where `a` holds no separator yields `a`
      followed by the pieces of `b`. */
  lemma SplitAtFirst(a: string, b: string, sep: char)
    requires sep !in a
    ensures Split(a + [sep] + b, sep) == [a] + Split(b, sep)
  {
    var s := a + [sep] + b;
    var k := IndexOf(s, sep);
    assert s[|a|] == sep;
    assert s[..|a|] == a;
    assert k == |a|;
    assert s[..k] == a;
    assert s[k + 1..] == b;
  }

  /** Splitting a join of at least one piece, none holding the separator,
      gives back the pieces. */
  lemma {:induction false} SplitJoin(xs: seq<string>, sep: char)
    requires |xs| >= 1
    requires forall i :: 0 <= i < |xs| ==> sep !in xs[i]
    ensures Split(Join(xs, sep), sep) == xs
  {
    if |xs| == 1 {
      SplitNoSeparator(xs[0], sep);
    } else {
      assert forall i :: 0 <= i < |xs[1..]| ==> xs[1..][i] == xs[i + 1];
      SplitJoin(xs[1..], sep);
      SplitAtFirst(xs[0], Join(xs[1..], sep), sep);
      assert xs == [xs[0]] + xs[1..];
    }
  }

  /** Splitting two strings joined by the separator splits each of them:
      the pieces of `a` come first, then those of `b`. */
  lemma {:induction false} SplitConcat(a: string, b: string, sep: char)
    ensures Split(a + [sep] + b, sep) == Split(a, sep) + Split(b, sep)
    decreases |a|, 1
  {
    if sep in a {
      SplitConcatAt(a, b, sep);
    } else {
      SplitNoSeparator(a, sep);
      SplitAtFirst(a, b, sep);
    }
  }

  /** `SplitConcat` for a first string that holds the separator: the first
      separator of the join is that of `a`. */
  lemma {:induction false} SplitConcatAt(a: string, b: string, sep: char)
    requires sep in a
    ensures Split(a + [sep] + b, sep) == Split(a, sep) + Split(b, sep)
    decreases |a|, 0
  {
    var k := IndexOf(a, sep);
    var y := a[k + 1..];
    var s := a + [sep] + b;
    assert IndexOf(s, sep) == k && s[..k] == a[..k] && s[k + 1..] == y + [sep] + b by {
      assert s == a + ([sep] + b);
      IndexOfPrefix(a, [sep] + b, sep);
    }
    SplitFirst(s, sep, k);
    SplitFirst(a, sep, k);
    SplitConcat(y, b, sep);
    AppendAssoc([a[..k]], Split(y, sep), Split(b, sep));
  }

  /** Concatenation is associative. */
  lemma AppendAssoc<T>(x: seq<T>, y: seq<T>, z: seq<T>)
    ensures x + (y + z) == x + y + z
  {
  }

  /** The first `c` of a string that holds one is also the first `c` of
      any extension of it. */
  lemma IndexOfPrefix(a: string, rest: string, c: char)
    requires c in a
    ensures IndexOf(a + rest, c) == IndexOf(a, c)
    ensures (a + rest)[..IndexOf(a, c)] == a[..IndexOf(a, c)]
    ensures (a + rest)[IndexOf(a, c) + 1..] == a[IndexOf(a, c) + 1..] + rest
  {
    var s, k := a + rest, IndexOf(a, c);
    forall i | 0 <= i < k ensures s[i] != c {
      assert s[i] == a[..k][i];
    }
    IndexOfAt(s, c, k);
  }

  function DigitChar(d: nat): (c: char)
    requires d < 10
    ensures IsAsciiDigit(c)
  {
    ('0' as int + d) as char
  }

  /** Decimal rendering of a natural number, as `%d` prints it. */
  function NatToString(n: nat): (r: string)
    ensures |r| >= 1
    ensures forall i :: 0 <= i < |r| ==> IsAsciiDigit(r[i])
  {
    if n < 10 then [DigitChar(n)] else NatToString(n / 10) + [DigitChar(n % 10)]
  }

  /** Number of bytes UTF-8 uses for one scalar value. */
  function Utf8Width(c: char): (w: nat)
    ensures 1 <= w <= 4
  {
    if c as int < 0x80 then 1
    else if c as int < 0x800 then 2
    else if c as int < 0x10000 then 3
    else 4
  }

  /** Go's `len` of a string: its length in UTF-8 bytes. */
  function Utf8Length(s: string): nat {
    if s == [] then 0 else Utf8Width(s[0]) + Utf8Length(s[1..])
  }

  predicate IsAscii(s: string) {
    forall i :: 0 <= i < |s| ==> s[i] as int < 0x80
  }

  /** Byte length is never below the character count, and equals it exactly
      for ASCII text. */
  lemma {:induction false} Utf8LengthBounds(s: string)
    ensures |s| <= Utf8Length(s) <= 4 * |s|
    ensures IsAscii(s) ==> Utf8Length(s) == |s|
  {
    if s != [] {
      Utf8LengthBounds(s[1..]);
      assert IsAscii(s) ==> IsAscii(s[1..]) by {
        if IsAscii(s) {
          forall i | 0 <= i < |s[1..]| ensures s[1..][i] as int < 0x80 {
            assert s[1..][i] == s[i + 1];
          }
        }
      }
    }
  }

  /** The last occurrence is the position of `c` with no `c` after it. */
  lemma LastIndexOfAt(s: string, c: char, k: int)
    requires 0 <= k < |s| && s[k] == c
    requires forall i :: k < i < |s| ==> s[i] != c
    ensures LastIndexOf(s, c) == k
  {
    var r := LastIndexOf(s, c);
    assert c in s;
    assert forall j :: r < j < |s| ==> s[r + 1..][j - r - 1] == s[j];
  }
}
