/** Optional values, used wherever the Python code returns None or a regex fails to match. */
module Options {
  datatype Option<+T> = None | Some(value: T) {
    function GetOr(default: T): T {
      match this
      case Some(v) => v
      case None => default
    }
  }
}

/** Character and string helpers with the meaning Python gives them: whitespace is
    `str.isspace` (which is also what `\s` matches in a `str` pattern), digits are the
    ASCII digits `\d` is modelled by, and `str(n)` is the decimal numeral. */
module Strings {
  import opened Options

  /** Python's whitespace characters: `str.isspace`, `str.strip()` and regex `\s`. */
  predicate IsSpace(c: char) {
    || ('\t' <= c <= '\r')
    || ('\U{1C}' <= c <= '\U{1F}')
    || c == ' '
    || c == '\U{85}'
    || c == '\U{A0}'
    || c == '\U{1680}'
    || ('\U{2000}' <= c <= '\U{200A}')
    || c == '\U{2028}'
    || c == '\U{2029}'
    || c == '\U{202F}'
    || c == '\U{205F}'
    || c == '\U{3000}'
  }

  predicate AllSpace(t: string) {
    forall k :: 0 <= k < |t| ==> IsSpace(t[k])
  }

  /** Every index in `[a, b)` of `s` holds whitespace. */
  predicate SpaceBetween(s: string, a: nat, b: nat) {
    forall m :: a <= m < b && m < |s| ==> IsSpace(s[m])
  }

  /** A slice is all whitespace exactly when every index it was cut from holds whitespace. */
  lemma SpaceSlice(s: string, a: nat, b: nat)
    requires a <= b <= |s|
    ensures AllSpace(s[a..b]) <==> SpaceBetween(s, a, b)
  {
    if AllSpace(s[a..b]) {
      forall m | a <= m < b
        ensures IsSpace(s[m])
      {
        assert s[m] == s[a..b][m - a];
      }
    }
  }

  predicate IsDigit(c: char) {
    '0' <= c <= '9'
  }

  predicate AllDigits(s: string) {
    forall i :: 0 <= i < |s| ==> IsDigit(s[i])
  }

  /** `c not in t` */
  predicate Lacks(t: string, c: char) {
    forall k :: 0 <= k < |t| ==> t[k] != c
  }

  /** A concatenation lacks `c` exactly when both parts do. */
  lemma LacksConcat(a: string, b: string, c: char)
    ensures Lacks(a + b, c) <==> Lacks(a, c) && Lacks(b, c)
  {
    if Lacks(a + b, c) {
      forall k | 0 <= k < |a|
        ensures a[k] != c
      {
        assert a[k] == (a + b)[k];
      }
      forall k | 0 <= k < |b|
        ensures b[k] != c
      {
        assert b[k] == (a + b)[|a| + k];
      }
    }
  }

  /** No index in `[a, b)` of `s` holds `c`. */
  predicate NoneBetween(s: string, c: char, a: nat, b: nat) {
    forall m :: a <= m < b && m < |s| ==> s[m] != c
  }

  /** A slice lacks `c` exactly when no index it was cut from holds `c`. */
  lemma LacksSlice(s: string, c: char, a: nat, b: nat)
    requires a <= b <= |s|
    ensures Lacks(s[a..b], c) <==> NoneBetween(s, c, a, b)
  {
    if Lacks(s[a..b], c) {
      forall m | a <= m < b
        ensures s[m] != c
      {
        assert s[m] == s[a..b][m - a];
      }
    }
  }

  /** `s.endswith(suffix)` */
  predicate EndsWith(s: string, suffix: string) {
    |suffix| <= |s| && s[|s| - |suffix|..] == suffix
  }

  /** The first index at or after `from` holding `c`, or `|s|` when there is none. */
  function IndexOfFrom(s: string, c: char, from: nat): (k: nat)
    requires from <= |s|
    ensures from <= k <= |s|
    ensures k < |s| ==> s[k] == c
    ensures NoneBetween(s, c, from, k)
    decreases |s| - from
  {
    if from == |s| then |s|
    else if s[from] == c then from
    else IndexOfFrom(s, c, from + 1)
  }

  /** The first occurrence of `c` at or after `from` is at `k` when none comes before it
      and `s[k]` is `c`. */
  lemma {:induction false} IndexOfFromAt(s: string, c: char, from: nat, k: nat)
    requires from <= k < |s| && s[k] == c && NoneBetween(s, c, from, k)
    ensures IndexOfFrom(s, c, from) == k
    decreases k - from
  {
    if from < k {
      IndexOfFromAt(s, c, from + 1, k);
    }
  }

  /** The last index in `[lo, hi)` of `s` holding `c`, if any. */
  function LastIndexIn(s: string, c: char, lo: nat, hi: nat): (r: Option<nat>)
    requires lo <= hi <= |s|
    ensures r.Some? ==> lo <= r.value < hi && s[r.value] == c && NoneBetween(s, c, r.value + 1, hi)
    ensures r.None? ==> NoneBetween(s, c, lo, hi)
    decreases hi
  {
    if hi == lo then None
    else if s[hi - 1] == c then Some(hi - 1)
    else LastIndexIn(s, c, lo, hi - 1)
  }

  /** `pat` occurs in `s` at index `j`, compared character by character. */
  predicate OccursAt(s: string, pat: string, j: nat)
    ensures OccursAt(s, pat, j) ==> j + |pat| <= |s|
    decreases |pat|
  {
    if pat == [] then j <= |s|
    else j < |s| && s[j] == pat[0] && OccursAt(s, pat[1..], j + 1)
  }

  /** An occurrence is a slice equal to the pattern. */
  lemma {:induction false} OccursAtSlices(s: string, pat: string, j: nat)
    ensures OccursAt(s, pat, j) <==> j + |pat| <= |s| && s[j..j + |pat|] == pat
    decreases |pat|
  {
    if pat != [] {
      OccursAtSlices(s, pat[1..], j + 1);
      if j + |pat| <= |s| {
        assert s[j..j + |pat|] == [s[j]] + s[j + 1..j + |pat|];
        assert pat == [pat[0]] + pat[1..];
      }
    }
  }

  /** `a + b` occurs at `i` exactly when `a` does and `b` follows it. */
  lemma {:induction false} OccursAtAppend(s: string, a: string, b: string, i: nat)
    ensures OccursAt(s, a + b, i) <==> OccursAt(s, a, i) && OccursAt(s, b, i + |a|)
    decreases |a|
  {
    if a == [] {
      assert a + b == b;
      if OccursAt(s, b, i) {
        OccursAtSlices(s, b, i);
      }
    } else {
      assert (a + b)[0] == a[0] && (a + b)[1..] == a[1..] + b;
      OccursAtAppend(s, a[1..], b, i + 1);
    }
  }

  /** A one-character pattern occurs where that character stands. */
  lemma OccursAtChar(s: string, c: char, i: nat)
    ensures OccursAt(s, [c], i) <==> i < |s| && s[i] == c
  {
    assert [c][1..] == [];
  }

  /** Concatenation regroups freely. */
  lemma AppendRegroup(a: string, b: string, c: string)
    ensures (a + b) + c == a + (b + c)
  {
  }

  /** A non-empty slice is its first character followed by the rest. */
  lemma SliceFirst(s: string, i: nat, k: nat)
    requires i < k <= |s|
    ensures s[i..k] == [s[i]] + s[i + 1..k]
  {
  }

  /** Every slice occurs where it was cut from. */
  lemma OccursAtSlice(s: string, i: nat, j: nat)
    requires i <= j <= |s|
    ensures OccursAt(s, s[i..j], i)
  {
    OccursAtSlices(s, s[i..j], i);
  }

  /** The first index at or after `from` where `pat` occurs in `s`, if any. */
  function FindFrom(s: string, pat: string, from: nat): (r: Option<nat>)
    requires from <= |s|
    ensures r.Some? ==> from <= r.value && OccursAt(s, pat, r.value)
    ensures forall j :: from <= j && (r.Some? ==> j < r.value) ==> !OccursAt(s, pat, j)
    decreases |s| - from
  {
    if from + |pat| > |s| then None
    else if OccursAt(s, pat, from) then Some(from)
    else FindFrom(s, pat, from + 1)
  }

  /** The end of the longest run of whitespace starting at `from`. */
  function SpaceRunEnd(s: string, from: nat): (k: nat)
    requires from <= |s|
    ensures from <= k <= |s|
    ensures SpaceBetween(s, from, k)
    ensures k < |s| ==> !IsSpace(s[k])
    decreases |s| - from
  {
    if from == |s| || !IsSpace(s[from]) then from
    else SpaceRunEnd(s, from + 1)
  }

  /** The start of the longest run of whitespace ending at `hi` and not reaching below `lo`. */
  function SpaceRunStart(s: string, lo: nat, hi: nat): (k: nat)
    requires lo <= hi <= |s|
    ensures lo <= k <= hi
    ensures SpaceBetween(s, k, hi)
    ensures k > lo ==> !IsSpace(s[k - 1])
    decreases hi
  {
    if hi == lo || !IsSpace(s[hi - 1]) then hi
    else SpaceRunStart(s, lo, hi - 1)
  }

  /** `s.lstrip()` */
  function TrimStart(s: string): (r: string)
    ensures |r| <= |s| && r == s[|s| - |r|..]
    ensures AllSpace(s[..|s| - |r|])
    ensures |r| > 0 ==> !IsSpace(r[0])
  {
    var k := SpaceRunEnd(s, 0);
    SpaceSlice(s, 0, k);
    s[k..]
  }

  /** `s.rstrip()` */
  function TrimEnd(s: string): (r: string)
    ensures |r| <= |s| && r == s[..|r|]
    ensures AllSpace(s[|r|..])
    ensures |r| > 0 ==> !IsSpace(r[|r| - 1])
  {
    var k := SpaceRunStart(s, 0, |s|);
    SpaceSlice(s, k, |s|);
    s[..k]
  }

  /** `s.strip()` */
  function Strip(s: string): (r: string)
    ensures |r| <= |s|
    ensures |r| > 0 ==> !IsSpace(r[0]) && !IsSpace(r[|r| - 1])
  {
    TrimEnd(TrimStart(s))
  }

  /** `lstrip` cuts exactly the whitespace run at the start. */
  lemma TrimStartIs(s: string, m: nat)
    requires m <= |s| && SpaceBetween(s, 0, m) && (m < |s| ==> !IsSpace(s[m]))
    ensures TrimStart(s) == s[m..]
  {
  }

  /** `rstrip` cuts exactly the whitespace run at the end. */
  lemma TrimEndIs(s: string, m: nat)
    requires m <= |s| && SpaceBetween(s, m, |s|) && (m > 0 ==> !IsSpace(s[m - 1]))
    ensures TrimEnd(s) == s[..m]
  {
  }

  /** `strip` leaves exactly the infix between the whitespace runs at both ends. */
  lemma StripIs(s: string, a: nat, b: nat)
    requires a <= b <= |s| && SpaceBetween(s, 0, a) && SpaceBetween(s, b, |s|)
    requires a < b ==> !IsSpace(s[a]) && !IsSpace(s[b - 1])
    ensures Strip(s) == s[a..b]
  {
    if a < b {
      TrimStartIs(s, a);
      var t := s[a..];
      TrimEndIs(t, b - a);
      assert t[..b - a] == s[a..b];
    } else {
      TrimStartIs(s, |s|);
      TrimEndIs([], 0);
    }
  }

  /** `s.rstrip(c)` for a single character `c`. */
  function TrimEndChar(s: string, c: char): (r: string)
    ensures |r| <= |s| && r == s[..|r|]
    ensures forall i :: |r| <= i < |s| ==> s[i] == c
    ensures |r| > 0 ==> r[|r| - 1] != c
  {
    if |s| > 0 && s[|s| - 1] == c then TrimEndChar(s[..|s| - 1], c) else s
  }

  /** `s.split(c)[0]`: the part of `s` before the first `c`. */
  function BeforeFirst(s: string, c: char): (r: string)
    ensures r <= s
    ensures Lacks(r, c)
    ensures |r| < |s| ==> s[|r|] == c
  {
    var k := IndexOfFrom(s, c, 0);
    LacksSlice(s, c, 0, k);
    s[..k]
  }

  /** `IndexOfFrom` finds exactly the first `c` at or after `from`. */
  lemma IndexOfFromIs(s: string, c: char, from: nat, k: nat)
    requires from <= k <= |s| && NoneBetween(s, c, from, k) && (k < |s| ==> s[k] == c)
    ensures IndexOfFrom(s, c, from) == k
  {
  }

  /** Left-stripping a suffix of `s` starts where the whitespace run from its start ends. */
  lemma TrimStartFrom(s: string, a: nat)
    requires a <= |s|
    ensures TrimStart(s[a..]) == s[SpaceRunEnd(s, a)..]
  {
    var t := s[a..];
    var k := SpaceRunEnd(s, a);
    forall m | 0 <= m < k - a
      ensures IsSpace(t[m])
    {
      assert t[m] == s[a + m];
    }
    TrimStartIs(t, k - a);
  }

  /** Splitting a suffix of `s` at `c` stops at the first `c` of `s` from there. */
  lemma BeforeFirstFrom(s: string, c: char, a: nat)
    requires a <= |s|
    ensures BeforeFirst(s[a..], c) == s[a..IndexOfFrom(s, c, a)]
  {
    var t := s[a..];
    var k := IndexOfFrom(s, c, a);
    forall m | 0 <= m < k - a
      ensures t[m] != c
    {
      assert t[m] == s[a + m];
    }
    IndexOfFromIs(t, c, 0, k - a);
  }

  /** Right-stripping a slice of `s` ends where the whitespace run before its end starts. */
  lemma {:induction false} TrimEndOfSlice(s: string, a: nat, b: nat)
    requires a <= b <= |s|
    ensures TrimEnd(s[a..b]) == s[a..SpaceRunStart(s, a, b)]
  {
    var k := SpaceRunStart(s, a, b);
    var t := s[a..b];
    assert TrimEnd(t) == t[..k - a] by {
      SpaceRunOfSlice(s, a, b, k);
      TrimEndIs(t, k - a);
    }
    assert t[..k - a] == s[a..k];
  }

  /** The whitespace run found in `s[a..b]` seen from inside the slice. */
  lemma SpaceRunOfSlice(s: string, a: nat, b: nat, k: nat)
    requires a <= b <= |s| && k == SpaceRunStart(s, a, b)
    ensures SpaceBetween(s[a..b], k - a, b - a)
    ensures k - a > 0 ==> !IsSpace(s[a..b][k - a - 1])
  {
    var t := s[a..b];
    forall m | k - a <= m < |t|
      ensures IsSpace(t[m])
    {
      assert t[m] == s[a + m];
    }
    if k > a {
      assert t[k - a - 1] == s[k - 1];
    }
  }

  /** ASCII lower-casing, the part of `str.lower` that matters for file extensions. */
  function LowerChar(c: char): char {
    if 'A' <= c <= 'Z' then (c as int + 32) as char else c
  }

  function Lower(s: string): (r: string)
    ensures |r| == |s|
    ensures forall i :: 0 <= i < |s| ==> r[i] == LowerChar(s[i])
  {
    if s == [] then [] else [LowerChar(s[0])] + Lower(s[1..])
  }

  function DigitValue(c: char): nat
    requires IsDigit(c)
  {
    c as int - '0' as int
  }

  function DigitChar(d: nat): (c: char)
    requires d < 10
    ensures IsDigit(c) && DigitValue(c) == d
  {
    ('0' as int + d) as char
  }

  function Pow10(n: nat): (r: nat)
    ensures r >= 1
  {
    if n == 0 then 1 else 10 * Pow10(n - 1)
  }

  /** `int(s)` for a string of ASCII digits. */
  function DigitsValue(s: string): (v: nat)
    requires AllDigits(s)
    ensures v < Pow10(|s|)
  {
    if s == [] then 0 else 10 * DigitsValue(s[..|s| - 1]) + DigitValue(s[|s| - 1])
  }

  /** `str(n)` for a natural number: its decimal numeral, without leading zeros. */
  function NatToString(n: nat): (r: string)
    ensures |r| > 0 && AllDigits(r)
    ensures |r| > 1 ==> r[0] != '0'
  {
    if n < 10 then [DigitChar(n)]
    else
      var prefix := NatToString(n / 10);
      prefix + [DigitChar(n % 10)]
  }

  /** `int(str(n)) == n` */
  lemma {:induction false} NatToStringRoundTrip(n: nat)
    ensures DigitsValue(NatToString(n)) == n
  {
    if n >= 10 {
      var s := NatToString(n);
      assert s[..|s| - 1] == NatToString(n / 10);
      NatToStringRoundTrip(n / 10);
    }
  }

  /** The `width`-digit numeral of `n`, padded with leading zeros (`f"{n:0{width}d}"`). */
  function PadDigits(n: nat, width: nat): (r: string)
    ensures |r| == width && AllDigits(r)
  {
    if width == 0 then [] else PadDigits(n / 10, width - 1) + [DigitChar(n % 10)]
  }

  /** A digit string is recovered by zero-padding its value to its own width. */
  lemma {:induction false} PadDigitsOfValue(s: string)
    requires AllDigits(s)
    ensures PadDigits(DigitsValue(s), |s|) == s
  {
    if s != [] {
      var init := s[..|s| - 1];
      var v := DigitsValue(s);
      assert v / 10 == DigitsValue(init);
      assert v % 10 == DigitValue(s[|s| - 1]);
      PadDigitsOfValue(init);
      assert s == init + [s[|s| - 1]];
    }
  }
}
