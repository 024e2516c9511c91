/** Sequence and string helpers standing in for the `str` methods the crate
    calls: `starts_with`, `ends_with`, `find`, `rfind`, `replace`, `contains`,
    and the decimal `to_string` of an unsigned integer. They are generic over
    the element type, so the same helpers serve text and bytes. */
module Strings {
  import opened Wrappers

  predicate StartsWith<T(==)>(s: seq<T>, p: seq<T>) {
    |p| <= |s| && s[..|p|] == p
  }

  predicate EndsWith<T(==)>(s: seq<T>, p: seq<T>) {
    |p| <= |s| && s[|s| - |p|..] == p
  }

  lemma StartsWithTrans<T>(a: seq<T>, b: seq<T>, c: seq<T>)
    requires StartsWith(a, b) && StartsWith(b, c)
    ensures StartsWith(a, c)
  {
    assert a[..|c|] == a[..|b|][..|c|];
  }

  lemma PrefixOfConcat<T>(a: seq<T>, b: seq<T>)
    ensures StartsWith(a + b, a)
  {
    assert (a + b)[..|a|] == a;
  }

  lemma SuffixOfConcat<T>(a: seq<T>, b: seq<T>)
    ensures EndsWith(a + b, b)
  {
    assert (a + b)[|a + b| - |b|..] == b;
  }

  lemma EndsWithTrans<T>(a: seq<T>, b: seq<T>, c: seq<T>)
    requires EndsWith(a, b) && EndsWith(b, c)
    ensures EndsWith(a, c)
  {
    assert a[|a| - |c|..] == a[|a| - |b|..][|b| - |c|..];
  }

  /** `p` occurs in `s` starting at index `i`. */
  predicate OccursAt<T(==)>(s: seq<T>, p: seq<T>, i: int) {
    0 <= i && i + |p| <= |s| && s[i..i + |p|] == p
  }

  predicate Contains<T(==)>(s: seq<T>, p: seq<T>) {
    exists i | 0 <= i <= |s| - |p| :: OccursAt(s, p, i)
  }

  lemma OccursInMiddle<T>(a: seq<T>, p: seq<T>, b: seq<T>)
    ensures OccursAt(a + p + b, p, |a|)
  {
    assert (a + p + b)[|a|..|a| + |p|] == p;
  }

  /** An occurrence survives appending and prepending. */
  lemma OccursAtExtend<T>(s: seq<T>, p: seq<T>, i: int, t: seq<T>)
    requires OccursAt(s, p, i)
    ensures OccursAt(s + t, p, i) && OccursAt(t + s, p, |t| + i)
  {
    assert (s + t)[i..i + |p|] == s[i..i + |p|];
    assert (t + s)[|t| + i..|t| + i + |p|] == s[i..i + |p|];
  }

  /** The concatenation of `parts`, in order. */
  function Join<T>(parts: seq<seq<T>>): seq<T>
  {
    if |parts| == 0 then [] else parts[0] + Join(parts[1..])
  }

  /** Part `k` sits in the concatenation right after the parts before it. */
  lemma {:induction false} JoinPartAt<T>(parts: seq<seq<T>>, k: nat)
    requires k < |parts|
    ensures OccursAt(Join(parts), parts[k], |Join(parts[..k])|)
  {
    if k == 0 {
      assert parts[..0] == [];
      OccursInMiddle([], parts[0], Join(parts[1..]));
      assert [] + parts[0] + Join(parts[1..]) == Join(parts);
    } else {
      JoinPartAt(parts[1..], k - 1);
      OccursAtExtend(Join(parts[1..]), parts[k], |Join(parts[1..][..k - 1])|, parts[0]);
      assert parts[..k][1..] == parts[1..][..k - 1];
    }
  }

  /** The concatenation ends with the last part. */
  lemma {:induction false} JoinEndsWithLast<T>(parts: seq<seq<T>>)
    requires |parts| > 0
    ensures EndsWith(Join(parts), parts[|parts| - 1])
  {
    if |parts| == 1 {
      assert Join(parts) == parts[0] + [];
    } else {
      JoinEndsWithLast(parts[1..]);
      var j := Join(parts[1..]);
      var l := parts[|parts| - 1];
      assert (parts[0] + j)[|parts[0] + j| - |l|..] == j[|j| - |l|..];
    }
  }

  /** First occurrence of `p` in `s` at or after `from` (`str::find` when `from == 0`). */
  function FindFrom<T(==)>(s: seq<T>, p: seq<T>, from: nat): (r: Option<nat>)
    ensures r.Some? ==> from <= r.value && OccursAt(s, p, r.value)
    ensures r.Some? ==> forall j | from <= j < r.value :: !OccursAt(s, p, j)
    ensures r.None? ==> forall j | from <= j :: !OccursAt(s, p, j)
    decreases |s| - from
  {
    if from + |p| > |s| then None
    else if s[from..from + |p|] == p then Some(from)
    else FindFrom(s, p, from + 1)
  }

  function Find<T(==)>(s: seq<T>, p: seq<T>): (r: Option<nat>)
    ensures r.Some? ==> OccursAt(s, p, r.value)
    ensures r.Some? ==> forall j | 0 <= j < r.value :: !OccursAt(s, p, j)
    ensures r.None? ==> forall j :: !OccursAt(s, p, j)
  {
    FindFrom(s, p, 0)
  }

  /** Last occurrence of `p` in `s` that starts before `bound` (`str::rfind` when `bound == |s| + 1`). */
  function RFindBefore<T(==)>(s: seq<T>, p: seq<T>, bound: nat): (r: Option<nat>)
    ensures r.Some? ==> r.value < bound && OccursAt(s, p, r.value)
    ensures r.Some? ==> forall j | r.value < j < bound :: !OccursAt(s, p, j)
    ensures r.None? ==> forall j | 0 <= j < bound :: !OccursAt(s, p, j)
  {
    if bound == 0 then None
    else if OccursAt(s, p, bound - 1) then Some(bound - 1)
    else RFindBefore(s, p, bound - 1)
  }

  function RFind<T(==)>(s: seq<T>, p: seq<T>): (r: Option<nat>)
    ensures r.Some? ==> OccursAt(s, p, r.value)
    ensures r.Some? ==> forall j | r.value < j :: !OccursAt(s, p, j)
    ensures r.None? ==> forall j :: !OccursAt(s, p, j)
  {
    RFindBefore(s, p, |s| + 1)
  }

  /** `s` with every occurrence of the element `c` deleted (`str::replace(c, "")`
      for one character). A single element is kept exactly when it is not
      `c`; with `RemoveAllConcat` (deleting distributes over concatenation)
      this fixes the order of what is kept, and `RemoveAllCounts` its
      multiplicities. */
  function RemoveAll<T(==)>(s: seq<T>, c: T): (r: seq<T>)
    ensures forall i | 0 <= i < |r| :: r[i] != c
    ensures forall x | x in r :: x in s && x != c
    ensures forall x | x in s && x != c :: x in r
    ensures |s| == 1 ==> r == (if s[0] == c then [] else s)
    ensures c !in s ==> r == s
  {
    if |s| == 0 then []
    else if s[0] == c then RemoveAll(s[1..], c)
    else [s[0]] + RemoveAll(s[1..], c)
  }

  /** Every element other than `c` is kept as often as it occurs. */
  lemma {:induction false} RemoveAllCounts<T>(s: seq<T>, c: T)
    ensures multiset(RemoveAll(s, c)) == multiset(s)[c := 0]
    ensures |RemoveAll(s, c)| == |s| - multiset(s)[c]
  {
    if |s| > 0 {
      assert s == [s[0]] + s[1..];
      RemoveAllCounts(s[1..], c);
    }
  }

  lemma {:induction false} RemoveAllConcat<T>(a: seq<T>, b: seq<T>, c: T)
    ensures RemoveAll(a + b, c) == RemoveAll(a, c) + RemoveAll(b, c)
  {
    if |a| == 0 {
      assert a + b == b;
    } else {
      assert (a + b)[1..] == a[1..] + b;
      RemoveAllConcat(a[1..], b, c);
    }
  }

  /** `s.replace(p, "")`: the non-overlapping occurrences of `p`, found left
      to right, are deleted. An empty pattern leaves `s` unchanged. */
  function RemoveOccurrences<T(==)>(s: seq<T>, p: seq<T>): (r: seq<T>)
    ensures |r| <= |s|
    ensures !Contains(s, p) ==> r == s
    decreases |s|
  {
    if |p| == 0 || |s| == 0 then s
    else if StartsWith(s, p) then
      assert OccursAt(s, p, 0);
      RemoveOccurrences(s[|p|..], p)
    else
      assert !Contains(s, p) ==> !Contains(s[1..], p) by {
        forall i | 0 <= i <= |s[1..]| - |p| && OccursAt(s[1..], p, i)
          ensures OccursAt(s, p, i + 1)
        {
          assert s[1..][i..i + |p|] == s[i + 1..i + 1 + |p|];
        }
      }
      [s[0]] + RemoveOccurrences(s[1..], p)
  }

  // ---------------------------------------------------------------------
  // Decimal numbers

  predicate IsDigit(c: char) {
    '0' <= c <= '9'
  }

  function DigitChar(d: nat): (c: char)
    requires d < 10
    ensures IsDigit(c)
  {
    ['0', '1', '2', '3', '4', '5', '6', '7', '8', '9'][d]
  }

  function DigitValue(c: char): (d: nat)
    requires IsDigit(c)
    ensures d < 10
  {
    (c as int - '0' as int) as nat
  }

  /** Value of a run of decimal digits, most significant first. */
  function DecimalValue(s: string): nat
    requires forall i | 0 <= i < |s| :: IsDigit(s[i])
  {
    if |s| == 0 then 0 else DecimalValue(s[..|s| - 1]) * 10 + DigitValue(s[|s| - 1])
  }

  /** Decimal rendering of a natural number without leading zeros
      (`u32::to_string`, `usize::to_string`). */
  function NatToString(n: nat): (s: string)
    ensures |s| >= 1
    ensures forall i | 0 <= i < |s| :: IsDigit(s[i])
    ensures |s| > 1 ==> s[0] != '0'
  {
    if n < 10 then [DigitChar(n)] else NatToString(n / 10) + [DigitChar(n % 10)]
  }

  lemma DigitRoundTrip(d: nat)
    requires d < 10
    ensures DigitValue(DigitChar(d)) == d
  {
  }

  /** Reading the decimal rendering back gives the number again, so distinct
      numbers render as distinct strings. */
  lemma {:induction false} NatToStringRoundTrip(n: nat)
    ensures DecimalValue(NatToString(n)) == n
  {
    var s := NatToString(n);
    if n < 10 {
      DigitRoundTrip(n);
    } else {
      NatToStringRoundTrip(n / 10);
      DigitRoundTrip(n % 10);
      assert s[..|s| - 1] == NatToString(n / 10);
    }
  }

  /** Length of the run of digits that starts `s`. */
  function DigitRunLength(s: string): (n: nat)
    ensures n <= |s|
  {
    if |s| == 0 || !IsDigit(s[0]) then 0 else 1 + DigitRunLength(s[1..])
  }

  lemma {:induction false} DigitRunLengthOf(a: string, x: string)
    requires forall i | 0 <= i < |a| :: IsDigit(a[i])
    requires |x| > 0 && !IsDigit(x[0])
    ensures DigitRunLength(a + x) == |a|
  {
    if |a| == 0 {
      assert a + x == x;
    } else {
      assert (a + x)[1..] == a[1..] + x;
      DigitRunLengthOf(a[1..], x);
    }
  }

  /** A run of digits followed by a non-digit is determined by the text it
      starts: two such splits of the same text agree. */
  lemma DigitRunUnique(a: string, x: string, b: string, y: string)
    requires forall i | 0 <= i < |a| :: IsDigit(a[i])
    requires forall i | 0 <= i < |b| :: IsDigit(b[i])
    requires |x| > 0 && !IsDigit(x[0]) && |y| > 0 && !IsDigit(y[0])
    requires a + x == b + y
    ensures a == b && x == y
  {
    DigitRunLengthOf(a, x);
    DigitRunLengthOf(b, y);
    assert a == (a + x)[..|a|] && b == (b + y)[..|b|];
    assert x == (a + x)[|a|..] && y == (b + y)[|b|..];
  }

  lemma NatToStringInjective(m: nat, n: nat)
    requires NatToString(m) == NatToString(n)
    ensures m == n
  {
    NatToStringRoundTrip(m);
    NatToStringRoundTrip(n);
  }
}
