/** `parse_next_rid_from_rels`: one more than the largest relationship id
    number written as `Id="rIdN"` in a relationship part, or 1 when there is
    none. The pattern `Id="(rId\d+)"` is matched by hand on the bytes of the
    part; its text is ASCII, so matching bytes and matching characters of
    valid UTF-8 agree. */
module RelIds {
  import opened Wrappers
  import opened Bytes
  import opened Strings

  /** The bytes of `Id="rId`. */
  const IdOpen: seq<byte> := [73, 100, 61, 34, 114, 73, 100]

  const Quote: byte := 34

  /** Ids larger than this do not parse as `u32` and are skipped. */
  const U32Max: nat := 0xFFFF_FFFF

  predicate IsDigitByte(b: byte) {
    48 <= b <= 57
  }

  /** Index of the first non-digit at or after `i` (or `|b|`). */
  function DigitRunEnd(b: seq<byte>, i: nat): (e: nat)
    requires i <= |b|
    ensures i <= e <= |b|
    ensures forall k | i <= k < e :: IsDigitByte(b[k])
    ensures e < |b| ==> !IsDigitByte(b[e])
    decreases |b| - i
  {
    if i == |b| || !IsDigitByte(b[i]) then i else DigitRunEnd(b, i + 1)
  }

  /** Value of a run of ASCII digits (`str::parse::<u32>` before the range check). */
  function DigitsValue(d: seq<byte>): nat
    requires forall k | 0 <= k < |d| :: IsDigitByte(d[k])
  {
    if |d| == 0 then 0
    else
      assert IsDigitByte(d[|d| - 1]);
      DigitsValue(d[..|d| - 1]) * 10 + (d[|d| - 1] as int - 48) as nat
  }

  /** The id number of a match of `Id="rId<digits>"` that starts at `p`, if
      one starts there and its number fits in a `u32`. */
  function IdAt(b: seq<byte>, p: nat): Option<nat>
  {
    if !OccursAt(b, IdOpen, p) then None
    else
      var d0 := p + |IdOpen|;
      var e := DigitRunEnd(b, d0);
      if e == d0 || e == |b| || b[e] != Quote then None
      else
        var v := DigitsValue(b[d0..e]);
        if v <= U32Max then Some(v) else None
  }

  /** Largest id at a match starting at or after `p`, or 0 when there is none. */
  function MaxIdFrom(b: seq<byte>, p: nat): (m: nat)
    ensures forall q | p <= q && IdAt(b, q).Some? :: IdAt(b, q).value <= m
    ensures m == 0 || exists q | p <= q :: IdAt(b, q) == Some(m)
    decreases |b| - p
  {
    if p >= |b| then
      assert forall q | p <= q :: !OccursAt(b, IdOpen, q);
      0
    else
      var rest := MaxIdFrom(b, p + 1);
      match IdAt(b, p)
      case Some(v) => if v > rest then v else rest
      case None => rest
  }

  /** The next free id number: larger than every id present, and either 1
      or exactly one more than an id present. */
  function ParseNextRid(b: seq<byte>): (r: nat)
    ensures r >= 1
    ensures forall q | IdAt(b, q).Some? :: IdAt(b, q).value < r
    ensures r == 1 || exists q :: IdAt(b, q) == Some(r - 1)
  {
    MaxIdFrom(b, 0) + 1
  }

  /** Two matches never overlap, so matching left to right without overlap
      (as `captures_iter` does) finds every match `IdAt` describes. */
  lemma MatchesDoNotOverlap(b: seq<byte>, p: nat, q: nat)
    requires IdAt(b, p).Some? && p < q
    requires q <= DigitRunEnd(b, p + |IdOpen|)
    ensures IdAt(b, q).None?
  {
    var d0 := p + |IdOpen|;
    var e := DigitRunEnd(b, d0);
    assert b[p..p + |IdOpen|] == IdOpen;
    if q < d0 {
      if q - p == 5 {
        assert b[q + 2] == b[d0];
      } else {
        assert b[q] == IdOpen[q - p];
      }
    } else if q < e {
      assert IsDigitByte(b[q]);
    } else {
      assert b[q] == Quote;
    }
  }
}
