/** The vertical-merge directives of `write_rows_with_merge`: for every
    expanded row and every value column, whether the cell starts a vertical
    merge (`w:vMerge w:val="restart"`), continues the merge above it
    (`w:vMerge w:val="continue"`), or is not merged (ECMA-376 Part 1,
    section 17.4.85). The source keeps the codes `MERGE_RESTART` (1) and
    `MERGE_CONTINUE` (0) in an `Option<u32>`; here they are `Directive`s. */
module Merge {
  import opened Wrappers

  datatype Directive = Restart | Continue

  /** `v.get(c)` on an optional row of values. */
  function ValueAt(v: Option<seq<string>>, c: nat): (r: Option<string>)
    ensures r.Some? <==> v.Some? && c < |v.value|
    ensures r.Some? ==> r.value == v.value[c]
  {
    if v.Some? && c < |v.value| then Some(v.value[c]) else None
  }

  /** One column of one row: continue when the column is merging and the
      value above is the same; otherwise restart when the value below is the
      same and not empty; otherwise nothing. Also gives the column's new
      merging flag, which is set exactly when a directive is written. */
  function Decide(merging: bool, prev: Option<string>, cur: string, next: Option<string>)
    : (r: (Option<Directive>, bool))
    ensures r.1 <==> r.0.Some?
    ensures r.0 == Some(Continue) <==> merging && prev == Some(cur)
    ensures r.0 == Some(Restart) <==> !(merging && prev == Some(cur)) && next == Some(cur) && cur != ""
  {
    if merging && prev == Some(cur) then (Some(Continue), true)
    else if next == Some(cur) && cur != "" then (Some(Restart), true)
    else (None, false)
  }

  /** The merging flags start as one `false` per value of the first row. */
  function InitMerging(merging: seq<bool>, k: nat): (m: seq<bool>)
    ensures |merging| == 0 ==> |m| == k && forall c | 0 <= c < k :: !m[c]
    ensures |merging| > 0 ==> m == merging
  {
    if |merging| == 0 then seq(k, _ => false) else merging
  }

  /** The directives of one row and the merging flags after it. */
  datatype RowMerge = RowMerge(info: seq<Option<Directive>>, merging: seq<bool>)

  /** One row: a directive per value, computed for the columns the merging
      flags cover (the loop stops at the first column past them). */
  function DecideRow(merging: seq<bool>, prev: Option<seq<string>>, cur: seq<string>, next: Option<seq<string>>)
    : (r: RowMerge)
    ensures var m := InitMerging(merging, |cur|);
            && |r.info| == |cur| && |r.merging| == |m|
            && (forall c | 0 <= c < |cur| && c < |m| ::
                  (r.info[c], r.merging[c]) == Decide(m[c], ValueAt(prev, c), cur[c], ValueAt(next, c)))
            && (forall c | |m| <= c < |cur| :: r.info[c].None?)
            && (forall c | |cur| <= c < |m| :: r.merging[c] == m[c])
  {
    var m := InitMerging(merging, |cur|);
    RowMerge(
      seq(|cur|, c requires 0 <= c < |cur| =>
        if c < |m| then Decide(m[c], ValueAt(prev, c), cur[c], ValueAt(next, c)).0 else None),
      seq(|m|, c requires 0 <= c < |m| =>
        if c < |cur| then Decide(m[c], ValueAt(prev, c), cur[c], ValueAt(next, c)).1 else m[c]))
  }

  /** The directives of rows `i..` of the rendered values `vals`, given the
      merging flags after row `i - 1`. Each row is compared with the row
      before and the row after it. */
  function DirectivesFrom(vals: seq<seq<string>>, i: nat, merging: seq<bool>)
    : (d: seq<seq<Option<Directive>>>)
    requires i <= |vals|
    ensures |d| == |vals| - i
    ensures forall j | 0 <= j < |d| :: |d[j]| == |vals[i + j]|
    decreases |vals| - i
  {
    if i == |vals| then []
    else
      var prev := if i == 0 then None else Some(vals[i - 1]);
      var next := if i + 1 < |vals| then Some(vals[i + 1]) else None;
      var r := DecideRow(merging, prev, vals[i], next);
      var rest := DirectivesFrom(vals, i + 1, r.merging);
      assert forall j | 1 <= j < 1 + |rest| :: ([r.info] + rest)[j] == rest[j - 1];
      [r.info] + rest
  }

  /** The directives of all rows, one vector per row. */
  function Directives(vals: seq<seq<string>>): (d: seq<seq<Option<Directive>>>)
    ensures |d| == |vals|
    ensures forall i | 0 <= i < |d| :: |d[i]| == |vals[i]|
  {
    DirectivesFrom(vals, 0, [])
  }

  // ---------------------------------------------------------------------
  // Runs of equal values

  /** Every row has `k` values (rows rendered from one template). */
  predicate Uniform(vals: seq<seq<string>>, k: nat) {
    forall i | 0 <= i < |vals| :: |vals[i]| == k
  }

  /** The cell continues a run: the value above is the same, and not empty. */
  predicate InRunAfterFirst(vals: seq<seq<string>>, i: nat, c: nat)
    requires i < |vals| && c < |vals[i]| && (i > 0 ==> c < |vals[i - 1]|)
  {
    i > 0 && vals[i - 1][c] == vals[i][c] && vals[i][c] != ""
  }

  /** The cell has the same non-empty value below it. */
  predicate RunGoesOn(vals: seq<seq<string>>, i: nat, c: nat)
    requires i < |vals| && c < |vals[i]| && (i + 1 < |vals| ==> c < |vals[i + 1]|)
  {
    i + 1 < |vals| && vals[i + 1][c] == vals[i][c] && vals[i][c] != ""
  }

  /** Reference definition: in a maximal run of two or more equal non-empty
      values down a column, the first cell restarts the merge and every
      other cell continues it; every other cell gets nothing. */
  function Expected(vals: seq<seq<string>>, k: nat, i: nat, c: nat): Option<Directive>
    requires Uniform(vals, k) && i < |vals| && c < k
  {
    if InRunAfterFirst(vals, i, c) then Some(Continue)
    else if RunGoesOn(vals, i, c) then Some(Restart)
    else None
  }

  /** The merging flags after row `i - 1`, according to the reference
      definition (none at all before the first row). */
  predicate FlagsAfter(vals: seq<seq<string>>, k: nat, i: nat, merging: seq<bool>)
    requires Uniform(vals, k) && i <= |vals|
  {
    if i == 0 then merging == []
    else |merging| == k && forall c | 0 <= c < k :: merging[c] == Expected(vals, k, i - 1, c).Some?
  }

  /** One column of one row agrees with the reference definition, given that
      the flag agrees with it for the row above. */
  lemma DecideMatches(vals: seq<seq<string>>, k: nat, i: nat, c: nat, m: bool)
    requires Uniform(vals, k) && i < |vals| && c < k
    requires m == (i > 0 && Expected(vals, k, i - 1, c).Some?)
    ensures var prev := if i == 0 then None else Some(vals[i - 1]);
            var next := if i + 1 < |vals| then Some(vals[i + 1]) else None;
            Decide(m, ValueAt(prev, c), vals[i][c], ValueAt(next, c)).0 == Expected(vals, k, i, c)
  {
    if i > 0 {
      assert |vals[i - 1]| == k;
      if m {
        assert vals[i - 1][c] != "";
      }
    }
    if i + 1 < |vals| {
      assert |vals[i + 1]| == k;
    }
  }

  /** Row `i` of the directives is the reference definition's row `i`. */
  predicate RowMatches(row: seq<Option<Directive>>, vals: seq<seq<string>>, k: nat, i: nat)
    requires Uniform(vals, k) && i < |vals|
  {
    |row| == k && forall c | 0 <= c < k :: row[c] == Expected(vals, k, i, c)
  }

  /** One row agrees with the reference definition and leaves the flags the
      reference definition describes. */
  lemma DecideRowMatches(vals: seq<seq<string>>, k: nat, i: nat, merging: seq<bool>)
    requires Uniform(vals, k) && i < |vals| && FlagsAfter(vals, k, i, merging)
    ensures var prev := if i == 0 then None else Some(vals[i - 1]);
            var next := if i + 1 < |vals| then Some(vals[i + 1]) else None;
            var r := DecideRow(merging, prev, vals[i], next);
            && RowMatches(r.info, vals, k, i)
            && FlagsAfter(vals, k, i + 1, r.merging)
  {
    var prev := if i == 0 then None else Some(vals[i - 1]);
    var next := if i + 1 < |vals| then Some(vals[i + 1]) else None;
    var r := DecideRow(merging, prev, vals[i], next);
    var m := InitMerging(merging, |vals[i]|);
    assert |m| == k;
    forall c | 0 <= c < k
      ensures r.info[c] == Expected(vals, k, i, c)
      ensures r.merging[c] == Expected(vals, k, i, c).Some?
    {
      DecideMatches(vals, k, i, c, m[c]);
    }
  }

  /** The state machine computes the reference definition. */
  lemma {:induction false} DirectivesFromClosed(vals: seq<seq<string>>, k: nat, i: nat, merging: seq<bool>)
    requires Uniform(vals, k) && i <= |vals| && FlagsAfter(vals, k, i, merging)
    ensures forall j | 0 <= j < |vals| - i :: RowMatches(DirectivesFrom(vals, i, merging)[j], vals, k, i + j)
    decreases |vals| - i
  {
    if i < |vals| {
      var prev := if i == 0 then None else Some(vals[i - 1]);
      var next := if i + 1 < |vals| then Some(vals[i + 1]) else None;
      var r := DecideRow(merging, prev, vals[i], next);
      DecideRowMatches(vals, k, i, merging);
      DirectivesFromClosed(vals, k, i + 1, r.merging);
      var rest := DirectivesFrom(vals, i + 1, r.merging);
      PrependRow(r.info, rest, vals, k, i);
      DirectivesFromFirst(vals, i, merging);
    }
  }

  lemma DirectivesFromFirst(vals: seq<seq<string>>, i: nat, merging: seq<bool>)
    requires i < |vals|
    ensures var prev := if i == 0 then None else Some(vals[i - 1]);
            var next := if i + 1 < |vals| then Some(vals[i + 1]) else None;
            var r := DecideRow(merging, prev, vals[i], next);
            DirectivesFrom(vals, i, merging) == [r.info] + DirectivesFrom(vals, i + 1, r.merging)
  {
  }

  lemma PrependRow(row: seq<Option<Directive>>, rest: seq<seq<Option<Directive>>>, vals: seq<seq<string>>, k: nat, i: nat)
    requires Uniform(vals, k) && i + |rest| < |vals|
    requires RowMatches(row, vals, k, i)
    requires forall j | 0 <= j < |rest| :: RowMatches(rest[j], vals, k, i + 1 + j)
    ensures var d := [row] + rest;
            forall j | 0 <= j < |d| :: RowMatches(d[j], vals, k, i + j)
  {
    var d := [row] + rest;
    forall j | 0 <= j < |d|
      ensures RowMatches(d[j], vals, k, i + j)
    {
      if j > 0 {
        assert d[j] == rest[j - 1];
      }
    }
  }

  /** For rows rendered from one template, the directives are exactly the
      run structure of each column. */
  lemma DirectivesClosedForm(vals: seq<seq<string>>, k: nat)
    requires Uniform(vals, k)
    ensures var d := Directives(vals);
            forall i, c | 0 <= i < |vals| && 0 <= c < k :: d[i][c] == Expected(vals, k, i, c)
  {
    DirectivesFromClosed(vals, k, 0, []);
    var d := Directives(vals);
    assert d == DirectivesFrom(vals, 0, []);
    forall i, c | 0 <= i < |vals| && 0 <= c < k
      ensures d[i][c] == Expected(vals, k, i, c)
    {
      assert RowMatches(d[i], vals, k, 0 + i);
    }
  }

  /** Cell `(i, c)` of the directives is part of a well-formed vertical
      merge: a continuing cell sits right below a restarting or continuing
      cell with the same value, a restarting cell sits right above a
      continuing cell with the same value, and an empty value is never
      merged. */
  predicate WellFormedAt(d: seq<seq<Option<Directive>>>, vals: seq<seq<string>>, k: nat, i: nat, c: nat)
    requires Uniform(vals, k) && |d| == |vals| && i < |vals| && c < k
    requires forall j | 0 <= j < |d| :: |d[j]| == k
  {
    && (d[i][c] == Some(Continue) ==>
          i > 0 && d[i - 1][c].Some? && vals[i - 1][c] == vals[i][c])
    && (d[i][c] == Some(Restart) ==>
          i + 1 < |vals| && d[i + 1][c] == Some(Continue) && vals[i + 1][c] == vals[i][c])
    && (vals[i][c] == "" ==> d[i][c].None?)
  }

  /** Every cell of the directives is part of a well-formed vertical merge;
      in particular the first row never continues a merge and the last row
      never restarts one. */
  lemma DirectivesWellFormed(vals: seq<seq<string>>, k: nat)
    requires Uniform(vals, k)
    ensures forall i, c | 0 <= i < |vals| && 0 <= c < k :: WellFormedAt(Directives(vals), vals, k, i, c)
  {
    DirectivesClosedForm(vals, k);
    var d := Directives(vals);
    forall i, c | 0 <= i < |vals| && 0 <= c < k
      ensures WellFormedAt(d, vals, k, i, c)
    {
      if i > 0 {
        assert |vals[i - 1]| == k;
        assert d[i - 1][c] == Expected(vals, k, i - 1, c);
      }
      if i + 1 < |vals| {
        assert |vals[i + 1]| == k;
        assert d[i + 1][c] == Expected(vals, k, i + 1, c);
      }
    }
  }

  /** The column `A, A, A, B` gives restart, continue, continue, nothing. */
  lemma RunExample()
    ensures Directives([["A"], ["A"], ["A"], ["B"]])
            == [[Some(Restart)], [Some(Continue)], [Some(Continue)], [None]]
  {
    var vals := [["A"], ["A"], ["A"], ["B"]];
    DirectivesClosedForm(vals, 1);
    var d := Directives(vals);
    assert d[0][0] == Some(Restart);
    assert d[1][0] == Some(Continue);
    assert d[2][0] == Some(Continue);
    assert d[3][0] == None;
    assert d[0] == [Some(Restart)] && d[1] == [Some(Continue)] && d[2] == [Some(Continue)] && d[3] == [None];
  }

  /** A column of empty values gives nothing, although the values agree. */
  lemma EmptyValuesExample()
    ensures Directives([[""], [""]]) == [[None], [None]]
  {
    var empty := [[""], [""]];
    DirectivesClosedForm(empty, 1);
    var e := Directives(empty);
    assert e[0] == [None] && e[1] == [None];
  }
}
