/** `collect_table_content` and `process_table_row_internal`: everything
    between a table's start tag and its end tag is read and sorted into the
    header rows, the data-row template and the other (non-row) events, and
    the loop key is taken from the first text of a row that opens with
    `{{#`. */
module TableCapture {
  import opened Wrappers
  import opened Strings
  import opened Constants
  import opened Events
  import Placeholder

  // ---------------------------------------------------------------------
  // Loop key

  /** The loop key of a text: when it starts with `{{#`, its prefix up to and
      including the first `}}`. */
  function LoopKey(text: string): (k: Option<string>)
    ensures k.None? <==> !StartsWith(text, LoopStartMarker) || !Contains(text, LoopEndMarker)
    ensures k.Some? ==>
              && StartsWith(text, k.value)
              && StartsWith(k.value, LoopStartMarker)
              && EndsWith(k.value, LoopEndMarker)
              && forall j | 0 <= j < |k.value| - 2 :: !OccursAt(k.value, LoopEndMarker, j)
  {
    if !StartsWith(text, LoopStartMarker) then None
    else
      match Find(text, LoopEndMarker)
      case None => None
      case Some(pos) =>
        assert pos >= 3 by {
          var open := text[..3];
          assert open == LoopStartMarker;
          assert open[0] == '{' && open[1] == '{' && open[2] == '#';
          var close := text[pos..pos + 2];
          assert close == LoopEndMarker;
          assert text[pos] == close[0] == '}';
          assert text[0] == open[0] && text[1] == open[1] && text[2] == open[2];
        }
        var k := text[..pos + 2];
        assert k[pos..pos + 2] == text[pos..pos + 2] by {
          assert |k| == pos + 2 && k[pos] == text[pos] && k[pos + 1] == text[pos + 1];
        }
        forall j | 0 <= j < |k| - 2
          ensures !OccursAt(k, LoopEndMarker, j)
        {
          assert !OccursAt(text, LoopEndMarker, j);
          assert k[j..j + 2] == text[j..j + 2];
        }
        Some(k)
  }

  /** The key is determined by the properties above: a prefix that starts with
      `{{#` and whose only `}}` is its end is the key. */
  lemma LoopKeyUnique(text: string, k: string)
    requires StartsWith(text, k) && StartsWith(k, LoopStartMarker) && EndsWith(k, LoopEndMarker)
    requires forall j | 0 <= j < |k| - 2 :: !OccursAt(k, LoopEndMarker, j)
    ensures LoopKey(text) == Some(k)
  {
    assert StartsWith(text, LoopStartMarker) by {
      assert text[..3] == k[..3];
    }
    var p := |k| - 2;
    assert OccursAt(text, LoopEndMarker, p) by {
      assert text[p..p + 2] == k[p..p + 2];
    }
    var f := Find(text, LoopEndMarker);
    assert f.Some?;
    if f.value < p {
      assert k[f.value..f.value + 2] == text[f.value..f.value + 2];
      assert OccursAt(k, LoopEndMarker, f.value);
    }
    assert f.value == p;
    assert text[..p + 2] == k;
  }

  // ---------------------------------------------------------------------
  // One row

  /** The events of one row, whether any of its texts matches the
      placeholder pattern, the table's loop key after it, and the position
      after the row. */
  datatype RowCapture = RowCapture(events: seq<Event>, hasPlaceholder: bool, key: Option<string>, next: nat)

  /** The loop key of the first text in `input[a..b]`, if there is a text. */
  function FirstTextKey(input: seq<Event>, a: nat, b: nat): Option<string>
    requires b <= |input|
    decreases b - a
  {
    if a >= b then None
    else if input[a].Text? then LoopKey(input[a].content)
    else FirstTextKey(input, a + 1, b)
  }

  /** A text event in `input[a..b]` matches the placeholder pattern. */
  predicate PlaceholderIn(input: seq<Event>, a: nat, b: nat)
    requires b <= |input|
  {
    exists k | a <= k < b :: input[k].Text? && Placeholder.HasPlaceholder(input[k].content)
  }

  /** The `w:tr` start tags minus the end tags in `s`. */
  function Depth(s: seq<Event>): int {
    CountStarts(s, XmlTableRow) - CountEnds(s, XmlTableRow)
  }

  /** The loop state of `process_table_row_internal`: the events kept so
      far, the placeholder flag, the `w:tr` nesting depth, whether no text
      has been seen yet, and the table's loop key. */
  datatype RowState = RowState(acc: seq<Event>, found: bool, depth: nat, firstText: bool, key: Option<string>)

  /** The state a row starts in, after its start tag. */
  function RowStart(start: Event, key: Option<string>): RowState {
    RowState([start], false, 1, true, key)
  }

  /** The end tag that closes the row: the depth falls to zero. */
  predicate ClosesRow(s: RowState, e: Event) {
    IsEndOf(e, XmlTableRow) && s.depth == 1
  }

  /** One event that does not close the row. Tags and other events are
      stored; a `w:tr` tag moves the depth. A text sets the placeholder flag
      when it matches; the first text of the row, while the table has no
      key, yields the key and is stored with every occurrence of the key
      removed. */
  function Step(s: RowState, e: Event): (s': RowState)
    requires s.depth >= 1 && !ClosesRow(s, e)
    ensures s'.depth >= 1 && |s'.acc| == |s.acc| + 1 && s'.acc[..|s.acc|] == s.acc
  {
    match e
    case Start(n, _) =>
      s.(acc := s.acc + [e], depth := if n == XmlTableRow then s.depth + 1 else s.depth)
    case End(n) =>
      s.(acc := s.acc + [e], depth := if n == XmlTableRow then s.depth - 1 else s.depth)
    case Text(t) =>
      var newKey := if s.firstText && s.key.None? then LoopKey(t) else None;
      var stored := if newKey.Some? then Text(RemoveOccurrences(t, newKey.value)) else e;
      RowState(s.acc + [stored], s.found || Placeholder.HasPlaceholder(t), s.depth, false,
               if newKey.Some? then newKey else s.key)
    case Other(_) =>
      s.(acc := s.acc + [e])
  }

  /** `process_table_row_internal` from `pos`: the row ends at the end tag
      that closes it, or at the end of the input, which is not stored. */
  function CaptureRow(input: seq<Event>, pos: nat, s: RowState): (r: RowCapture)
    requires pos <= |input| && s.depth >= 1
    ensures pos <= r.next <= |input|
    ensures |r.events| == |s.acc| + (r.next - pos) && r.events[..|s.acc|] == s.acc
    decreases |input| - pos
  {
    if pos == |input| then RowCapture(s.acc, s.found, s.key, pos)
    else if ClosesRow(s, input[pos]) then RowCapture(s.acc + [input[pos]], s.found, s.key, pos + 1)
    else
      var r := CaptureRow(input, pos + 1, Step(s, input[pos]));
      assert r.events[..|s.acc|] == r.events[..|s.acc| + 1][..|s.acc|];
      r
  }

  // ---------------------------------------------------------------------
  // Properties of one row

  /** `stored` is the event `e` as the row keeps it: unchanged, or a text
      with every occurrence of the loop key removed. */
  predicate StoredAs(stored: Event, e: Event, key: Option<string>) {
    || stored == e
    || (e.Text? && key.Some? && stored == Text(RemoveOccurrences(e.content, key.value)))
  }

  lemma StepStores(s: RowState, e: Event)
    requires s.depth >= 1 && !ClosesRow(s, e)
    ensures var s' := Step(s, e);
            StoredAs(s'.acc[|s.acc|], e, s'.key) && (s.key.Some? ==> s'.key == s.key)
  {
  }

  /** Every event read is stored, in order, except the end of input; the
      only event stored changed is a text that the loop key was removed
      from. */
  lemma {:induction false} CaptureRowCopies(input: seq<Event>, pos: nat, s: RowState)
    requires pos <= |input| && s.depth >= 1
    ensures var r := CaptureRow(input, pos, s);
            forall k | pos <= k < r.next :: StoredAs(r.events[|s.acc| + (k - pos)], input[k], r.key)
    decreases |input| - pos
  {
    if pos < |input| && !ClosesRow(s, input[pos]) {
      var s' := Step(s, input[pos]);
      CaptureRowCopies(input, pos + 1, s');
      CaptureRowKeepsKey(input, pos + 1, s');
      StepStores(s, input[pos]);
      var r := CaptureRow(input, pos + 1, s');
      assert CaptureRow(input, pos, s) == r;
      forall k | pos <= k < r.next
        ensures StoredAs(r.events[|s.acc| + (k - pos)], input[k], r.key)
      {
        if k == pos {
          assert r.events[|s.acc|] == r.events[..|s'.acc|][|s.acc|] == s'.acc[|s.acc|];
        } else {
          assert |s'.acc| + (k - (pos + 1)) == |s.acc| + (k - pos);
        }
      }
    }
  }

  /** Once the table has a key, the row keeps it. */
  lemma {:induction false} CaptureRowKeepsKey(input: seq<Event>, pos: nat, s: RowState)
    requires pos <= |input| && s.depth >= 1
    ensures s.key.Some? ==> CaptureRow(input, pos, s).key == s.key
    decreases |input| - pos
  {
    if pos < |input| && !ClosesRow(s, input[pos]) {
      CaptureRowKeepsKey(input, pos + 1, Step(s, input[pos]));
    }
  }

  /** The row is a data-row template exactly when one of its texts matches the
      placeholder pattern. */
  lemma {:induction false} CaptureRowPlaceholder(input: seq<Event>, pos: nat, s: RowState)
    requires pos <= |input| && s.depth >= 1
    ensures var r := CaptureRow(input, pos, s);
            r.hasPlaceholder <==> s.found || PlaceholderIn(input, pos, r.next)
    decreases |input| - pos
  {
    var r := CaptureRow(input, pos, s);
    if pos < |input| && !ClosesRow(s, input[pos]) {
      CaptureRowPlaceholder(input, pos + 1, Step(s, input[pos]));
      if PlaceholderIn(input, pos, r.next) {
        var k :| pos <= k < r.next && input[k].Text? && Placeholder.HasPlaceholder(input[k].content);
        if k > pos {
          assert PlaceholderIn(input, pos + 1, r.next);
        }
      }
    } else if pos < |input| {
      if PlaceholderIn(input, pos, r.next) {
        var k :| pos <= k < r.next && input[k].Text? && Placeholder.HasPlaceholder(input[k].content);
        assert k == pos;
      }
    }
  }

  /** The key after the row: the one the table had, or else the loop key of
      the row's first text, if the row has a text and none was seen before. */
  lemma {:induction false} CaptureRowKey(input: seq<Event>, pos: nat, s: RowState)
    requires pos <= |input| && s.depth >= 1
    ensures var r := CaptureRow(input, pos, s);
            && (s.key.Some? ==> r.key == s.key)
            && (s.key.None? && s.firstText ==> r.key == FirstTextKey(input, pos, r.next))
            && (s.key.None? && !s.firstText ==> r.key.None?)
    decreases |input| - pos
  {
    CaptureRowKeepsKey(input, pos, s);
    if pos < |input| && !ClosesRow(s, input[pos]) {
      var s' := Step(s, input[pos]);
      CaptureRowKey(input, pos + 1, s');
      CaptureRowKeepsKey(input, pos + 1, s');
    }
  }

  /** A row that stops before the end of the input was closed by its own end
      tag, and between its start and its end the `w:tr` tags balance. */
  lemma {:induction false} CaptureRowBalanced(input: seq<Event>, pos: nat, s: RowState)
    requires pos <= |input| && s.depth >= 1 && Depth(s.acc) == s.depth
    ensures var r := CaptureRow(input, pos, s);
            r.next < |input| ==> r.next > pos && IsEndOf(input[r.next - 1], XmlTableRow)
                                 && Depth(r.events) == 0
    decreases |input| - pos
  {
    if pos < |input| {
      var e := input[pos];
      if ClosesRow(s, e) {
        CountStartsConcat(s.acc, [e], XmlTableRow);
        CountEndsConcat(s.acc, [e], XmlTableRow);
      } else {
        StepKeepsDepth(s, e);
        CaptureRowBalanced(input, pos + 1, Step(s, e));
      }
    }
  }

  /** A step moves the depth as it moves the tag balance of what it stores. */
  lemma StepKeepsDepth(s: RowState, e: Event)
    requires s.depth >= 1 && !ClosesRow(s, e) && Depth(s.acc) == s.depth
    ensures Depth(Step(s, e).acc) == Step(s, e).depth
  {
    var s' := Step(s, e);
    var stored := s'.acc[|s.acc|];
    assert s'.acc == s.acc + [stored];
    assert IsStartOf(stored, XmlTableRow) <==> IsStartOf(e, XmlTableRow);
    assert IsEndOf(stored, XmlTableRow) <==> IsEndOf(e, XmlTableRow);
    CountStartsConcat(s.acc, [stored], XmlTableRow);
    CountEndsConcat(s.acc, [stored], XmlTableRow);
  }

  // ---------------------------------------------------------------------
  // The table

  datatype TableContent = TableContent(
    headerRows: seq<seq<Event>>,
    dataRow: seq<Event>,
    other: seq<Event>,
    key: Option<string>)

  const EmptyContent: TableContent := TableContent([], [], [], None)

  datatype CaptureError =
    /** A `w:tbl` start tag between the rows of a table. */
    | NestedTable
    /** The input ended before the table's end tag. */
    | UnterminatedTable

  /** A captured row is filed: a row with a placeholder replaces the
      template, any other row is appended to the headers. */
  function AddRow(c: TableContent, row: RowCapture): (c': TableContent)
    ensures row.hasPlaceholder ==> c'.dataRow == row.events && c'.headerRows == c.headerRows
    ensures !row.hasPlaceholder ==> c'.headerRows == c.headerRows + [row.events] && c'.dataRow == c.dataRow
    ensures c'.other == c.other && c'.key == row.key
  {
    if row.hasPlaceholder then c.(dataRow := row.events, key := row.key)
    else c.(headerRows := c.headerRows + [row.events], key := row.key)
  }

  /** `collect_table_content` from `pos`, just after the table's start tag,
      with the content gathered so far. The source keeps reading at the end
      of the input (see `CollectAsWritten`); here that case is the error
      `UnterminatedTable`. */
  function CollectFrom(input: seq<Event>, pos: nat, c: TableContent): (r: Result<(TableContent, nat), CaptureError>)
    requires pos <= |input|
    ensures r.Ok? ==> pos < r.value.1 <= |input| && IsEndOf(input[r.value.1 - 1], XmlTable)
    ensures r.Ok? ==> StartsWith(r.value.0.headerRows, c.headerRows)
    ensures r.Ok? ==> StartsWith(r.value.0.other, c.other)
    ensures r.Ok? && c.key.Some? ==> r.value.0.key == c.key
    decreases |input| - pos
  {
    if pos == |input| then Err(UnterminatedTable)
    else
      var e := input[pos];
      if IsStartOf(e, XmlTable) then Err(NestedTable)
      else if IsStartOf(e, XmlTableRow) then
        var row := CaptureRow(input, pos + 1, RowStart(e, c.key));
        CaptureRowKeepsKey(input, pos + 1, RowStart(e, c.key));
        var c' := AddRow(c, row);
        var r := CollectFrom(input, row.next, c');
        if r.Ok? then
          StartsWithTrans(r.value.0.headerRows, c'.headerRows, c.headerRows);
          r
        else r
      else if IsEndOf(e, XmlTable) then Ok((c, pos + 1))
      else
        var c' := c.(other := c.other + [e]);
        var r := CollectFrom(input, pos + 1, c');
        if r.Ok? then
          StartsWithTrans(r.value.0.other, c'.other, c.other);
          r
        else r
  }

  /** The table of the events from `pos`, just after its start tag. */
  function CollectTable(input: seq<Event>, pos: nat): Result<(TableContent, nat), CaptureError>
    requires pos <= |input|
  {
    CollectFrom(input, pos, EmptyContent)
  }

  /** Only non-row events are buffered as other events: no row start tag
      and no table start or end tag. */
  lemma {:induction false} OtherEventsAreNotRows(input: seq<Event>, pos: nat, c: TableContent)
    requires pos <= |input|
    ensures var r := CollectFrom(input, pos, c);
            r.Ok? ==> forall k | |c.other| <= k < |r.value.0.other| ::
                        var e := r.value.0.other[k];
                        !IsStartOf(e, XmlTableRow) && !IsStartOf(e, XmlTable) && !IsEndOf(e, XmlTable)
    decreases |input| - pos
  {
    if pos < |input| {
      var e := input[pos];
      if IsStartOf(e, XmlTableRow) && !IsStartOf(e, XmlTable) {
        var row := CaptureRow(input, pos + 1, RowStart(e, c.key));
        OtherEventsAreNotRows(input, row.next, AddRow(c, row));
      } else if !IsStartOf(e, XmlTable) && !IsEndOf(e, XmlTable) {
        var c' := c.(other := c.other + [e]);
        OtherEventsAreNotRows(input, pos + 1, c');
        var r := CollectFrom(input, pos + 1, c');
        assert CollectFrom(input, pos, c) == r;
        if r.Ok? {
          var o := r.value.0.other;
          forall k | |c.other| <= k < |o|
            ensures !IsStartOf(o[k], XmlTableRow) && !IsStartOf(o[k], XmlTable) && !IsEndOf(o[k], XmlTable)
          {
            if k == |c.other| {
              assert o[..|c'.other|] == c'.other;
              assert o[k] == o[..|c'.other|][k] == e;
            }
          }
        }
      }
    }
  }

  /** Without a `w:tbl` start tag in what follows, the table is never
      rejected as nested. */
  lemma {:induction false} NoNestedWithoutTableStart(input: seq<Event>, pos: nat, c: TableContent)
    requires pos <= |input|
    requires forall k | pos <= k < |input| :: !IsStartOf(input[k], XmlTable)
    ensures CollectFrom(input, pos, c) != Err(NestedTable)
    decreases |input| - pos
  {
    if pos < |input| {
      var e := input[pos];
      if IsStartOf(e, XmlTableRow) {
        var row := CaptureRow(input, pos + 1, RowStart(e, c.key));
        NoNestedWithoutTableStart(input, row.next, AddRow(c, row));
      } else if !IsEndOf(e, XmlTable) {
        NoNestedWithoutTableStart(input, pos + 1, c.(other := c.other + [e]));
      }
    }
  }

  // ---------------------------------------------------------------------
  // The table's top-level items

  /** What the table holds between its tags, item by item: a row, or a single
      event outside every row. */
  datatype Item = RowItem(row: RowCapture) | EventItem(e: Event)

  /** The items from `pos` up to the table's end tag, with the position after
      that tag; `key` is the table's loop key before the first item. */
  function Walk(input: seq<Event>, pos: nat, key: Option<string>): (r: Result<(seq<Item>, nat), CaptureError>)
    requires pos <= |input|
    decreases |input| - pos
  {
    if pos == |input| then Err(UnterminatedTable)
    else
      var e := input[pos];
      if IsStartOf(e, XmlTable) then Err(NestedTable)
      else if IsStartOf(e, XmlTableRow) then
        var row := CaptureRow(input, pos + 1, RowStart(e, key));
        match Walk(input, row.next, row.key)
        case Ok((items, end)) => Ok(([RowItem(row)] + items, end))
        case Err(err) => Err(err)
      else if IsEndOf(e, XmlTable) then Ok(([], pos + 1))
      else
        match Walk(input, pos + 1, key)
        case Ok((items, end)) => Ok(([EventItem(e)] + items, end))
        case Err(err) => Err(err)
  }

  predicate IsTemplate(i: Item) {
    i.RowItem? && i.row.hasPlaceholder
  }

  /** The rows without a placeholder, in order. */
  function HeaderRowsOf(items: seq<Item>): seq<seq<Event>> {
    if |items| == 0 then []
    else (if items[0].RowItem? && !items[0].row.hasPlaceholder then [items[0].row.events] else [])
         + HeaderRowsOf(items[1..])
  }

  /** The events outside every row, in order. */
  function OtherEventsOf(items: seq<Item>): seq<Event> {
    if |items| == 0 then []
    else (if items[0].EventItem? then [items[0].e] else []) + OtherEventsOf(items[1..])
  }

  /** The template the rows leave behind, starting from `dflt`: each row with
      a placeholder replaces it. */
  function LastTemplate(items: seq<Item>, dflt: seq<Event>): seq<Event> {
    if |items| == 0 then dflt
    else LastTemplate(items[1..], if IsTemplate(items[0]) then items[0].row.events else dflt)
  }

  /** The template left behind is that of the last row with a placeholder,
      or `dflt` when no row has one. */
  lemma {:induction false} LastTemplateIsLast(items: seq<Item>, dflt: seq<Event>)
    ensures (forall i | 0 <= i < |items| :: !IsTemplate(items[i])) ==> LastTemplate(items, dflt) == dflt
    ensures (exists i | 0 <= i < |items| :: IsTemplate(items[i])) ==>
              exists i | 0 <= i < |items| :: IsTemplate(items[i]) && LastTemplate(items, dflt) == items[i].row.events
                                             && forall j | i < j < |items| :: !IsTemplate(items[j])
  {
    if |items| > 0 {
      var rest := items[1..];
      var d' := if IsTemplate(items[0]) then items[0].row.events else dflt;
      LastTemplateIsLast(rest, d');
      var t := LastTemplate(items, dflt);
      assert t == LastTemplate(rest, d');
      if forall i | 0 <= i < |items| :: !IsTemplate(items[i]) {
        assert forall i | 0 <= i < |rest| :: !IsTemplate(rest[i]) by {
          forall i | 0 <= i < |rest| ensures !IsTemplate(rest[i]) {
            assert rest[i] == items[i + 1];
          }
        }
      }
      if exists i | 0 <= i < |items| :: IsTemplate(items[i]) {
        if exists i | 0 <= i < |rest| :: IsTemplate(rest[i]) {
          var i :| 0 <= i < |rest| && IsTemplate(rest[i]) && t == rest[i].row.events
                   && forall j | i < j < |rest| :: !IsTemplate(rest[j]);
          assert IsTemplate(items[i + 1]) && t == items[i + 1].row.events;
          forall j | i + 1 < j < |items| ensures !IsTemplate(items[j]) {
            assert items[j] == rest[j - 1];
          }
        } else {
          assert IsTemplate(items[0]);
          forall j | 0 < j < |items| ensures !IsTemplate(items[j]) {
            assert items[j] == rest[j - 1];
          }
          assert t == items[0].row.events;
        }
      }
    }
  }

  /** The table's loop key after the last row, or `dflt` without rows. */
  function LastKey(items: seq<Item>, dflt: Option<string>): Option<string> {
    if |items| == 0 then dflt
    else LastKey(items[1..], if items[0].RowItem? then items[0].row.key else dflt)
  }

  lemma HeaderRowsOfCons(i: Item, items: seq<Item>)
    ensures HeaderRowsOf([i] + items)
            == (if i.RowItem? && !i.row.hasPlaceholder then [i.row.events] else []) + HeaderRowsOf(items)
  {
    assert ([i] + items)[1..] == items;
  }

  lemma OtherEventsOfCons(i: Item, items: seq<Item>)
    ensures OtherEventsOf([i] + items) == (if i.EventItem? then [i.e] else []) + OtherEventsOf(items)
  {
    assert ([i] + items)[1..] == items;
  }

  /** The content a walk's items leave behind, starting from `c`. */
  function Filed(c: TableContent, items: seq<Item>): TableContent {
    TableContent(c.headerRows + HeaderRowsOf(items), LastTemplate(items, c.dataRow),
                 c.other + OtherEventsOf(items), LastKey(items, c.key))
  }

  /** The capture from `pos` with content `c` is what the walk from `pos`
      describes: the errors are the walk's, and the content grows by the
      walk's header rows, template, other events and key. */
  predicate CollectMatchesWalk(input: seq<Event>, pos: nat, c: TableContent)
    requires pos <= |input|
  {
    var w := Walk(input, pos, c.key);
    && (w.Err? ==> CollectFrom(input, pos, c) == Err(w.error))
    && (w.Ok? ==> CollectFrom(input, pos, c) == Ok((Filed(c, w.value.0), w.value.1)))
  }

  /** What the capture files where: the header rows are the rows without a
      placeholder, in order; the template is the last row with one (earlier
      ones are overwritten, see `LastTemplateIsLast`); the other events are
      the events outside every row, in order; and the errors are those of
      the walk. */
  lemma {:induction false} CollectFromItems(input: seq<Event>, pos: nat, c: TableContent)
    requires pos <= |input|
    ensures CollectMatchesWalk(input, pos, c)
    decreases |input| - pos
  {
    if pos < |input| {
      var e := input[pos];
      if IsStartOf(e, XmlTableRow) && !IsStartOf(e, XmlTable) {
        var row := CaptureRow(input, pos + 1, RowStart(e, c.key));
        CollectFromItems(input, row.next, AddRow(c, row));
        CollectRowStep(input, pos, c);
      } else if !IsStartOf(e, XmlTable) && !IsEndOf(e, XmlTable) {
        CollectFromItems(input, pos + 1, c.(other := c.other + [e]));
        CollectEventStep(input, pos, c);
      } else if IsEndOf(e, XmlTable) && !IsStartOf(e, XmlTable) {
        assert c.headerRows + HeaderRowsOf([]) == c.headerRows;
        assert c.other + OtherEventsOf([]) == c.other;
        assert Filed(c, []) == c;
      }
    }
  }

  lemma FiledCons(c: TableContent, i: Item, items: seq<Item>)
    ensures Filed(c, [i] + items)
            == Filed(if i.RowItem? then AddRow(c, i.row) else c.(other := c.other + [i.e]), items)
  {
    var all := [i] + items;
    assert all[1..] == items;
    HeaderRowsOfCons(i, items);
    OtherEventsOfCons(i, items);
  }

  lemma CollectRowStep(input: seq<Event>, pos: nat, c: TableContent)
    requires pos < |input| && IsStartOf(input[pos], XmlTableRow) && !IsStartOf(input[pos], XmlTable)
    requires var row := CaptureRow(input, pos + 1, RowStart(input[pos], c.key));
             CollectMatchesWalk(input, row.next, AddRow(c, row))
    ensures CollectMatchesWalk(input, pos, c)
  {
    var row := CaptureRow(input, pos + 1, RowStart(input[pos], c.key));
    var c' := AddRow(c, row);
    var w := Walk(input, row.next, row.key);
    assert CollectFrom(input, pos, c) == CollectFrom(input, row.next, c');
    if w.Ok? {
      FiledCons(c, RowItem(row), w.value.0);
      assert Walk(input, pos, c.key) == Ok(([RowItem(row)] + w.value.0, w.value.1));
    } else {
      assert Walk(input, pos, c.key) == Err(w.error);
    }
  }

  lemma CollectEventStep(input: seq<Event>, pos: nat, c: TableContent)
    requires pos < |input| && !IsStartOf(input[pos], XmlTableRow)
    requires !IsStartOf(input[pos], XmlTable) && !IsEndOf(input[pos], XmlTable)
    requires CollectMatchesWalk(input, pos + 1, c.(other := c.other + [input[pos]]))
    ensures CollectMatchesWalk(input, pos, c)
  {
    var e := input[pos];
    var c' := c.(other := c.other + [e]);
    var w := Walk(input, pos + 1, c.key);
    assert CollectFrom(input, pos, c) == CollectFrom(input, pos + 1, c');
    if w.Ok? {
      FiledCons(c, EventItem(e), w.value.0);
      assert Walk(input, pos, c.key) == Ok(([EventItem(e)] + w.value.0, w.value.1));
    } else {
      assert Walk(input, pos, c.key) == Err(w.error);
    }
  }

  /** `p` is a position the capture reads between rows: the start, or a
      position after an event outside every row or after a whole row. */
  predicate AtTopLevel(input: seq<Event>, pos: nat, key: Option<string>, p: nat)
    requires pos <= |input|
    decreases |input| - pos
  {
    pos == p
    || (pos < |input| && !IsStartOf(input[pos], XmlTable) && !IsEndOf(input[pos], XmlTable)
        && (if IsStartOf(input[pos], XmlTableRow) then
              var row := CaptureRow(input, pos + 1, RowStart(input[pos], key));
              AtTopLevel(input, row.next, row.key, p)
            else AtTopLevel(input, pos + 1, key, p)))
  }

  /** A `w:tbl` start tag between the rows makes the capture fail as a nested
      table, and that is the only way it does. */
  lemma {:induction false} NestedTableIffTopLevelStart(input: seq<Event>, pos: nat, c: TableContent)
    requires pos <= |input|
    ensures CollectFrom(input, pos, c) == Err(NestedTable) <==>
              exists p: nat | p < |input| :: AtTopLevel(input, pos, c.key, p) && IsStartOf(input[p], XmlTable)
    decreases |input| - pos
  {
    if pos < |input| {
      var e := input[pos];
      if IsStartOf(e, XmlTable) {
        assert AtTopLevel(input, pos, c.key, pos);
      } else if IsStartOf(e, XmlTableRow) {
        var row := CaptureRow(input, pos + 1, RowStart(e, c.key));
        NestedTableIffTopLevelStart(input, row.next, AddRow(c, row));
        if CollectFrom(input, pos, c) == Err(NestedTable) {
          var p: nat :| p < |input| && AtTopLevel(input, row.next, row.key, p) && IsStartOf(input[p], XmlTable);
          assert AtTopLevel(input, pos, c.key, p);
        } else {
          forall p: nat | p < |input| && AtTopLevel(input, pos, c.key, p)
            ensures !IsStartOf(input[p], XmlTable)
          {
            if p != pos {
              assert AtTopLevel(input, row.next, row.key, p);
            }
          }
        }
      } else if !IsEndOf(e, XmlTable) {
        NestedTableIffTopLevelStart(input, pos + 1, c.(other := c.other + [e]));
        if CollectFrom(input, pos, c) == Err(NestedTable) {
          var p: nat :| p < |input| && AtTopLevel(input, pos + 1, c.key, p) && IsStartOf(input[p], XmlTable);
          assert AtTopLevel(input, pos, c.key, p);
        } else {
          forall p: nat | p < |input| && AtTopLevel(input, pos, c.key, p)
            ensures !IsStartOf(input[p], XmlTable)
          {
            if p != pos {
              assert AtTopLevel(input, pos + 1, c.key, p);
            }
          }
        }
      } else {
        forall p: nat | p < |input| && AtTopLevel(input, pos, c.key, p)
          ensures !IsStartOf(input[p], XmlTable)
        {
        }
      }
    }
  }

  // ---------------------------------------------------------------------
  // The loop as written: it does not stop at the end of the input

  /** `collect_table_content` as the source reads, counting loop iterations
      against `fuel`; `None` means "has not returned after `fuel`
      iterations". At the end of the input the reader yields `Eof` on every
      read, which the loop stores with the other events before reading
      again: it never returns. (The stored `Eof`s are not modelled, since no
      caller ever sees them.) */
  function CollectAsWritten(input: seq<Event>, pos: nat, c: TableContent, fuel: nat)
    : (r: Option<Result<(TableContent, nat), CaptureError>>)
    requires pos <= |input|
    ensures r.Some? ==> r.value != Err(UnterminatedTable)
    ensures r.Some? && r.value.Ok? ==>
              pos < r.value.value.1 <= |input| && IsEndOf(input[r.value.value.1 - 1], XmlTable)
    decreases fuel
  {
    if fuel == 0 then None
    else if pos == |input| then CollectAsWritten(input, pos, c, fuel - 1)
    else
      var e := input[pos];
      if IsStartOf(e, XmlTable) then Some(Err(NestedTable))
      else if IsStartOf(e, XmlTableRow) then
        var row := CaptureRow(input, pos + 1, RowStart(e, c.key));
        CollectAsWritten(input, row.next, AddRow(c, row), fuel - 1)
      else if IsEndOf(e, XmlTable) then Some(Ok((c, pos + 1)))
      else CollectAsWritten(input, pos + 1, c.(other := c.other + [e]), fuel - 1)
  }

  /** At the end of the input the loop as written spins for ever. */
  lemma {:induction false} AsWrittenSpinsAtEnd(input: seq<Event>, c: TableContent, fuel: nat)
    ensures CollectAsWritten(input, |input|, c, fuel).None?
    decreases fuel
  {
    if fuel > 0 {
      AsWrittenSpinsAtEnd(input, c, fuel - 1);
    }
  }

  /** Whenever the loop as written returns, it returns what `CollectFrom`
      does; so when `CollectFrom` reports an unterminated table, the loop as
      written does not return, however long it runs. */
  lemma {:induction false} AsWrittenAgrees(input: seq<Event>, pos: nat, c: TableContent, fuel: nat)
    requires pos <= |input|
    ensures var w := CollectAsWritten(input, pos, c, fuel);
            w.Some? ==> w.value == CollectFrom(input, pos, c) && w.value != Err(UnterminatedTable)
    ensures CollectFrom(input, pos, c) == Err(UnterminatedTable) ==> CollectAsWritten(input, pos, c, fuel).None?
    decreases fuel
  {
    if fuel > 0 {
      if pos == |input| {
        AsWrittenSpinsAtEnd(input, c, fuel - 1);
      } else {
        var e := input[pos];
        if IsStartOf(e, XmlTableRow) && !IsStartOf(e, XmlTable) {
          var row := CaptureRow(input, pos + 1, RowStart(e, c.key));
          AsWrittenAgrees(input, row.next, AddRow(c, row), fuel - 1);
        } else if !IsStartOf(e, XmlTable) && !IsEndOf(e, XmlTable) {
          AsWrittenAgrees(input, pos + 1, c.(other := c.other + [e]), fuel - 1);
        }
      }
    }
  }

  /** In every other case the loop as written returns within one iteration
      per remaining event. */
  lemma {:induction false} AsWrittenReturns(input: seq<Event>, pos: nat, c: TableContent, fuel: nat)
    requires pos <= |input| && fuel > |input| - pos
    requires CollectFrom(input, pos, c) != Err(UnterminatedTable)
    ensures CollectAsWritten(input, pos, c, fuel) == Some(CollectFrom(input, pos, c))
    decreases fuel
  {
    var e := input[pos];
    if IsStartOf(e, XmlTableRow) && !IsStartOf(e, XmlTable) {
      var row := CaptureRow(input, pos + 1, RowStart(e, c.key));
      AsWrittenReturns(input, row.next, AddRow(c, row), fuel - 1);
    } else if !IsStartOf(e, XmlTable) && !IsEndOf(e, XmlTable) {
      AsWrittenReturns(input, pos + 1, c.(other := c.other + [e]), fuel - 1);
    }
  }

  /** A table cut off after a template row: the loop as written never
      returns, while `CollectTable` reports it. */
  lemma TruncatedTableHangs(fuel: nat)
    ensures var input := [Start(XmlTableRow, ""), Text("[name]")];
            && CollectTable(input, 0) == Err(UnterminatedTable)
            && CollectAsWritten(input, 0, EmptyContent, fuel).None?
  {
    var input := [Start(XmlTableRow, ""), Text("[name]")];
    var s0 := RowStart(input[0], None);
    var s1 := Step(s0, input[1]);
    assert CaptureRow(input, 2, s1).next == 2;
    var row := CaptureRow(input, 1, s0);
    assert row.next == 2;
    assert CollectFrom(input, 2, AddRow(EmptyContent, row)) == Err(UnterminatedTable);
    AsWrittenAgrees(input, 0, EmptyContent, fuel);
  }
}
