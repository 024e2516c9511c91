/** `write_row_with_merge_fixed`: one expanded table row, written from the
    row template. Every tag of the template is written again; the `n`-th
    cell (`w:tc`, counted from 0) gets the cell properties
    `<w:tcPr><w:vMerge w:val="…"/></w:tcPr>` of the `n`-th directive right
    after its start tag; every text is rendered for the row's record,
    except inside a cell that continues a merge, whose texts are dropped
    up to that cell's end tag. */
module RowWriter {
  import opened Wrappers
  import opened Strings
  import opened Constants
  import opened Json
  import opened Events
  import opened Engine
  import opened Merge

  /** The loop state: index of the last cell started (-1 before the first),
      whether a cell is open, and whether that cell continues a merge. */
  datatype CellState = CellState(tcIndex: int, inTc: bool, isContinue: bool)

  const Initial: CellState := CellState(-1, false, false)

  /** `merge_info.get(idx)`, flattened: `None` past the end. */
  function DirectiveAt(info: seq<Option<Directive>>, idx: int): (d: Option<Directive>)
    ensures d.Some? ==> 0 <= idx < |info|
  {
    if 0 <= idx < |info| then info[idx] else None
  }

  /** `<w:vMerge w:val="restart"/>` or `<w:vMerge w:val="continue"/>`. */
  function MergeTag(d: Directive): string {
    "<" + XmlTableMergeTag + "=\"" + (if d == Restart then MergeTypeRestart else MergeTypeContinue) + "\"/>"
  }

  /** The cell properties written after the start tag of a cell with a
      directive: the `w:tcPr` tags through the writer, the `w:vMerge`
      element straight to the output. */
  function MergeProps(d: Option<Directive>): seq<Out> {
    if d.None? then []
    else [Ev(Start(XmlTableCellProperties, "")), Raw(MergeTag(d.value)), Ev(End(XmlTableCellProperties))]
  }

  /** One template event. */
  function WriteEvent(env: Env, rowIndex: nat, item: Record, info: seq<Option<Directive>>,
                      st: State, cs: CellState, e: Event): (r: (Emitted, CellState))
    ensures Accounted(st, r.0.st, r.0.out)
  {
    match e
    case Start(name, _) =>
      if name == XmlTableCell then
        var idx := cs.tcIndex + 1;
        var d := DirectiveAt(info, idx);
        var out := [Ev(e)] + MergeProps(d);
        MarkupProps(e, d);
        (Emitted(out, st), CellState(idx, true, cs.isContinue || d == Some(Continue)))
      else
        assert Drawings([Ev(e)]) == 0;
        (Emitted([Ev(e)], st), cs)
    case Text(t) =>
      if cs.inTc && cs.isContinue then (Emitted([], st), cs)
      else (RenderText(env, st, env.ext.replaceInTable(rowIndex, t, item)), cs)
    case End(name) =>
      assert Drawings([Ev(e)]) == 0;
      (Emitted([Ev(e)], st), if name == XmlTableCell then cs.(inTc := false, isContinue := false) else cs)
    case Other(_) =>
      assert Drawings([Ev(e)]) == 0;
      (Emitted([Ev(e)], st), cs)
  }

  /** The template from position `k` on, in state `cs`. Every picture written
      is accounted for by one new relationship. */
  function WriteRowFrom(env: Env, rowIndex: nat, item: Record, info: seq<Option<Directive>>,
                        template: seq<Event>, k: nat, st: State, cs: CellState): (r: Emitted)
    requires k <= |template|
    ensures Accounted(st, r.st, r.out)
    decreases |template| - k
  {
    if k == |template| then
      AccountedNothing(st);
      Emitted([], st)
    else
      var (em, cs') := WriteEvent(env, rowIndex, item, info, st, cs, template[k]);
      var rest := WriteRowFrom(env, rowIndex, item, info, template, k + 1, em.st, cs');
      AccountedTrans(st, em.st, rest.st, em.out, rest.out);
      Emitted(em.out + rest.out, rest.st)
  }

  /** `write_row_with_merge_fixed` for row `rowIndex`, its record `item` and
      its directives `info`. */
  function WriteRow(env: Env, rowIndex: nat, item: Record, info: seq<Option<Directive>>,
                    template: seq<Event>, st: State): (r: Emitted)
    ensures Accounted(st, r.st, r.out)
  {
    WriteRowFrom(env, rowIndex, item, info, template, 0, st, Initial)
  }

  // ---------------------------------------------------------------------
  // Reference definitions

  /** Number of cells started before position `k`. */
  function CellsBefore(template: seq<Event>, k: nat): nat
    requires k <= |template|
  {
    CountStarts(template[..k], XmlTableCell)
  }

  /** No cell end tag at positions `a..b`. */
  predicate NoCellEnd(template: seq<Event>, a: nat, b: nat)
    requires a <= b <= |template|
  {
    forall m | a <= m < b :: !IsEndOf(template[m], XmlTableCell)
  }

  /** Position `k` lies inside a cell that continues a merge: some cell
      whose directive is "continue" started before `k`, and no cell has
      ended since. */
  predicate InContinuedCell(template: seq<Event>, info: seq<Option<Directive>>, k: nat)
    requires k <= |template|
  {
    exists s | 0 <= s < k ::
      && IsStartOf(template[s], XmlTableCell)
      && DirectiveAt(info, CellsBefore(template, s)) == Some(Continue)
      && NoCellEnd(template, s + 1, k)
  }

  /** The rendered values of the texts at positions `k..` that are not in a
      continued cell, in template order. */
  function Visible(ext: ValueExt.ValueExt, rowIndex: nat, item: Record, info: seq<Option<Directive>>,
                   template: seq<Event>, k: nat): seq<string>
    requires k <= |template|
    decreases |template| - k
  {
    if k == |template| then []
    else
      (if template[k].Text? && !InContinuedCell(template, info, k)
       then [ext.replaceInTable(rowIndex, template[k].content, item)] else [])
      + Visible(ext, rowIndex, item, info, template, k + 1)
  }

  /** The values that are written as text (the others are base64 images). */
  function NonImages(vs: seq<string>): seq<string> {
    if |vs| == 0 then [] else (if IsBase64Image(vs[0]) then [] else [vs[0]]) + NonImages(vs[1..])
  }

  /** Number of values that are base64 images. */
  function ImageCount(vs: seq<string>): nat {
    if |vs| == 0 then 0 else (if IsBase64Image(vs[0]) then 1 else 0) + ImageCount(vs[1..])
  }

  /** The markup of a row: every non-text template event in order, and after
      the start tag of the `n`-th cell the properties of the `n`-th
      directive. */
  function ExpectedMarkup(template: seq<Event>, info: seq<Option<Directive>>, n: nat): seq<Out>
  {
    if |template| == 0 then []
    else
      var e := template[0];
      if e.Text? then ExpectedMarkup(template[1..], info, n)
      else if IsStartOf(e, XmlTableCell) then [Ev(e)] + MergeProps(DirectiveAt(info, n)) + ExpectedMarkup(template[1..], info, n + 1)
      else [Ev(e)] + ExpectedMarkup(template[1..], info, n)
  }

  // ---------------------------------------------------------------------
  // The loop state against the reference definitions

  /** The loop state at position `k`: the cell index counts the cells
      started so far, the continue flag says whether `k` is in a continued
      cell, and that flag is only set inside a cell. */
  predicate StateAt(template: seq<Event>, info: seq<Option<Directive>>, k: nat, cs: CellState)
    requires k <= |template|
  {
    && cs.tcIndex == CellsBefore(template, k) - 1
    && cs.isContinue == InContinuedCell(template, info, k)
    && (cs.isContinue ==> cs.inTc)
  }

  lemma CellsBeforeNext(template: seq<Event>, k: nat)
    requires k < |template|
    ensures CellsBefore(template, k + 1)
            == CellsBefore(template, k) + (if IsStartOf(template[k], XmlTableCell) then 1 else 0)
  {
    assert template[..k + 1] == template[..k] + [template[k]];
    CountStartsConcat(template[..k], [template[k]], XmlTableCell);
  }

  /** How being in a continued cell changes over one event: a cell end
      closes it, the start of a continued cell opens it, and anything else
      leaves it as it was. */
  lemma InContinuedCellNext(template: seq<Event>, info: seq<Option<Directive>>, k: nat)
    requires k < |template|
    ensures InContinuedCell(template, info, k + 1) <==>
              if IsEndOf(template[k], XmlTableCell) then false
              else if IsStartOf(template[k], XmlTableCell)
                      && DirectiveAt(info, CellsBefore(template, k)) == Some(Continue) then true
              else InContinuedCell(template, info, k)
  {
    var e := template[k];
    if IsEndOf(e, XmlTableCell) {
      forall s | 0 <= s < k + 1 && IsStartOf(template[s], XmlTableCell)
        ensures !NoCellEnd(template, s + 1, k + 1)
      {
        assert s + 1 <= k;
      }
    } else if IsStartOf(e, XmlTableCell) && DirectiveAt(info, CellsBefore(template, k)) == Some(Continue) {
      assert NoCellEnd(template, k + 1, k + 1);
    } else {
      if InContinuedCell(template, info, k) {
        var s :| 0 <= s < k && IsStartOf(template[s], XmlTableCell)
                 && DirectiveAt(info, CellsBefore(template, s)) == Some(Continue)
                 && NoCellEnd(template, s + 1, k);
        assert NoCellEnd(template, s + 1, k + 1);
      }
      if InContinuedCell(template, info, k + 1) {
        var s :| 0 <= s < k + 1 && IsStartOf(template[s], XmlTableCell)
                 && DirectiveAt(info, CellsBefore(template, s)) == Some(Continue)
                 && NoCellEnd(template, s + 1, k + 1);
        assert s < k;
        assert NoCellEnd(template, s + 1, k);
      }
    }
  }

  /** One event keeps the loop state in line with the reference definitions. */
  lemma WriteEventState(env: Env, rowIndex: nat, item: Record, info: seq<Option<Directive>>,
                        template: seq<Event>, k: nat, st: State, cs: CellState)
    requires k < |template| && StateAt(template, info, k, cs)
    ensures StateAt(template, info, k + 1, WriteEvent(env, rowIndex, item, info, st, cs, template[k]).1)
  {
    CellsBeforeNext(template, k);
    InContinuedCellNext(template, info, k);
  }

  lemma InitialState(template: seq<Event>, info: seq<Option<Directive>>)
    ensures StateAt(template, info, 0, Initial)
  {
    assert template[..0] == [];
  }

  // ---------------------------------------------------------------------
  // What a row writes

  /** Writes that are all markup are their own markup, with no text and
      no picture. */
  lemma {:induction false} AllMarkup(out: seq<Out>)
    requires forall i | 0 <= i < |out| :: !IsContent(out[i])
    ensures Markup(out) == out && Texts(out) == [] && Drawings(out) == 0
  {
    if |out| > 0 {
      AllMarkup(out[1..]);
    }
  }

  lemma MarkupProps(e: Event, d: Option<Directive>)
    requires !e.Text?
    ensures var out := [Ev(e)] + MergeProps(d);
            Markup(out) == out && Texts(out) == [] && Drawings(out) == 0
  {
    AllMarkup([Ev(e)] + MergeProps(d));
  }

  /** The markup of one event's writes. */
  lemma WriteEventMarkup(env: Env, rowIndex: nat, item: Record, info: seq<Option<Directive>>,
                         template: seq<Event>, k: nat, st: State, cs: CellState)
    requires k < |template| && StateAt(template, info, k, cs)
    ensures var e := template[k];
            var out := WriteEvent(env, rowIndex, item, info, st, cs, e).0.out;
            Markup(out) == if e.Text? then []
                           else if IsStartOf(e, XmlTableCell) then [Ev(e)] + MergeProps(DirectiveAt(info, CellsBefore(template, k)))
                           else [Ev(e)]
  {
    var e := template[k];
    if IsStartOf(e, XmlTableCell) {
      MarkupProps(e, DirectiveAt(info, CellsBefore(template, k)));
    }
  }

  /** The row's markup is the template's markup with the cell properties of
      each directive after its cell's start tag. */
  lemma {:induction false} WriteRowFromMarkup(env: Env, rowIndex: nat, item: Record, info: seq<Option<Directive>>,
                                              template: seq<Event>, k: nat, st: State, cs: CellState)
    requires k <= |template| && StateAt(template, info, k, cs)
    ensures Markup(WriteRowFrom(env, rowIndex, item, info, template, k, st, cs).out)
            == ExpectedMarkup(template[k..], info, CellsBefore(template, k))
    decreases |template| - k
  {
    if k < |template| {
      var (em, cs') := WriteEvent(env, rowIndex, item, info, st, cs, template[k]);
      WriteEventState(env, rowIndex, item, info, template, k, st, cs);
      WriteEventMarkup(env, rowIndex, item, info, template, k, st, cs);
      WriteRowFromMarkup(env, rowIndex, item, info, template, k + 1, em.st, cs');
      var rest := WriteRowFrom(env, rowIndex, item, info, template, k + 1, em.st, cs');
      MarkupConcat(em.out, rest.out);
      CellsBeforeNext(template, k);
      assert template[k..][1..] == template[k + 1..];
    }
  }

  /** The texts of one event's writes. */
  lemma WriteEventTexts(env: Env, rowIndex: nat, item: Record, info: seq<Option<Directive>>,
                        template: seq<Event>, k: nat, st: State, cs: CellState)
    requires k < |template| && StateAt(template, info, k, cs)
    ensures var e := template[k];
            var out := WriteEvent(env, rowIndex, item, info, st, cs, e).0.out;
            var vs := if e.Text? && !InContinuedCell(template, info, k)
                      then [env.ext.replaceInTable(rowIndex, e.content, item)] else [];
            Texts(out) == NonImages(vs) && Drawings(out) <= ImageCount(vs)
  {
    var e := template[k];
    if IsStartOf(e, XmlTableCell) {
      MarkupProps(e, DirectiveAt(info, CellsBefore(template, k)));
    }
  }

  /** The row's texts are its visible rendered values that are not images,
      in template order, and it writes at most one picture per visible
      image value. */
  lemma {:induction false} WriteRowFromTexts(env: Env, rowIndex: nat, item: Record, info: seq<Option<Directive>>,
                                             template: seq<Event>, k: nat, st: State, cs: CellState)
    requires k <= |template| && StateAt(template, info, k, cs)
    ensures var r := WriteRowFrom(env, rowIndex, item, info, template, k, st, cs);
            var vs := Visible(env.ext, rowIndex, item, info, template, k);
            Texts(r.out) == NonImages(vs) && Drawings(r.out) <= ImageCount(vs)
    decreases |template| - k
  {
    if k < |template| {
      var e := template[k];
      var (em, cs') := WriteEvent(env, rowIndex, item, info, st, cs, e);
      WriteEventState(env, rowIndex, item, info, template, k, st, cs);
      WriteEventTexts(env, rowIndex, item, info, template, k, st, cs);
      WriteRowFromTexts(env, rowIndex, item, info, template, k + 1, em.st, cs');
      var rest := WriteRowFrom(env, rowIndex, item, info, template, k + 1, em.st, cs');
      TextsConcat(em.out, rest.out);
      DrawingsConcat(em.out, rest.out);
      var vs := if e.Text? && !InContinuedCell(template, info, k)
                then [env.ext.replaceInTable(rowIndex, e.content, item)] else [];
      var more := Visible(env.ext, rowIndex, item, info, template, k + 1);
      NonImagesConcat(vs, more);
      ImageCountConcat(vs, more);
    }
  }

  lemma {:induction false} NonImagesConcat(a: seq<string>, b: seq<string>)
    ensures NonImages(a + b) == NonImages(a) + NonImages(b)
  {
    if |a| == 0 {
      assert a + b == b;
    } else {
      assert (a + b)[1..] == a[1..] + b;
      NonImagesConcat(a[1..], b);
    }
  }

  lemma {:induction false} ImageCountConcat(a: seq<string>, b: seq<string>)
    ensures ImageCount(a + b) == ImageCount(a) + ImageCount(b)
  {
    if |a| == 0 {
      assert a + b == b;
    } else {
      assert (a + b)[1..] == a[1..] + b;
      ImageCountConcat(a[1..], b);
    }
  }

  /** The whole row: its markup is the template's markup with the merge
      properties injected; its texts are the rendered values outside
      continued cells, images aside; every picture it writes got one new
      relationship. */
  lemma WriteRowContents(env: Env, rowIndex: nat, item: Record, info: seq<Option<Directive>>,
                         template: seq<Event>, st: State)
    ensures var r := WriteRow(env, rowIndex, item, info, template, st);
            var vs := Visible(env.ext, rowIndex, item, info, template, 0);
            && Markup(r.out) == ExpectedMarkup(template, info, 0)
            && Texts(r.out) == NonImages(vs)
            && Drawings(r.out) <= ImageCount(vs)
            && Accounted(st, r.st, r.out)
  {
    InitialState(template, info);
    WriteRowFromMarkup(env, rowIndex, item, info, template, 0, st, Initial);
    WriteRowFromTexts(env, rowIndex, item, info, template, 0, st, Initial);
    assert template[0..] == template;
    assert template[..0] == [];
  }

  /** The rendered value of every text of `s`, in order. */
  function AllValues(ext: ValueExt.ValueExt, rowIndex: nat, item: Record, s: seq<Event>): seq<string> {
    if |s| == 0 then []
    else (if s[0].Text? then [ext.replaceInTable(rowIndex, s[0].content, item)] else [])
         + AllValues(ext, rowIndex, item, s[1..])
  }

  /** Without directives no text is suppressed: the visible values are the
      rendered values of every text of the template. */
  lemma {:induction false} NoDirectivesAllVisible(ext: ValueExt.ValueExt, rowIndex: nat, item: Record,
                                                  info: seq<Option<Directive>>, template: seq<Event>, k: nat)
    requires k <= |template| && forall c | 0 <= c < |info| :: info[c].None?
    ensures Visible(ext, rowIndex, item, info, template, k) == AllValues(ext, rowIndex, item, template[k..])
    decreases |template| - k
  {
    if k < |template| {
      assert !InContinuedCell(template, info, k);
      NoDirectivesAllVisible(ext, rowIndex, item, info, template, k + 1);
      assert template[k..][1..] == template[k + 1..];
    }
  }

  // ---------------------------------------------------------------------
  // All rows: `write_rows_with_merge`

  /** Number of texts in an event sequence. */
  function TextCount(s: seq<Event>): nat {
    if |s| == 0 then 0 else (if s[0].Text? then 1 else 0) + TextCount(s[1..])
  }

  lemma {:induction false} AllValuesLength(ext: ValueExt.ValueExt, rowIndex: nat, item: Record, s: seq<Event>)
    ensures |AllValues(ext, rowIndex, item, s)| == TextCount(s)
  {
    if |s| > 0 {
      AllValuesLength(ext, rowIndex, item, s[1..]);
    }
  }

  /** The value vector of every row: row `i` renders the template's texts for
      record `items[i]` with row index `i`. */
  function RowValues(ext: ValueExt.ValueExt, template: seq<Event>, items: seq<Record>): (vals: seq<seq<string>>)
    ensures |vals| == |items|
  {
    seq(|items|, i requires 0 <= i < |items| => AllValues(ext, i, items[i], template))
  }

  /** All rows have one value per text of the template, so the merge
      directives are the run structure of each column. */
  lemma RowValuesUniform(ext: ValueExt.ValueExt, template: seq<Event>, items: seq<Record>)
    ensures Merge.Uniform(RowValues(ext, template, items), TextCount(template))
  {
    var vals := RowValues(ext, template, items);
    forall i | 0 <= i < |vals|
      ensures |vals[i]| == TextCount(template)
    {
      AllValuesLength(ext, i, items[i], template);
    }
  }

  /** Rows `i..`, row `i` with record `items[i]`, row index `i` and
      directives `info[i]`. */
  function WriteRowsFrom(env: Env, template: seq<Event>, items: seq<Record>, info: seq<seq<Option<Directive>>>,
                         i: nat, st: State): (r: Emitted)
    requires |info| == |items| && i <= |items|
    ensures Accounted(st, r.st, r.out)
    decreases |items| - i
  {
    if i == |items| then
      AccountedNothing(st);
      Emitted([], st)
    else
      var row := WriteRow(env, i, items[i], info[i], template, st);
      var rest := WriteRowsFrom(env, template, items, info, i + 1, row.st);
      AccountedTrans(st, row.st, rest.st, row.out, rest.out);
      Emitted(row.out + rest.out, rest.st)
  }

  /** `write_rows_with_merge`: one row per record, in record order, with the
      merge directives computed from every row's values and its neighbours'. */
  function WriteRows(env: Env, template: seq<Event>, items: seq<Record>, st: State): (r: Emitted)
    ensures Accounted(st, r.st, r.out)
  {
    WriteRowsFrom(env, template, items, Directives(RowValues(env.ext, template, items)), 0, st)
  }

  /** The markup of rows `i..`, one row after the other. */
  function RowsMarkup(template: seq<Event>, info: seq<seq<Option<Directive>>>, i: nat): seq<Out>
    requires i <= |info|
    decreases |info| - i
  {
    if i == |info| then [] else ExpectedMarkup(template, info[i], 0) + RowsMarkup(template, info, i + 1)
  }

  /** The texts of rows `i..`, one row after the other. */
  function RowsTexts(ext: ValueExt.ValueExt, template: seq<Event>, items: seq<Record>,
                     info: seq<seq<Option<Directive>>>, i: nat): seq<string>
    requires |info| == |items| && i <= |items|
    decreases |items| - i
  {
    if i == |items| then []
    else NonImages(Visible(ext, i, items[i], info[i], template, 0)) + RowsTexts(ext, template, items, info, i + 1)
  }

  lemma {:induction false} WriteRowsFromContents(env: Env, template: seq<Event>, items: seq<Record>,
                                                 info: seq<seq<Option<Directive>>>, i: nat, st: State)
    requires |info| == |items| && i <= |items|
    ensures var r := WriteRowsFrom(env, template, items, info, i, st);
            Markup(r.out) == RowsMarkup(template, info, i)
            && Texts(r.out) == RowsTexts(env.ext, template, items, info, i)
    decreases |items| - i
  {
    if i < |items| {
      var row := WriteRow(env, i, items[i], info[i], template, st);
      WriteRowContents(env, i, items[i], info[i], template, st);
      WriteRowsFromContents(env, template, items, info, i + 1, row.st);
      var rest := WriteRowsFrom(env, template, items, info, i + 1, row.st);
      MarkupConcat(row.out, rest.out);
      TextsConcat(row.out, rest.out);
    }
  }

  /** The merge properties add no start tag other than `w:tcPr`. */
  lemma PropsStarts(d: Option<Directive>, name: string)
    requires name != XmlTableCellProperties
    ensures StartsIn(MergeProps(d), name) == 0
  {
    if d.Some? {
      var p := MergeProps(d);
      assert p[1..][1..][1..] == [];
      assert StartsIn(p[1..][1..], name) == 0;
    }
  }

  /** A row's markup holds the template's start tags of any element other
      than `w:tcPr`. */
  lemma {:induction false} ExpectedMarkupStarts(template: seq<Event>, info: seq<Option<Directive>>, n: nat, name: string)
    requires name != XmlTableCellProperties
    ensures StartsIn(ExpectedMarkup(template, info, n), name) == CountStarts(template, name)
  {
    if |template| > 0 {
      var e := template[0];
      if IsStartOf(e, XmlTableCell) {
        ExpectedMarkupStarts(template[1..], info, n + 1, name);
        PropsStarts(DirectiveAt(info, n), name);
        StartsInConcat([Ev(e)], MergeProps(DirectiveAt(info, n)), name);
        StartsInConcat([Ev(e)] + MergeProps(DirectiveAt(info, n)), ExpectedMarkup(template[1..], info, n + 1), name);
      } else if e.Text? {
        ExpectedMarkupStarts(template[1..], info, n, name);
      } else {
        ExpectedMarkupStarts(template[1..], info, n, name);
        StartsInConcat([Ev(e)], ExpectedMarkup(template[1..], info, n), name);
      }
    }
  }

  lemma {:induction false} RowsMarkupStarts(template: seq<Event>, info: seq<seq<Option<Directive>>>, i: nat, name: string)
    requires i <= |info| && name != XmlTableCellProperties
    ensures StartsIn(RowsMarkup(template, info, i), name) == (|info| - i) * CountStarts(template, name)
    decreases |info| - i
  {
    if i < |info| {
      var row := ExpectedMarkup(template, info[i], 0);
      var rest := RowsMarkup(template, info, i + 1);
      RowsMarkupStarts(template, info, i + 1, name);
      ExpectedMarkupStarts(template, info[i], 0, name);
      StartsInConcat(row, rest, name);
      var c := CountStarts(template, name);
      var n := |info| - (i + 1);
      assert (n + 1) * c == c + n * c;
    }
  }

  /** Expansion writes the template once per record: the rows hold `|items|`
      times the template's start tags (in particular its `w:tr` rows), row
      `i` rendering record `items[i]` with row index `i`. */
  lemma WriteRowsContents(env: Env, template: seq<Event>, items: seq<Record>, st: State, name: string)
    requires name != XmlTableCellProperties
    ensures var info := Directives(RowValues(env.ext, template, items));
            var r := WriteRows(env, template, items, st);
            && Markup(r.out) == RowsMarkup(template, info, 0)
            && Texts(r.out) == RowsTexts(env.ext, template, items, info, 0)
            && StartsIn(r.out, name) == |items| * CountStarts(template, name)
  {
    var info := Directives(RowValues(env.ext, template, items));
    var r := WriteRows(env, template, items, st);
    WriteRowsFromContents(env, template, items, info, 0, st);
    RowsMarkupStarts(template, info, 0, name);
    StartsInMarkup(r.out, name);
  }
}
