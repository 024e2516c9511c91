/** `process_xml_events` and `process_table`: the single pass over the
    document body. Tables are captured whole and written again, their data
    row expanded once per flattened record when the table's loop key names
    an array; a `w:t` element whose text renders to a base64 image is
    replaced by a picture run; other texts inside `w:t` are rendered with
    `replace`; everything else is copied. The one-event pushback of the
    source is "not consuming the peeked event". */
module Processor {
  import opened Wrappers
  import opened Strings
  import opened Constants
  import opened Json
  import opened Events
  import opened Engine
  import opened TableCapture
  import opened RowWriter
  import Flatten

  // ---------------------------------------------------------------------
  // Tables

  /** Every array element flattened, the records concatenated in order. */
  function FlattenAll(items: seq<Json>): (rs: seq<Record>)
    ensures |rs| >= |items|
  {
    if |items| == 0 then [] else Flatten.Flatten(items[0]) + FlattenAll(items[1..])
  }

  /** The array a table expands over: its loop key is set, names an array in
      the placeholder map, and the table has a data-row template. */
  function Expansion(env: Env, c: TableContent): (r: Option<seq<Json>>)
    ensures r.Some? <==> c.key.Some? && c.key.value in env.placeholders
                         && env.placeholders[c.key.value].Arr? && |c.dataRow| > 0
    ensures r.Some? ==> r.value == env.placeholders[c.key.value].items
  {
    if c.key.Some? && c.key.value in env.placeholders && env.placeholders[c.key.value].Arr? && |c.dataRow| > 0
    then Some(env.placeholders[c.key.value].items)
    else None
  }

  /** The rendered value of a text outside tables' data rows. */
  function Rendered(env: Env, t: string): string {
    env.ext.replace(t, env.placeholders)
  }

  /** The rendered value of every text of `s`, in order. */
  function RenderedValues(env: Env, s: seq<Event>): seq<string> {
    if |s| == 0 then [] else (if s[0].Text? then [Rendered(env, s[0].content)] else []) + RenderedValues(env, s[1..])
  }

  /** Rows written once each with ordinary substitution: every text is
      rendered with `replace` (a base64 image becomes a picture run), every
      other event is copied. The markup is kept, the texts are the rendered
      values that are not images. */
  function WriteHeaders(env: Env, s: seq<Event>, st: State): (r: Emitted)
    ensures Accounted(st, r.st, r.out)
    ensures Markup(r.out) == Markup(Lift(s))
    ensures Texts(r.out) == NonImages(RenderedValues(env, s))
  {
    if |s| == 0 then
      AccountedNothing(st);
      Emitted([], st)
    else
      var head :=
        if s[0].Text? then RenderText(env, st, Rendered(env, s[0].content))
        else
          assert Drawings([Ev(s[0])]) == 0;
          Emitted([Ev(s[0])], st);
      var rest := WriteHeaders(env, s[1..], head.st);
      AccountedTrans(st, head.st, rest.st, head.out, rest.out);
      MarkupConcat(head.out, rest.out);
      TextsConcat(head.out, rest.out);
      MarkupConcat([Ev(s[0])], Lift(s[1..]));
      assert Lift(s) == [Ev(s[0])] + Lift(s[1..]);
      var v := if s[0].Text? then [Rendered(env, s[0].content)] else [];
      NonImagesConcat(v, RenderedValues(env, s[1..]));
      Emitted(head.out + rest.out, rest.st)
  }

  /** The rows of a captured table: when it expands, the header rows
      verbatim and then one row per flattened record; otherwise the header
      rows with ordinary substitution, and the data-row template dropped. */
  function TableRows(env: Env, c: TableContent, st: State): (r: Emitted)
    ensures Accounted(st, r.st, r.out)
  {
    match Expansion(env, c)
    case Some(items) =>
      var rows := WriteRows(env, c.dataRow, FlattenAll(items), st);
      LiftDrawings(Join(c.headerRows));
      DrawingsConcat(Lift(Join(c.headerRows)), rows.out);
      Emitted(Lift(Join(c.headerRows)) + rows.out, rows.st)
    case None => WriteHeaders(env, Join(c.headerRows), st)
  }

  /** `process_table` after capture: a bare `w:tbl` start tag (the original's
      attributes are not kept), the table's non-row events, its rows, and
      the `w:tbl` end tag. */
  function ProcessTable(env: Env, c: TableContent, st: State): (r: Emitted)
    ensures Accounted(st, r.st, r.out)
    ensures |r.out| >= |c.other| + 2
    ensures r.out[0] == Ev(Start(XmlTable, "")) && r.out[|r.out| - 1] == Ev(End(XmlTable))
    ensures r.out[1..|c.other| + 1] == Lift(c.other)
  {
    var rows := TableRows(env, c, st);
    var out := [Ev(Start(XmlTable, ""))] + Lift(c.other) + rows.out + [Ev(End(XmlTable))];
    LiftDrawings([Start(XmlTable, "")] + c.other);
    LiftConcat([Start(XmlTable, "")], c.other);
    DrawingsConcat([Ev(Start(XmlTable, ""))] + Lift(c.other), rows.out);
    DrawingsConcat([Ev(Start(XmlTable, ""))] + Lift(c.other) + rows.out, [Ev(End(XmlTable))]);
    Emitted(out, rows.st)
  }

  /** What a table's rows write: when the table expands, the header rows'
      events verbatim, then the expanded rows (their markup and texts as
      the row writer describes them); otherwise the header rows' markup with
      their rendered texts, and nothing of the data-row template. */
  lemma TableRowsContents(env: Env, c: TableContent, st: State)
    ensures var r := TableRows(env, c, st);
            var headers := Join(c.headerRows);
            match Expansion(env, c)
            case None =>
              && Markup(r.out) == Markup(Lift(headers))
              && Texts(r.out) == NonImages(RenderedValues(env, headers))
            case Some(items) =>
              var records := FlattenAll(items);
              var info := Merge.Directives(RowValues(env.ext, c.dataRow, records));
              && Markup(r.out) == Markup(Lift(headers)) + RowsMarkup(c.dataRow, info, 0)
              && Texts(r.out) == Texts(Lift(headers)) + RowsTexts(env.ext, c.dataRow, records, info, 0)
  {
    var headers := Join(c.headerRows);
    match Expansion(env, c)
    case None =>
    case Some(items) =>
      var rows := WriteRows(env, c.dataRow, FlattenAll(items), st);
      WriteRowsContents(env, c.dataRow, FlattenAll(items), st, XmlTableRow);
      MarkupConcat(Lift(headers), rows.out);
      TextsConcat(Lift(headers), rows.out);
  }

  lemma {:induction false} NoStartsCount(s: seq<Event>, name: string)
    requires forall k | 0 <= k < |s| :: !IsStartOf(s[k], name)
    ensures CountStarts(s, name) == 0
  {
    if |s| > 0 {
      NoStartsCount(s[1..], name);
    }
  }

  /** A captured table is written with its header rows once each and, when
      it expands, the data-row template once per flattened record; when it
      does not, the template is dropped. Counted in `w:tr` start tags. */
  lemma TableRowCount(env: Env, input: seq<Event>, pos: nat, st: State)
    requires pos <= |input| && CollectTable(input, pos).Ok?
    ensures var c := CollectTable(input, pos).value.0;
            var rows := CountStarts(Join(c.headerRows), XmlTableRow);
            StartsIn(ProcessTable(env, c, st).out, XmlTableRow)
            == match Expansion(env, c)
               case None => rows
               case Some(items) => rows + |FlattenAll(items)| * CountStarts(c.dataRow, XmlTableRow)
  {
    var c := CollectTable(input, pos).value.0;
    var headers := Join(c.headerRows);
    OtherEventsAreNotRows(input, pos, EmptyContent);
    NoStartsCount(c.other, XmlTableRow);
    StartsInLift(c.other, XmlTableRow);
    StartsInLift(headers, XmlTableRow);
    var r := TableRows(env, c, st);
    match Expansion(env, c) {
      case None =>
        StartsInMarkup(r.out, XmlTableRow);
        StartsInMarkup(Lift(headers), XmlTableRow);
      case Some(items) =>
        var rows := WriteRows(env, c.dataRow, FlattenAll(items), st);
        WriteRowsContents(env, c.dataRow, FlattenAll(items), st, XmlTableRow);
        StartsInConcat(Lift(headers), rows.out, XmlTableRow);
    }
    var open := [Ev(Start(XmlTable, ""))];
    StartsInConcat(open, Lift(c.other), XmlTableRow);
    StartsInConcat(open + Lift(c.other), r.out, XmlTableRow);
    StartsInConcat(open + Lift(c.other) + r.out, [Ev(End(XmlTable))], XmlTableRow);
  }

  // ---------------------------------------------------------------------
  // The main loop

  /** Inside a `w:t` element; skipping the rest of a `w:t` element whose
      text was replaced by a picture. */
  datatype Flags = Flags(inside: bool, skipping: bool)

  datatype StepResult = StepResult(em: Emitted, next: nat, flags: Flags)

  /** The event after the `w:t` start tag at `pos` is a text whose rendered
      value is a base64 image. */
  predicate PeekImage(env: Env, input: seq<Event>, pos: nat) {
    pos + 1 < |input| && input[pos + 1].Text? && IsBase64Image(Rendered(env, input[pos + 1].content))
  }

  /** One iteration of the loop at `pos`. With `fixed` false this is the
      loop as written: the skip flag is cleared as soon as the picture is
      written and again before the end tag is tested, so the `w:t` end tag
      of a replaced element is written. With `fixed` true the flag is kept
      until that end tag, which is dropped with it. */
  function Step(env: Env, input: seq<Event>, pos: nat, flags: Flags, fixed: bool, st: State)
    : (r: Result<StepResult, CaptureError>)
    requires pos < |input|
    ensures r.Ok? ==> pos < r.value.next <= |input|
    ensures r.Ok? ==> Accounted(st, r.value.em.st, r.value.em.out)
    ensures !fixed && !flags.skipping && r.Ok? ==> !r.value.flags.skipping
  {
    var e := input[pos];
    var copy := Emitted([Ev(e)], st);
    var nothing := Emitted([], st);
    assert Drawings(copy.out) == 0;
    AccountedNothing(st);
    match e
    case Start(name, _) =>
      if name == XmlTable then
        match CollectTable(input, pos + 1)
        case Err(err) => Err(err)
        case Ok((c, next)) => Ok(StepResult(ProcessTable(env, c, st), next, flags))
      else if name == XmlText then
        if flags.skipping then Ok(StepResult(nothing, pos + 1, flags))
        else if PeekImage(env, input, pos) then
          Ok(StepResult(PlaceImage(env, st, Rendered(env, input[pos + 1].content)), pos + 2, Flags(false, fixed)))
        else Ok(StepResult(copy, pos + 1, flags.(inside := true)))
      else Ok(StepResult(copy, pos + 1, flags))
    case Text(t) =>
      if flags.skipping && flags.inside then Ok(StepResult(nothing, pos + 1, flags))
      else if flags.inside then
        var w := [Ev(Text(Rendered(env, t)))];
        assert Drawings(w) == 0;
        Ok(StepResult(Emitted(w, st), pos + 1, flags))
      else Ok(StepResult(copy, pos + 1, flags))
    case End(name) =>
      var flags' := if name == XmlText then Flags(false, false) else flags;
      var skip := if fixed then flags.skipping else flags'.skipping;
      Ok(StepResult(if skip then nothing else copy, pos + 1, flags'))
    case Other(_) => Ok(StepResult(copy, pos + 1, flags))
  }

  /** The loop from `pos` to the end of the input (the reader's `Eof`). Every
      picture written got exactly one new relationship. */
  function ProcessFrom(env: Env, input: seq<Event>, pos: nat, flags: Flags, fixed: bool, st: State)
    : (r: Result<Emitted, CaptureError>)
    requires pos <= |input|
    ensures r.Ok? ==> Accounted(st, r.value.st, r.value.out)
    decreases |input| - pos
  {
    if pos == |input| then
      AccountedNothing(st);
      Ok(Emitted([], st))
    else
      match Step(env, input, pos, flags, fixed, st)
      case Err(err) => Err(err)
      case Ok(s) =>
        match ProcessFrom(env, input, s.next, s.flags, fixed, s.em.st)
        case Err(err) => Err(err)
        case Ok(rest) =>
          AccountedTrans(st, s.em.st, rest.st, s.em.out, rest.out);
          Ok(Emitted(s.em.out + rest.out, rest.st))
  }

  const Fresh: Flags := Flags(false, false)

  /** `process_xml_events` with the end tag of a replaced `w:t` element
      dropped. */
  function ProcessXmlEvents(env: Env, input: seq<Event>, st: State): (r: Result<Emitted, CaptureError>)
    ensures r.Ok? ==> Accounted(st, r.value.st, r.value.out)
  {
    ProcessFrom(env, input, 0, Fresh, true, st)
  }

  /** `process_xml_events` as written, except that tables are captured by
      `TableCapture.CollectTable`, which stops at the end of the input. */
  function ProcessXmlEventsAsWritten(env: Env, input: seq<Event>, st: State): (r: Result<Emitted, CaptureError>)
    ensures r.Ok? ==> Accounted(st, r.value.st, r.value.out)
  {
    ProcessFrom(env, input, 0, Fresh, false, st)
  }

  // ---------------------------------------------------------------------
  // Properties of the main loop

  /** No `w:t` or `w:tbl` start tag at or after `pos`. */
  predicate NoTextOrTableStart(input: seq<Event>, pos: nat) {
    forall k | pos <= k < |input| :: !IsStartOf(input[k], XmlText) && !IsStartOf(input[k], XmlTable)
  }

  /** Outside `w:t` and tables everything is copied unchanged, texts
      included, and nothing is registered. */
  lemma {:induction false} PassThrough(env: Env, input: seq<Event>, pos: nat, fixed: bool, st: State)
    requires pos <= |input| && NoTextOrTableStart(input, pos)
    ensures ProcessFrom(env, input, pos, Fresh, fixed, st) == Ok(Emitted(Lift(input[pos..]), st))
    decreases |input| - pos
  {
    if pos < |input| {
      CopyStep(env, input, pos, fixed, st);
      StepThen(env, input, pos, Fresh, fixed, st, StepResult(Emitted([Ev(input[pos])], st), pos + 1, Fresh));
      PassThrough(env, input, pos + 1, fixed, st);
      assert input[pos..] == [input[pos]] + input[pos + 1..];
      LiftConcat([input[pos]], input[pos + 1..]);
    }
  }

  /** Outside `w:t`, an event that opens neither a `w:t` nor a table is
      copied. */
  lemma CopyStep(env: Env, input: seq<Event>, pos: nat, fixed: bool, st: State)
    requires pos < |input|
    requires !IsStartOf(input[pos], XmlText) && !IsStartOf(input[pos], XmlTable)
    ensures Step(env, input, pos, Fresh, fixed, st) == Ok(StepResult(Emitted([Ev(input[pos])], st), pos + 1, Fresh))
  {
  }

  /** Only a table can fail: without a `w:tbl` start tag the loop always
      finishes. */
  lemma {:induction false} NoErrorWithoutTables(env: Env, input: seq<Event>, pos: nat, flags: Flags, fixed: bool, st: State)
    requires pos <= |input|
    requires forall k | pos <= k < |input| :: !IsStartOf(input[k], XmlTable)
    ensures ProcessFrom(env, input, pos, flags, fixed, st).Ok?
    decreases |input| - pos
  {
    if pos < |input| {
      var s := Step(env, input, pos, flags, fixed, st);
      assert s.Ok?;
      NoErrorWithoutTables(env, input, s.value.next, s.value.flags, fixed, s.value.em.st);
    }
  }

  /** The rest of the loop after `prefix` was written with state `st'`. */
  predicate Continues(r: Result<Emitted, CaptureError>, prefix: seq<Out>, rest: Result<Emitted, CaptureError>) {
    match rest
    case Err(err) => r == Err(err)
    case Ok(em) => r == Ok(Emitted(prefix + em.out, em.st))
  }

  /** One step of the loop followed by the rest of it. */
  lemma StepThen(env: Env, input: seq<Event>, pos: nat, flags: Flags, fixed: bool, st: State, s: StepResult)
    requires pos < |input| && Step(env, input, pos, flags, fixed, st) == Ok(s)
    ensures s.next <= |input|
    ensures Continues(ProcessFrom(env, input, pos, flags, fixed, st), s.em.out,
                      ProcessFrom(env, input, s.next, s.flags, fixed, s.em.st))
  {
  }

  lemma ContinuesTrans(r1: Result<Emitted, CaptureError>, a: seq<Out>, r2: Result<Emitted, CaptureError>,
                       b: seq<Out>, r3: Result<Emitted, CaptureError>)
    requires Continues(r1, a, r2) && Continues(r2, b, r3)
    ensures Continues(r1, a + b, r3)
  {
    if r3.Ok? {
      assert a + (b + r3.value.out) == a + b + r3.value.out;
    }
  }

  /** A `w:t` element whose text does not render to an image is written with
      its text rendered by `replace`. */
  lemma PlainTextElement(env: Env, input: seq<Event>, pos: nat, fixed: bool, st: State)
    requires pos + 3 <= |input|
    requires input[pos].Start? && input[pos].name == XmlText
    requires input[pos + 1].Text? && !IsBase64Image(Rendered(env, input[pos + 1].content))
    requires input[pos + 2] == End(XmlText)
    ensures Continues(ProcessFrom(env, input, pos, Fresh, fixed, st),
                      [Ev(input[pos]), Ev(Text(Rendered(env, input[pos + 1].content))), Ev(End(XmlText))],
                      ProcessFrom(env, input, pos + 3, Fresh, fixed, st))
  {
    var w1 := [Ev(input[pos])];
    var w2 := [Ev(Text(Rendered(env, input[pos + 1].content)))];
    var w3 := [Ev(End(XmlText))];
    var inT := Flags(true, false);
    StepThen(env, input, pos, Fresh, fixed, st, StepResult(Emitted(w1, st), pos + 1, inT));
    StepThen(env, input, pos + 1, inT, fixed, st, StepResult(Emitted(w2, st), pos + 2, inT));
    StepThen(env, input, pos + 2, inT, fixed, st, StepResult(Emitted(w3, st), pos + 3, Fresh));
    var r0 := ProcessFrom(env, input, pos, Fresh, fixed, st);
    var r1 := ProcessFrom(env, input, pos + 1, inT, fixed, st);
    var r2 := ProcessFrom(env, input, pos + 2, inT, fixed, st);
    var r3 := ProcessFrom(env, input, pos + 3, Fresh, fixed, st);
    ContinuesTrans(r0, w1, r1, w2, r2);
    ContinuesTrans(r0, w1 + w2, r2, w3, r3);
    assert w1 + w2 + w3 == [Ev(input[pos]), Ev(Text(Rendered(env, input[pos + 1].content))), Ev(End(XmlText))];
  }

  /** A `w:t` element whose text renders to a base64 image is replaced as a
      whole by the picture run (or by nothing when the value does not
      decode): neither its start tag nor its end tag is written. */
  lemma ImageElement(env: Env, input: seq<Event>, pos: nat, st: State)
    requires pos + 3 <= |input|
    requires input[pos].Start? && input[pos].name == XmlText
    requires input[pos + 1].Text? && IsBase64Image(Rendered(env, input[pos + 1].content))
    requires input[pos + 2] == End(XmlText)
    ensures var p := PlaceImage(env, st, Rendered(env, input[pos + 1].content));
            Continues(ProcessFrom(env, input, pos, Fresh, true, st), p.out,
                      ProcessFrom(env, input, pos + 3, Fresh, true, p.st))
  {
    var p := PlaceImage(env, st, Rendered(env, input[pos + 1].content));
    var skipping := Flags(false, true);
    StepThen(env, input, pos, Fresh, true, st, StepResult(p, pos + 2, skipping));
    StepThen(env, input, pos + 2, skipping, true, p.st, StepResult(Emitted([], p.st), pos + 3, Fresh));
    ContinuesTrans(ProcessFrom(env, input, pos, Fresh, true, st), p.out,
                   ProcessFrom(env, input, pos + 2, skipping, true, p.st), [],
                   ProcessFrom(env, input, pos + 3, Fresh, true, p.st));
    assert p.out + [] == p.out;
  }

  /** As written, the end tag of a `w:t` element replaced by a picture is
      still written, although its start tag was not. */
  lemma ImageElementAsWritten(env: Env, input: seq<Event>, pos: nat, st: State)
    requires pos + 3 <= |input|
    requires input[pos].Start? && input[pos].name == XmlText
    requires input[pos + 1].Text? && IsBase64Image(Rendered(env, input[pos + 1].content))
    requires input[pos + 2] == End(XmlText)
    ensures var p := PlaceImage(env, st, Rendered(env, input[pos + 1].content));
            Continues(ProcessFrom(env, input, pos, Fresh, false, st), p.out + [Ev(End(XmlText))],
                      ProcessFrom(env, input, pos + 3, Fresh, false, p.st))
  {
    var p := PlaceImage(env, st, Rendered(env, input[pos + 1].content));
    StepThen(env, input, pos, Fresh, false, st, StepResult(p, pos + 2, Fresh));
    StepThen(env, input, pos + 2, Fresh, false, p.st, StepResult(Emitted([Ev(End(XmlText))], p.st), pos + 3, Fresh));
    ContinuesTrans(ProcessFrom(env, input, pos, Fresh, false, st), p.out,
                   ProcessFrom(env, input, pos + 2, Fresh, false, p.st), [Ev(End(XmlText))],
                   ProcessFrom(env, input, pos + 3, Fresh, false, p.st));
  }

  /** Number of end tags named `name` written through the writer. */
  function EndsIn(out: seq<Out>, name: string): nat {
    if |out| == 0 then 0
    else (if out[0].Ev? && IsEndOf(out[0].event, name) then 1 else 0) + EndsIn(out[1..], name)
  }

  lemma {:induction false} EndsInConcat(a: seq<Out>, b: seq<Out>, name: string)
    ensures EndsIn(a + b, name) == EndsIn(a, name) + EndsIn(b, name)
  {
    if |a| == 0 {
      assert a + b == b;
    } else {
      assert (a + b)[1..] == a[1..] + b;
      EndsInConcat(a[1..], b, name);
    }
  }

  /** A run holding one `w:t` element with the text `data`. */
  function ImageRun(data: string): seq<Event> {
    [Start("w:r", ""), Start(XmlText, ""), Text(data), End(XmlText), End("w:r")]
  }

  /** The output for `ImageRun`: the run's tags around the picture. */
  lemma ImageRunOutput(env: Env, st: State, data: string)
    requires IsBase64Image(Rendered(env, data))
    ensures var p := PlaceImage(env, st, Rendered(env, data));
            ProcessXmlEvents(env, ImageRun(data), st)
            == Ok(Emitted([Ev(Start("w:r", ""))] + p.out + [Ev(End("w:r"))], p.st))
  {
    var input := ImageRun(data);
    var p := PlaceImage(env, st, Rendered(env, data));
    assert input[1] == Start(XmlText, "") && input[2] == Text(data) && input[3] == End(XmlText);
    ImageElement(env, input, 1, st);
    RunFrame(env, input, true, st, p.out, p.st);
  }

  /** As written, the output for `ImageRun` also has the stray `w:t` end tag
      after the picture. */
  lemma ImageRunOutputAsWritten(env: Env, st: State, data: string)
    requires IsBase64Image(Rendered(env, data))
    ensures var p := PlaceImage(env, st, Rendered(env, data));
            ProcessXmlEventsAsWritten(env, ImageRun(data), st)
            == Ok(Emitted([Ev(Start("w:r", ""))] + (p.out + [Ev(End(XmlText))]) + [Ev(End("w:r"))], p.st))
  {
    var input := ImageRun(data);
    var p := PlaceImage(env, st, Rendered(env, data));
    assert input[1] == Start(XmlText, "") && input[2] == Text(data) && input[3] == End(XmlText);
    ImageElementAsWritten(env, input, 1, st);
    RunFrame(env, input, false, st, p.out + [Ev(End(XmlText))], p.st);
  }

  /** A `w:r` start and end tag around events that write `mid`. */
  lemma RunFrame(env: Env, input: seq<Event>, fixed: bool, st: State, mid: seq<Out>, st': State)
    requires |input| == 5
    requires input[0] == Start("w:r", "") && input[4] == End("w:r")
    requires Continues(ProcessFrom(env, input, 1, Fresh, fixed, st), mid, ProcessFrom(env, input, 4, Fresh, fixed, st'))
    ensures ProcessFrom(env, input, 0, Fresh, fixed, st) == Ok(Emitted([Ev(Start("w:r", ""))] + mid + [Ev(End("w:r"))], st'))
  {
    var head := [Ev(Start("w:r", ""))];
    var tail := [Ev(End("w:r"))];
    StepThen(env, input, 0, Fresh, fixed, st, StepResult(Emitted(head, st), 1, Fresh));
    StepThen(env, input, 4, Fresh, fixed, st', StepResult(Emitted(tail, st'), 5, Fresh));
    assert ProcessFrom(env, input, 4, Fresh, fixed, st') == Ok(Emitted(tail, st')) by {
      assert tail + [] == tail;
    }
    ContinuesTrans(ProcessFrom(env, input, 0, Fresh, fixed, st), head, ProcessFrom(env, input, 1, Fresh, fixed, st),
                   mid, ProcessFrom(env, input, 4, Fresh, fixed, st'));
  }

  /** The `w:t` tags of a run's output are those written inside it. */
  lemma RunCounts(mid: seq<Out>)
    ensures var out := [Ev(Start("w:r", ""))] + mid + [Ev(End("w:r"))];
            StartsIn(out, XmlText) == StartsIn(mid, XmlText) && EndsIn(out, XmlText) == EndsIn(mid, XmlText)
  {
    var head := [Ev(Start("w:r", ""))];
    var tail := [Ev(End("w:r"))];
    StartsInConcat(head, mid, XmlText);
    StartsInConcat(head + mid, tail, XmlText);
    EndsInConcat(head, mid, XmlText);
    EndsInConcat(head + mid, tail, XmlText);
  }

  /** At most one picture and no tags. */
  lemma PicturesCount(pics: seq<Out>)
    requires |pics| <= 1 && forall i | 0 <= i < |pics| :: pics[i].Picture?
    ensures StartsIn(pics, XmlText) == 0 && EndsIn(pics, XmlText) == 0
    ensures StartsIn(pics + [Ev(End(XmlText))], XmlText) == 0
    ensures EndsIn(pics + [Ev(End(XmlText))], XmlText) == 1
  {
    var stray := [Ev(End(XmlText))];
    assert stray[1..] == [];
    assert StartsIn(stray, XmlText) == 0 && EndsIn(stray, XmlText) == 1;
    StartsInConcat(pics, stray, XmlText);
    EndsInConcat(pics, stray, XmlText);
  }

  /** A run holding one image text: as written, the output has a `w:t` end
      tag and no `w:t` start tag; with the end tag dropped, it has
      neither. */
  lemma StrayTextEndTag(env: Env, st: State, data: string)
    requires IsBase64Image(Rendered(env, data))
    ensures var asWritten := ProcessXmlEventsAsWritten(env, ImageRun(data), st);
            var fixed := ProcessXmlEvents(env, ImageRun(data), st);
            && asWritten.Ok? && fixed.Ok?
            && StartsIn(asWritten.value.out, XmlText) == 0 && EndsIn(asWritten.value.out, XmlText) == 1
            && StartsIn(fixed.value.out, XmlText) == 0 && EndsIn(fixed.value.out, XmlText) == 0
  {
    var p := PlaceImage(env, st, Rendered(env, data));
    ImageRunOutput(env, st, data);
    ImageRunOutputAsWritten(env, st, data);
    assert |p.out| <= 1 && forall i | 0 <= i < |p.out| :: p.out[i].Picture?;
    PicturesCount(p.out);
    RunCounts(p.out);
    RunCounts(p.out + [Ev(End(XmlText))]);
  }
}
