/** The XML event stream the document body is rewritten as. The input is
    the sequence of events the reader yields; running past its end is the
    reader's `Eof`, which it keeps yielding from then on. The output is the
    sequence of writes: events through the XML writer, and raw markup
    written straight to the underlying stream. */
module Events {
  import opened Strings
  import opened Constants

  datatype Event =
    | Start(name: string, attrs: string)
    | End(name: string)
    | Text(content: string)
    /** Any other event (empty element, declaration, comment, CDATA, ...),
        copied as it is. */
    | Other(raw: string)

  datatype Out =
    | Ev(event: Event)
    /** A picture run (the markup of `generate_xml_drawing_inner` for these
        arguments), written directly to the output. */
    | Picture(relId: string, imageId: nat, width: nat, height: nat, name: string, descr: string)
    /** Other markup written directly to the output, bypassing the XML writer. */
    | Raw(xml: string)

  predicate IsStartOf(e: Event, name: string) {
    e.Start? && e.name == name
  }

  predicate IsEndOf(e: Event, name: string) {
    e.End? && e.name == name
  }

  /** A rendered value that the engine treats as a base64 image: it starts
      with the base64 encoding of a PNG or of a JPEG signature. */
  predicate IsBase64Image(s: string) {
    StartsWith(s, PngBase64Signature) || StartsWith(s, JpegBase64Signature)
  }

  /** The events written unchanged, one write each. */
  function Lift(s: seq<Event>): (r: seq<Out>)
    ensures |r| == |s|
    ensures forall k | 0 <= k < |s| :: r[k] == Ev(s[k])
  {
    if |s| == 0 then [] else [Ev(s[0])] + Lift(s[1..])
  }

  lemma LiftConcat(a: seq<Event>, b: seq<Event>)
    ensures Lift(a + b) == Lift(a) + Lift(b)
  {
  }

  /** Whether a write carries document content (a text or a picture)
      rather than markup. */
  predicate IsContent(o: Out) {
    o.Picture? || (o.Ev? && o.event.Text?)
  }

  /** The markup among the writes, in order: tags, other events and raw
      markup; texts and pictures are dropped. */
  function Markup(out: seq<Out>): seq<Out> {
    if |out| == 0 then []
    else (if IsContent(out[0]) then [] else [out[0]]) + Markup(out[1..])
  }

  lemma {:induction false} MarkupConcat(a: seq<Out>, b: seq<Out>)
    ensures Markup(a + b) == Markup(a) + Markup(b)
  {
    if |a| == 0 {
      assert a + b == b;
    } else {
      assert (a + b)[1..] == a[1..] + b;
      MarkupConcat(a[1..], b);
    }
  }

  /** The texts written through the XML writer, in order. */
  function Texts(out: seq<Out>): seq<string> {
    if |out| == 0 then []
    else (if out[0].Ev? && out[0].event.Text? then [out[0].event.content] else []) + Texts(out[1..])
  }

  lemma {:induction false} TextsConcat(a: seq<Out>, b: seq<Out>)
    ensures Texts(a + b) == Texts(a) + Texts(b)
  {
    if |a| == 0 {
      assert a + b == b;
    } else {
      assert (a + b)[1..] == a[1..] + b;
      TextsConcat(a[1..], b);
    }
  }

  /** Number of start tags named `name`. */
  function CountStarts(s: seq<Event>, name: string): nat {
    if |s| == 0 then 0 else (if IsStartOf(s[0], name) then 1 else 0) + CountStarts(s[1..], name)
  }

  lemma {:induction false} CountStartsConcat(a: seq<Event>, b: seq<Event>, name: string)
    ensures CountStarts(a + b, name) == CountStarts(a, name) + CountStarts(b, name)
  {
    if |a| == 0 {
      assert a + b == b;
    } else {
      assert (a + b)[1..] == a[1..] + b;
      CountStartsConcat(a[1..], b, name);
    }
  }

  /** Number of end tags named `name`. */
  function CountEnds(s: seq<Event>, name: string): nat {
    if |s| == 0 then 0 else (if IsEndOf(s[0], name) then 1 else 0) + CountEnds(s[1..], name)
  }

  lemma {:induction false} CountEndsConcat(a: seq<Event>, b: seq<Event>, name: string)
    ensures CountEnds(a + b, name) == CountEnds(a, name) + CountEnds(b, name)
  {
    if |a| == 0 {
      assert a + b == b;
    } else {
      assert (a + b)[1..] == a[1..] + b;
      CountEndsConcat(a[1..], b, name);
    }
  }

  /** Number of start tags named `name` written through the writer. */
  function StartsIn(out: seq<Out>, name: string): nat {
    if |out| == 0 then 0
    else (if out[0].Ev? && IsStartOf(out[0].event, name) then 1 else 0) + StartsIn(out[1..], name)
  }

  lemma {:induction false} StartsInConcat(a: seq<Out>, b: seq<Out>, name: string)
    ensures StartsIn(a + b, name) == StartsIn(a, name) + StartsIn(b, name)
  {
    if |a| == 0 {
      assert a + b == b;
    } else {
      assert (a + b)[1..] == a[1..] + b;
      StartsInConcat(a[1..], b, name);
    }
  }

  /** Content writes hold no start tags. */
  lemma {:induction false} StartsInMarkup(out: seq<Out>, name: string)
    ensures StartsIn(Markup(out), name) == StartsIn(out, name)
  {
    if |out| > 0 {
      StartsInMarkup(out[1..], name);
      var head := if IsContent(out[0]) then [] else [out[0]];
      StartsInConcat(head, Markup(out[1..]), name);
    }
  }

  /** Writing events unchanged writes their start tags. */
  lemma {:induction false} StartsInLift(s: seq<Event>, name: string)
    ensures StartsIn(Lift(s), name) == CountStarts(s, name)
  {
    if |s| > 0 {
      StartsInLift(s[1..], name);
      assert Lift(s)[1..] == Lift(s[1..]);
    }
  }
}
