/** What the rewriting of one document threads through its calls: the
    formatting policy, the placeholder map and the two external services
    (base64 decoding and the uuid of each stored image) as a fixed
    environment, and the image registry with the relationship allocator as
    state. `process_base64_image` lives here because the main loop, the
    table writer and the row writer all call it. */
module Engine {
  import opened Wrappers
  import opened Bytes
  import opened Strings
  import opened Constants
  import opened Json
  import opened Events
  import ValueExt
  import Images
  import Relationships

  /** `decode` is the base64 decoder (`None` on malformed input); `uuidOf(n)`
      is the uuid generated for the image that receives id number `n`. */
  datatype Env = Env(
    ext: ValueExt.ValueExt,
    placeholders: Record,
    decode: string -> Option<seq<byte>>,
    uuidOf: nat -> string)

  datatype State = State(images: Images.ImageManager, rels: Relationships.RelationshipManager)

  /** The writes of one step and the state after it. */
  datatype Emitted = Emitted(out: seq<Out>, st: State)

  /** Number of picture runs among the writes. */
  function Drawings(out: seq<Out>): nat {
    if |out| == 0 then 0 else (if out[0].Picture? then 1 else 0) + Drawings(out[1..])
  }

  lemma {:induction false} DrawingsConcat(a: seq<Out>, b: seq<Out>)
    ensures Drawings(a + b) == Drawings(a) + Drawings(b)
  {
    if |a| == 0 {
      assert a + b == b;
    } else {
      assert (a + b)[1..] == a[1..] + b;
      DrawingsConcat(a[1..], b);
    }
  }

  /** Every picture run written between `st` and `st'` got exactly one new
      relationship, and nothing else of the allocator changed. */
  predicate Accounted(st: State, st': State, out: seq<Out>) {
    && st'.images.dpi == st.images.dpi
    && st'.rels.currentRid == st.rels.currentRid + Drawings(out)
    && |st'.rels.newRels| == |st.rels.newRels| + Drawings(out)
    && st'.rels.newRels[..|st.rels.newRels|] == st.rels.newRels
    && st'.rels.originalRelsContent == st.rels.originalRelsContent
  }

  /** Events copied through the writer are no pictures. */
  lemma {:induction false} LiftDrawings(s: seq<Event>)
    ensures Drawings(Lift(s)) == 0
  {
    if |s| > 0 {
      LiftDrawings(s[1..]);
      assert Lift(s)[1..] == Lift(s[1..]);
    }
  }

  lemma AccountedNothing(st: State)
    ensures Accounted(st, st, [])
  {
  }

  lemma AccountedTrans(s1: State, s2: State, s3: State, o1: seq<Out>, o2: seq<Out>)
    requires Accounted(s1, s2, o1) && Accounted(s2, s3, o2)
    ensures Accounted(s1, s3, o1 + o2)
  {
    DrawingsConcat(o1, o2);
    var n1 := |s1.rels.newRels|;
    assert s3.rels.newRels[..n1] == s3.rels.newRels[..|s2.rels.newRels|][..n1];
  }

  /** `Picture {id}`, the picture's display name. */
  function PictureName(id: nat): string {
    ImageNamePrefix + NatToString(id)
  }

  /** The text of a picture write: one run holding the inline picture, with
      the relationship id as the blip's `r:embed`, the image id and name as
      the `wp:docPr` properties and the size as the `wp:extent`. */
  function PictureXml(o: Out): (xml: string)
    requires o.Picture?
    ensures StartsWith(xml, Images.DrawingOpen)
    ensures Contains(xml, Images.BlipElement(o.relId))
    ensures Contains(xml, Images.PropsElement("wp:docPr", o.imageId, o.name, o.descr))
    ensures Contains(xml, Images.SizeElement("wp:extent", o.width, o.height))
  {
    Images.GenerateXmlDrawingInner(o.relId, o.imageId, o.width, o.height, o.name, o.descr)
  }

  /** One allocation that wrote one picture run is accounted for. */
  lemma RegisteredAccounted(st: State, st': State, out: seq<Out>, entry: string)
    requires Drawings(out) == 1 && st'.images.dpi == st.images.dpi
    requires st'.rels.currentRid == st.rels.currentRid + 1
    requires st'.rels.originalRelsContent == st.rels.originalRelsContent
    requires st'.rels.newRels == st.rels.newRels + [entry]
    ensures Accounted(st, st', out)
  {
    assert st'.rels.newRels[..|st.rels.newRels|] == st.rels.newRels;
  }

  /** `process_base64_image`: register the decoded image and write its picture
      run, named `Picture {id}`; when the data does not decode, write nothing
      and change nothing (the error is dropped). */
  function PlaceImage(env: Env, st: State, data: string): (r: Emitted)
    ensures Accounted(st, r.st, r.out) && Markup(r.out) == [] && Texts(r.out) == []
    ensures env.decode(data).None? ==> r == Emitted([], st)
    ensures env.decode(data).Some? ==>
              var rid := st.rels.currentRid;
              var bytes := env.decode(data).value;
              var filename := Images.ImageFilename(env.uuidOf(rid), Images.Classify(bytes));
              && |r.out| == 1 && r.out[0].Picture?
              && r.out[0].relId == Relationships.RelId(rid) && r.out[0].imageId == rid
              && r.out[0].name == PictureName(rid) && r.out[0].descr == DefaultImageDescription
              && (r.out[0].width, r.out[0].height) == Images.ReportedSize(bytes, st.images.dpi)
              && r.st.rels.newRels == st.rels.newRels + [Relationships.RelationshipXml(Relationships.RelId(rid), filename)]
              && r.st.images.images == st.images.images[filename := bytes]
  {
    var uuid := env.uuidOf(st.rels.currentRid);
    var res := Images.ProcessBase64(st.images, st.rels, data, env.decode, uuid);
    if res.Err? then Emitted([], st)
    else
      var p := res.value;
      var out := [Picture(p.relId, p.imageId, p.width, p.height, PictureName(p.imageId), DefaultImageDescription)];
      assert Drawings(out) == 1;
      RegisteredAccounted(st, State(p.manager, p.rels), out, Relationships.RelationshipXml(p.relId, p.filename));
      Emitted(out, State(p.manager, p.rels))
  }

  /** A rendered value: a base64 image becomes a picture run, anything else
      one text write. */
  function RenderText(env: Env, st: State, s: string): (r: Emitted)
    ensures Accounted(st, r.st, r.out) && Markup(r.out) == []
    ensures Texts(r.out) == (if IsBase64Image(s) then [] else [s])
    ensures Drawings(r.out) <= (if IsBase64Image(s) then 1 else 0)
    ensures !IsBase64Image(s) ==> r.out == [Ev(Text(s))] && r.st == st
    ensures IsBase64Image(s) ==> r == PlaceImage(env, st, s)
  {
    if IsBase64Image(s) then
      var r := PlaceImage(env, st, s);
      assert |r.out| <= 1;
      r
    else
      assert Drawings([Ev(Text(s))]) == 0;
      Emitted([Ev(Text(s))], st)
  }
}
