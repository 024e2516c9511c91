/** `RelationshipManager`: the allocator of relationship ids for new images
    and the splice that adds their `<Relationship>` entries to the document's
    relationship part (OPC relationships, ECMA-376 Part 2, section 9.3). */
module Relationships {
  import opened Wrappers
  import opened Bytes
  import opened Strings
  import opened Constants
  import RelIds

  /** Allocator state: the next id number, the relationship entries created
      so far (in creation order), and the original part, once it is known. */
  datatype RelationshipManager = RelationshipManager(
    currentRid: nat,
    newRels: seq<string>,
    originalRelsContent: Option<seq<byte>>)

  /** The state `RelationshipManager::new` builds. */
  function New(): (m: RelationshipManager)
    ensures m.currentRid == 1 && m.newRels == [] && m.originalRelsContent == None
  {
    RelationshipManager(1, [], None)
  }

  /** Keeps `content` for the final splice; when it is valid UTF-8 the next id
      becomes one more than the largest id it already uses (1 when it uses
      none), which is `parse_next_rid_from_rels` of the part. */
  function SetInitialContent(m: RelationshipManager, content: seq<byte>): (m': RelationshipManager)
    ensures m'.originalRelsContent == Some(content)
    ensures m'.newRels == m.newRels
    ensures ValidUtf8(content) ==>
              m'.currentRid >= 1
              && (forall q | RelIds.IdAt(content, q).Some? :: RelIds.IdAt(content, q).value < m'.currentRid)
              && (m'.currentRid == 1 || exists q :: RelIds.IdAt(content, q) == Some(m'.currentRid - 1))
    ensures ValidUtf8(content) ==> m'.currentRid == RelIds.ParseNextRid(content)
    ensures !ValidUtf8(content) ==> m'.currentRid == m.currentRid
  {
    var rid := if ValidUtf8(content) then RelIds.ParseNextRid(content) else m.currentRid;
    m.(currentRid := rid, originalRelsContent := Some(content))
  }

  /** `rId` followed by the decimal id number. */
  function RelId(n: nat): string {
    RelIdPrefix + NatToString(n)
  }

  /** The `<Relationship>` element of one image stored as `media/{filename}`. */
  function RelationshipXml(relId: string, filename: string): string {
    "<Relationship Id=\"" + relId + "\" Type=\"" + RelTypeImage
    + "\" Target=\"media/" + filename + "\"/>"
  }

  datatype Allocation = Allocation(manager: RelationshipManager, relId: string, imageId: nat)

  /** `add_image_relationship`: hands out the current id number, advances the
      counter by one and records one relationship entry for the image. */
  function AddImageRelationship(m: RelationshipManager, filename: string): (a: Allocation)
    ensures a.imageId == m.currentRid && a.relId == RelId(m.currentRid)
    ensures a.manager.currentRid == m.currentRid + 1
    ensures a.manager.newRels == m.newRels + [RelationshipXml(a.relId, filename)]
    ensures a.manager.originalRelsContent == m.originalRelsContent
  {
    var relId := RelId(m.currentRid);
    Allocation(
      m.(currentRid := m.currentRid + 1, newRels := m.newRels + [RelationshipXml(relId, filename)]),
      relId, m.currentRid)
  }

  /** Ids handed out by one manager are all different: a later allocation
      gets a larger number, and the `rId` strings differ with the numbers. */
  lemma RelIdsDistinct(m: nat, n: nat)
    requires m != n
    ensures RelId(m) != RelId(n)
  {
    if RelId(m) == RelId(n) {
      assert NatToString(m) == RelId(m)[|RelIdPrefix|..];
      NatToStringInjective(m, n);
    }
  }

  /** Allocating for a list of files, one after the other. */
  function AllocateAll(m: RelationshipManager, filenames: seq<string>): (r: (RelationshipManager, seq<string>))
    decreases |filenames|
  {
    if |filenames| == 0 then (m, [])
    else
      var a := AddImageRelationship(m, filenames[0]);
      var rest := AllocateAll(a.manager, filenames[1..]);
      (rest.0, [a.relId] + rest.1)
  }

  /** Successive allocations return `rId{c}`, `rId{c+1}`, ... for the starting
      counter `c` and advance the counter by the number of files. */
  lemma {:induction false} AllocateAllConsecutive(m: RelationshipManager, filenames: seq<string>)
    ensures var r := AllocateAll(m, filenames);
            && |r.1| == |filenames|
            && (forall i | 0 <= i < |filenames| :: r.1[i] == RelId(m.currentRid + i))
            && r.0.currentRid == m.currentRid + |filenames|
    decreases |filenames|
  {
    if |filenames| > 0 {
      var a := AddImageRelationship(m, filenames[0]);
      AllocateAllConsecutive(a.manager, filenames[1..]);
      var rest := AllocateAll(a.manager, filenames[1..]);
      var r := AllocateAll(m, filenames);
      assert r.1 == [a.relId] + rest.1;
      forall i | 0 <= i < |filenames|
        ensures r.1[i] == RelId(m.currentRid + i)
      {
        if i > 0 {
          assert r.1[i] == rest.1[i - 1];
        }
      }
    }
  }

  /** The entries for `filenames` under the ids `rId{c}`, `rId{c+1}`, ... */
  function Entries(c: nat, filenames: seq<string>): (es: seq<string>)
    ensures |es| == |filenames|
    ensures forall i | 0 <= i < |filenames| :: es[i] == RelationshipXml(RelId(c + i), filenames[i])
  {
    seq(|filenames|, i requires 0 <= i < |filenames| => RelationshipXml(RelId(c + i), filenames[i]))
  }

  lemma EntriesFirst(c: nat, filenames: seq<string>)
    requires |filenames| > 0
    ensures Entries(c, filenames) == [RelationshipXml(RelId(c), filenames[0])] + Entries(c + 1, filenames[1..])
  {
    var es := Entries(c, filenames);
    var rest := Entries(c + 1, filenames[1..]);
    forall i | 1 <= i < |filenames|
      ensures es[i] == rest[i - 1]
    {
      assert filenames[1..][i - 1] == filenames[i];
    }
  }

  /** The allocations keep the entries made before and add one entry per
      file, in order, each naming its file under the id it was given. */
  lemma {:induction false} AllocateAllRecords(m: RelationshipManager, filenames: seq<string>)
    ensures AllocateAll(m, filenames).0.newRels == m.newRels + Entries(m.currentRid, filenames)
    decreases |filenames|
  {
    if |filenames| > 0 {
      var a := AddImageRelationship(m, filenames[0]);
      AllocateAllRecords(a.manager, filenames[1..]);
      EntriesFirst(m.currentRid, filenames);
      assert AllocateAll(m, filenames).0 == AllocateAll(a.manager, filenames[1..]).0;
    }
  }

  /** All ids handed out by a run of allocations are pairwise different. */
  lemma AllocateAllDistinct(m: RelationshipManager, filenames: seq<string>)
    ensures var ids := AllocateAll(m, filenames).1;
            forall i, j | 0 <= i < j < |ids| :: ids[i] != ids[j]
  {
    AllocateAllConsecutive(m, filenames);
    var ids := AllocateAll(m, filenames).1;
    forall i, j | 0 <= i < j < |ids|
      ensures ids[i] != ids[j]
    {
      RelIdsDistinct(m.currentRid + i, m.currentRid + j);
    }
  }

  // ---------------------------------------------------------------------
  // Final part

  /** The UTF-8 bytes of `"\n    "`, written before every entry. */
  const SeparatorBytes: seq<byte> := [10, 32, 32, 32, 32]

  /** The UTF-8 bytes of `</Relationships>`, the root's end tag. */
  const ClosingTagBytes: seq<byte> :=
    [60, 47, 82, 101, 108, 97, 116, 105, 111, 110, 115, 104, 105, 112, 115, 62]

  /** Every entry followed by the separator, as bytes. */
  function EntriesBytes(rels: seq<string>): seq<byte>
  {
    if |rels| == 0 then [] else EncodeUtf8(rels[0]) + SeparatorBytes + EntriesBytes(rels[1..])
  }

  /** The block inserted before the closing tag. */
  function InsertedBlock(rels: seq<string>): seq<byte>
  {
    SeparatorBytes + EntriesBytes(rels)
  }

  /** `generate_final_rels_content`: nothing without an original part; the
      original bytes untouched when nothing was allocated; otherwise the
      original with the new entries spliced in just before its last
      `</Relationships>`, or nothing if that tag is missing or the part is not
      UTF-8. */
  function GenerateFinalRelsContent(m: RelationshipManager): (r: Option<seq<byte>>)
    ensures m.originalRelsContent.None? ==> r.None?
    ensures m.originalRelsContent.Some? && m.newRels == [] ==> r == m.originalRelsContent
    ensures m.originalRelsContent.Some? && m.newRels != [] ==>
              var c := m.originalRelsContent.value;
              && (r.Some? <==> ValidUtf8(c) && RFind(c, ClosingTagBytes).Some?)
              && (r.Some? ==>
                    var pos := RFind(c, ClosingTagBytes).value;
                    r.value == c[..pos] + InsertedBlock(m.newRels) + c[pos..])
  {
    match m.originalRelsContent
    case None => None
    case Some(c) =>
      if m.newRels == [] then Some(c)
      else if !ValidUtf8(c) then None
      else
        match RFind(c, ClosingTagBytes)
        case None => None
        case Some(pos) => Some(c[..pos] + InsertedBlock(m.newRels) + c[pos..])
  }

  lemma {:induction false} EntriesValid(rels: seq<string>)
    ensures ValidUtf8(EntriesBytes(rels))
  {
    if |rels| > 0 {
      EncodeUtf8Valid(rels[0]);
      assert ValidUtf8(SeparatorBytes);
      EntriesValid(rels[1..]);
      ValidConcat(EncodeUtf8(rels[0]), SeparatorBytes);
      ValidConcat(EncodeUtf8(rels[0]) + SeparatorBytes, EntriesBytes(rels[1..]));
    }
  }

  /** Inserting `block` at `pos` and cutting it out again are inverse. */
  lemma SpliceFacts(c: seq<byte>, pos: nat, block: seq<byte>)
    requires pos <= |c|
    ensures var out := c[..pos] + block + c[pos..];
            && |out| == |c| + |block|
            && out[..pos] + out[pos + |block|..] == c
            && out[pos..pos + |block|] == block
            && out[pos + |block|..] == c[pos..]
  {
    var out := c[..pos] + block + c[pos..];
    assert out[..pos] == c[..pos];
    assert out[pos + |block|..] == c[pos..];
    assert out[pos..pos + |block|] == block;
    assert c[..pos] + c[pos..] == c;
  }

  lemma SpliceValid(c: seq<byte>, pos: nat, rels: seq<string>)
    requires ValidUtf8(c) && OccursAt(c, ClosingTagBytes, pos)
    ensures ValidUtf8(c[..pos] + InsertedBlock(rels) + c[pos..])
  {
    var tag := ClosingTagBytes;
    assert c[pos] == c[pos..pos + |tag|][0] == tag[0];
    ValidSplitAtAscii(c, pos);
    var block := InsertedBlock(rels);
    assert ValidUtf8(block) by {
      assert ValidUtf8(SeparatorBytes);
      EntriesValid(rels);
      ValidConcat(SeparatorBytes, EntriesBytes(rels));
    }
    ValidConcat(c[..pos], block);
    ValidConcat(c[..pos] + block, c[pos..]);
  }

  /** The tag at `pos` is found again right after the inserted block. */
  lemma SpliceKeepsTag(c: seq<byte>, pos: nat, block: seq<byte>, tag: seq<byte>)
    requires OccursAt(c, tag, pos)
    ensures OccursAt(c[..pos] + block + c[pos..], tag, pos + |block|)
  {
    SpliceFacts(c, pos, block);
    var out := c[..pos] + block + c[pos..];
    assert out[pos + |block|..pos + |block| + |tag|] == c[pos..pos + |tag|];
  }

  /** The splice keeps every original byte: cutting the inserted block out of
      the result gives the original part back, the result is still valid
      UTF-8, and the closing tag still ends up after the new entries. */
  lemma FinalContentPreservesOriginal(m: RelationshipManager)
    requires m.originalRelsContent.Some? && m.newRels != []
    requires GenerateFinalRelsContent(m).Some?
    ensures var c := m.originalRelsContent.value;
            var out := GenerateFinalRelsContent(m).value;
            var pos := RFind(c, ClosingTagBytes).value;
            var k := |InsertedBlock(m.newRels)|;
            && |out| == |c| + k
            && out[..pos] + out[pos + k..] == c
            && out[pos..pos + k] == InsertedBlock(m.newRels)
            && OccursAt(out, ClosingTagBytes, pos + k)
            && ValidUtf8(out)
  {
    var c := m.originalRelsContent.value;
    var tag := ClosingTagBytes;
    var pos := RFind(c, tag).value;
    var block := InsertedBlock(m.newRels);
    assert GenerateFinalRelsContent(m).value == c[..pos] + block + c[pos..];
    SpliceFacts(c, pos, block);
    SpliceKeepsTag(c, pos, block, tag);
    SpliceValid(c, pos, m.newRels);
  }
}
