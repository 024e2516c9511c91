/** `flatten_json` and `merge_record_with_prefix`: a JSON object becomes a
    list of flat records. Each field of the object is applied in turn to
    every record built so far: a scalar (or an empty array) is stored under
    its key; an object or a non-empty array is flattened recursively and each
    of its records is merged into the current record under `key.`, one
    output record per sub-record. Within one field the current record keeps
    accumulating, so keys from an earlier element survive into the records
    of the later ones unless overwritten. */
module Flatten {
  import opened Json

  // ---------------------------------------------------------------------
  // Prefix merge

  /** `prefix.key` for each key of a sub-record. */
  function Prefixed(prefix: string, k: string): string {
    prefix + "." + k
  }

  lemma PrefixedInjective(prefix: string, k1: string, k2: string)
    requires Prefixed(prefix, k1) == Prefixed(prefix, k2)
    ensures k1 == k2
  {
    var n := |prefix| + 1;
    assert k1 == Prefixed(prefix, k1)[n..] == Prefixed(prefix, k2)[n..] == k2;
  }

  /** The sub-record with every key prefixed. */
  function PrefixAll(prefix: string, other: Record): (r: Record)
    ensures forall k | k in other :: Prefixed(prefix, k) in r && r[Prefixed(prefix, k)] == other[k]
    ensures forall nk | nk in r :: exists k | k in other :: nk == Prefixed(prefix, k)
  {
    var keys := set k | k in other :: Prefixed(prefix, k);
    var r := map nk | nk in keys :: other[nk[|prefix| + 1..]];
    forall k | k in other
      ensures Prefixed(prefix, k) in r && r[Prefixed(prefix, k)] == other[k]
    {
      assert Prefixed(prefix, k)[|prefix| + 1..] == k;
    }
    r
  }

  /** `merge_record_with_prefix`: every entry of `other` is inserted into
      `base` under `prefix.key`, overwriting an entry of that name; the
      other entries of `base` stay. */
  function MergeRecordWithPrefix(prefix: string, base: Record, other: Record): (r: Record)
    ensures forall k | k in other :: Prefixed(prefix, k) in r && r[Prefixed(prefix, k)] == other[k]
    ensures forall k | k in base :: k in r
    ensures forall k | k in base && (forall j | j in other :: k != Prefixed(prefix, j)) :: r[k] == base[k]
    ensures forall k | k in r :: k in base || exists j | j in other :: k == Prefixed(prefix, j)
  {
    base + PrefixAll(prefix, other)
  }

  // ---------------------------------------------------------------------
  // Flattening

  /** A value that is stored as it is rather than flattened. */
  predicate IsLeaf(v: Json) {
    !(v.Obj? || (v.Arr? && |v.items| > 0))
  }

  /** `flatten_json`. */
  function Flatten(v: Json): (rs: seq<Record>)
    ensures |rs| >= 1
    ensures !v.Obj? ==> rs == [map[]]
    decreases v, 0
  {
    if v.Obj? then FlattenFields(v.fields, [map[]]) else [map[]]
  }

  /** The fields applied in order to the records built so far. */
  function FlattenFields(fields: seq<Field>, records: seq<Record>): (rs: seq<Record>)
    ensures |records| >= 1 ==> |rs| >= 1
    decreases fields, 3
  {
    if |fields| == 0 then records
    else FlattenFields(fields[1..], ExpandAll(fields[0].key, fields[0].value, records))
  }

  /** One field applied to each record, in record order. */
  function ExpandAll(key: string, val: Json, records: seq<Record>): (rs: seq<Record>)
    ensures |rs| >= |records|
    decreases val, 2, |records|
  {
    if |records| == 0 then []
    else ExpandRecord(key, val, records[0]) + ExpandAll(key, val, records[1..])
  }

  /** One field applied to one record. */
  function ExpandRecord(key: string, val: Json, rec: Record): (rs: seq<Record>)
    ensures |rs| >= 1
    decreases val, 1
  {
    if val.Arr? && |val.items| > 0 then ExpandItems(key, val.items, rec).0
    else if val.Obj? then MergeEach(key, Flatten(val), rec).0
    else [rec[key := val]]
  }

  /** The elements of a non-empty array, one after the other, each merging
      its records into the same accumulating record; also returns that record. */
  function ExpandItems(key: string, items: seq<Json>, base: Record): (r: (seq<Record>, Record))
    ensures |items| > 0 ==> |r.0| >= 1
    decreases items, 1
  {
    if |items| == 0 then ([], base)
    else
      var first := MergeEach(key, Flatten(items[0]), base);
      var rest := ExpandItems(key, items[1..], first.1);
      (first.0 + rest.0, rest.1)
  }

  /** Merge each sub-record in turn into the accumulating record, emitting a
      copy after each merge; also returns the final record. */
  function MergeEach(key: string, subs: seq<Record>, base: Record): (r: (seq<Record>, Record))
    ensures |r.0| == |subs|
    decreases |subs|
  {
    if |subs| == 0 then ([], base)
    else
      var b := MergeRecordWithPrefix(key, base, subs[0]);
      var rest := MergeEach(key, subs[1..], b);
      ([b] + rest.0, rest.1)
  }

  // ---------------------------------------------------------------------
  // Counting: a cross product over the fields

  /** How many records a field turns each record into. */
  function Factor(val: Json): nat {
    if val.Arr? && |val.items| > 0 then SumSizes(val.items)
    else if val.Obj? then |Flatten(val)|
    else 1
  }

  /** The total number of records of the elements. */
  function SumSizes(items: seq<Json>): nat {
    if |items| == 0 then 0 else |Flatten(items[0])| + SumSizes(items[1..])
  }

  /** The product of the fields' factors. */
  function FieldsProduct(fields: seq<Field>): nat {
    if |fields| == 0 then 1 else Factor(fields[0].value) * FieldsProduct(fields[1..])
  }

  lemma {:induction false} ExpandItemsCount(key: string, items: seq<Json>, base: Record)
    ensures |ExpandItems(key, items, base).0| == SumSizes(items)
  {
    if |items| > 0 {
      var first := MergeEach(key, Flatten(items[0]), base);
      ExpandItemsCount(key, items[1..], first.1);
    }
  }

  lemma ExpandRecordCount(key: string, val: Json, rec: Record)
    ensures |ExpandRecord(key, val, rec)| == Factor(val)
  {
    if val.Arr? && |val.items| > 0 {
      ExpandItemsCount(key, val.items, rec);
    }
  }

  /** Each record yields `Factor(val)` records, so the field multiplies the
      count. */
  lemma {:induction false} ExpandAllCount(key: string, val: Json, records: seq<Record>)
    ensures |ExpandAll(key, val, records)| == |records| * Factor(val)
    decreases |records|
  {
    if |records| > 0 {
      ExpandRecordCount(key, val, records[0]);
      ExpandAllCount(key, val, records[1..]);
      var f := Factor(val);
      var n := |records| - 1;
      assert |ExpandAll(key, val, records)| == f + n * f;
      assert (n + 1) * f == f + n * f;
    }
  }

  lemma {:induction false} FlattenFieldsCount(fields: seq<Field>, records: seq<Record>)
    ensures |FlattenFields(fields, records)| == |records| * FieldsProduct(fields)
  {
    if |fields| > 0 {
      var next := ExpandAll(fields[0].key, fields[0].value, records);
      ExpandAllCount(fields[0].key, fields[0].value, records);
      FlattenFieldsCount(fields[1..], next);
      calc {
        |FlattenFields(fields, records)|;
        |next| * FieldsProduct(fields[1..]);
        |records| * Factor(fields[0].value) * FieldsProduct(fields[1..]);
        { MulAssoc(|records|, Factor(fields[0].value), FieldsProduct(fields[1..])); }
        |records| * FieldsProduct(fields);
      }
    }
  }

  lemma MulAssoc(a: nat, b: nat, c: nat)
    ensures a * b * c == a * (b * c)
  {
  }

  /** An object flattens into the product of its fields' factors: a leaf
      field counts once, an object field as often as it flattens, and a
      non-empty array field as the sum over its elements. */
  lemma FlattenCount(v: Json)
    requires v.Obj?
    ensures |Flatten(v)| == FieldsProduct(v.fields)
  {
    FlattenFieldsCount(v.fields, [map[]]);
  }

  // ---------------------------------------------------------------------
  // Objects with only leaf fields

  /** The fields stored one after the other into `rec`. */
  function InsertAll(fields: seq<Field>, rec: Record): Record {
    if |fields| == 0 then rec else InsertAll(fields[1..], rec[fields[0].key := fields[0].value])
  }

  lemma {:induction false} LeafFieldsInsert(fields: seq<Field>, rec: Record)
    requires forall i | 0 <= i < |fields| :: IsLeaf(fields[i].value)
    ensures FlattenFields(fields, [rec]) == [InsertAll(fields, rec)]
  {
    if |fields| > 0 {
      var f := fields[0];
      assert ExpandAll(f.key, f.value, [rec]) == [rec[f.key := f.value]] by {
        assert [rec][1..] == [];
      }
      LeafFieldsInsert(fields[1..], rec[f.key := f.value]);
    }
  }

  /** An object whose fields are all scalars or empty arrays flattens into
      exactly one record, the key-to-value map of its fields. */
  lemma FlattenLeafObject(fields: seq<Field>)
    requires forall i | 0 <= i < |fields| :: IsLeaf(fields[i].value)
    ensures Flatten(Obj(fields)) == [InsertAll(fields, map[])]
  {
    LeafFieldsInsert(fields, map[]);
  }

  // ---------------------------------------------------------------------
  // Accumulation within one field

  /** The records of one merge run only gain keys: each has every key of the
      starting record and of the records before it. */
  lemma {:induction false} MergeEachGrows(key: string, subs: seq<Record>, base: Record)
    ensures var out := MergeEach(key, subs, base);
            && (forall i | 0 <= i < |out.0| :: base.Keys <= out.0[i].Keys)
            && (forall i, j | 0 <= i <= j < |out.0| :: out.0[i].Keys <= out.0[j].Keys)
            && base.Keys <= out.1.Keys
            && (forall i | 0 <= i < |out.0| :: out.0[i].Keys <= out.1.Keys)
    decreases |subs|
  {
    if |subs| > 0 {
      var b := MergeRecordWithPrefix(key, base, subs[0]);
      MergeEachGrows(key, subs[1..], b);
    }
  }

  /** Across the elements of an array field the same holds: keys set by an
      earlier element are still present in every later record. */
  lemma {:induction false} ExpandItemsGrows(key: string, items: seq<Json>, base: Record)
    ensures var out := ExpandItems(key, items, base);
            && (forall i | 0 <= i < |out.0| :: base.Keys <= out.0[i].Keys)
            && (forall i, j | 0 <= i <= j < |out.0| :: out.0[i].Keys <= out.0[j].Keys)
            && base.Keys <= out.1.Keys
            && (forall i | 0 <= i < |out.0| :: out.0[i].Keys <= out.1.Keys)
  {
    if |items| > 0 {
      var first := MergeEach(key, Flatten(items[0]), base);
      MergeEachGrows(key, Flatten(items[0]), base);
      ExpandItemsGrows(key, items[1..], first.1);
      var rest := ExpandItems(key, items[1..], first.1);
      var out := first.0 + rest.0;
      forall i, j | 0 <= i <= j < |out|
        ensures out[i].Keys <= out[j].Keys
      {
        if j >= |first.0| && i < |first.0| {
          assert out[i] == first.0[i] && out[j] == rest.0[j - |first.0|];
        }
      }
    }
  }

  lemma MergeEachSingle(key: string, subs: seq<Record>, base: Record)
    requires |subs| == 1
    ensures var b := MergeRecordWithPrefix(key, base, subs[0]);
            MergeEach(key, subs, base) == ([b], b)
  {
    var b := MergeRecordWithPrefix(key, base, subs[0]);
    assert subs[1..] == [];
    assert MergeEach(key, subs[1..], b) == ([], b);
    assert [b] + [] == [b];
  }

  /** An array of two single-record elements yields two records: the base
      merged with the first element's record, then that merged again with the
      second's. An entry of the first element that the second lacks is still
      in the second record. */
  lemma TwoElementArray(key: string, a: Json, b: Json, base: Record, k: string)
    requires |Flatten(a)| == 1 && |Flatten(b)| == 1
    requires k in Flatten(a)[0] && k !in Flatten(b)[0]
    ensures var b1 := MergeRecordWithPrefix(key, base, Flatten(a)[0]);
            var b2 := MergeRecordWithPrefix(key, b1, Flatten(b)[0]);
            && ExpandRecord(key, Arr([a, b]), base) == [b1, b2]
            && b2[Prefixed(key, k)] == Flatten(a)[0][k]
  {
    var da := Flatten(a)[0];
    var db := Flatten(b)[0];
    var b1 := MergeRecordWithPrefix(key, base, da);
    TwoItemsExpand(key, a, b, base);
    forall j | j in db
      ensures Prefixed(key, k) != Prefixed(key, j)
    {
      if Prefixed(key, k) == Prefixed(key, j) {
        PrefixedInjective(key, k, j);
      }
    }
  }

  lemma TwoItemsExpand(key: string, a: Json, b: Json, base: Record)
    requires |Flatten(a)| == 1 && |Flatten(b)| == 1
    ensures var b1 := MergeRecordWithPrefix(key, base, Flatten(a)[0]);
            var b2 := MergeRecordWithPrefix(key, b1, Flatten(b)[0]);
            ExpandRecord(key, Arr([a, b]), base) == [b1, b2]
  {
    var b1 := MergeRecordWithPrefix(key, base, Flatten(a)[0]);
    var b2 := MergeRecordWithPrefix(key, b1, Flatten(b)[0]);
    MergeEachSingle(key, Flatten(a), base);
    MergeEachSingle(key, Flatten(b), b1);
    assert [b][1..] == [];
    assert ExpandItems(key, [b], b1) == ([b2], b2);
    assert [a, b][1..] == [b];
    assert ExpandItems(key, [a, b], base) == ([b1] + [b2], b2);
  }

  // ---------------------------------------------------------------------
  // Record contents: which keys a field writes

  /** `k` is `p.` followed by something, a key a merge under `p` can write. */
  predicate PrefixedBy(p: string, k: string) {
    |k| > |p| && k[..|p| + 1] == p + "."
  }

  lemma PrefixedIsPrefixedBy(p: string, sub: string)
    ensures PrefixedBy(p, Prefixed(p, sub))
  {
    assert Prefixed(p, sub)[..|p| + 1] == p + ".";
  }

  /** The keys a field can write into a record: its own key for a leaf, keys
      `key.sub` for an object or a non-empty array. */
  predicate Writes(f: Field, k: string) {
    if IsLeaf(f.value) then k == f.key else PrefixedBy(f.key, k)
  }

  predicate WrittenBy(fs: seq<Field>, k: string) {
    exists j | 0 <= j < |fs| :: Writes(fs[j], k)
  }

  /** Every key of every record is one some field of `fs` writes. */
  predicate KeysWrittenBy(records: seq<Record>, fs: seq<Field>) {
    forall r, k | r in records && k in r :: WrittenBy(fs, k)
  }

  /** Every record maps `k` to `v`. */
  predicate AllHave(records: seq<Record>, k: string, v: Json) {
    forall r | r in records :: k in r && r[k] == v
  }

  /** A merge run under `key` only adds keys `key.sub`. */
  lemma {:induction false} MergeEachKeys(key: string, subs: seq<Record>, base: Record)
    ensures var out := MergeEach(key, subs, base);
            && (forall r, k | r in out.0 && k in r :: k in base || PrefixedBy(key, k))
            && (forall k | k in out.1 :: k in base || PrefixedBy(key, k))
    decreases |subs|
  {
    if |subs| > 0 {
      var b := MergeRecordWithPrefix(key, base, subs[0]);
      forall k | k in b ensures k in base || PrefixedBy(key, k) {
        if k !in base {
          var j :| j in subs[0] && k == Prefixed(key, j);
          PrefixedIsPrefixedBy(key, j);
        }
      }
      MergeEachKeys(key, subs[1..], b);
    }
  }

  /** A merge run under `key` keeps every entry whose key is not `key.sub`. */
  lemma {:induction false} MergeEachKeeps(key: string, subs: seq<Record>, base: Record, k: string)
    requires k in base && !PrefixedBy(key, k)
    ensures var out := MergeEach(key, subs, base);
            && AllHave(out.0, k, base[k]) && k in out.1 && out.1[k] == base[k]
    decreases |subs|
  {
    if |subs| > 0 {
      var b := MergeRecordWithPrefix(key, base, subs[0]);
      forall j | j in subs[0] ensures k != Prefixed(key, j) {
        PrefixedIsPrefixedBy(key, j);
      }
      MergeEachKeeps(key, subs[1..], b, k);
    }
  }

  lemma {:induction false} ExpandItemsKeys(key: string, items: seq<Json>, base: Record)
    ensures var out := ExpandItems(key, items, base);
            && (forall r, k | r in out.0 && k in r :: k in base || PrefixedBy(key, k))
            && (forall k | k in out.1 :: k in base || PrefixedBy(key, k))
  {
    if |items| > 0 {
      var first := MergeEach(key, Flatten(items[0]), base);
      MergeEachKeys(key, Flatten(items[0]), base);
      ExpandItemsKeys(key, items[1..], first.1);
    }
  }

  lemma {:induction false} ExpandItemsKeeps(key: string, items: seq<Json>, base: Record, k: string)
    requires k in base && !PrefixedBy(key, k)
    ensures var out := ExpandItems(key, items, base);
            && AllHave(out.0, k, base[k]) && k in out.1 && out.1[k] == base[k]
  {
    if |items| > 0 {
      var first := MergeEach(key, Flatten(items[0]), base);
      MergeEachKeeps(key, Flatten(items[0]), base, k);
      ExpandItemsKeeps(key, items[1..], first.1, k);
    }
  }

  /** Applying a field to a record adds only keys the field writes, and keeps
      every entry it does not write. */
  lemma ExpandRecordKeys(f: Field, rec: Record)
    ensures forall r, k | r in ExpandRecord(f.key, f.value, rec) && k in r :: k in rec || Writes(f, k)
  {
    if f.value.Arr? && |f.value.items| > 0 {
      ExpandItemsKeys(f.key, f.value.items, rec);
    } else if f.value.Obj? {
      MergeEachKeys(f.key, Flatten(f.value), rec);
    }
  }

  lemma ExpandRecordKeeps(f: Field, rec: Record, k: string)
    requires k in rec && !Writes(f, k)
    ensures AllHave(ExpandRecord(f.key, f.value, rec), k, rec[k])
  {
    if f.value.Arr? && |f.value.items| > 0 {
      ExpandItemsKeeps(f.key, f.value.items, rec, k);
    } else if f.value.Obj? {
      MergeEachKeeps(f.key, Flatten(f.value), rec, k);
    }
  }

  lemma {:induction false} ExpandAllKeys(f: Field, records: seq<Record>, fs: seq<Field>)
    requires KeysWrittenBy(records, fs)
    ensures KeysWrittenBy(ExpandAll(f.key, f.value, records), fs + [f])
    decreases |records|
  {
    if |records| > 0 {
      var first := ExpandRecord(f.key, f.value, records[0]);
      ExpandRecordKeys(f, records[0]);
      assert KeysWrittenBy(records[1..], fs) by {
        forall r, k | r in records[1..] && k in r ensures WrittenBy(fs, k) {
          assert r in records;
        }
      }
      ExpandAllKeys(f, records[1..], fs);
      var fs' := fs + [f];
      forall r, k | r in ExpandAll(f.key, f.value, records) && k in r
        ensures WrittenBy(fs', k)
      {
        if r in first {
          if k in records[0] {
            var j :| 0 <= j < |fs| && Writes(fs[j], k);
            assert fs'[j] == fs[j];
          } else {
            assert fs'[|fs|] == f;
          }
        }
      }
    }
  }

  lemma {:induction false} ExpandAllKeeps(f: Field, records: seq<Record>, k: string, v: Json)
    requires AllHave(records, k, v) && !Writes(f, k)
    ensures AllHave(ExpandAll(f.key, f.value, records), k, v)
    decreases |records|
  {
    if |records| > 0 {
      ExpandRecordKeeps(f, records[0], k);
      assert AllHave(records[1..], k, v) by {
        forall r | r in records[1..] ensures k in r && r[k] == v {
          assert r in records;
        }
      }
      ExpandAllKeeps(f, records[1..], k, v);
    }
  }

  /** A leaf field stores its value in every record. */
  lemma {:induction false} ExpandAllLeaf(f: Field, records: seq<Record>)
    requires IsLeaf(f.value)
    ensures AllHave(ExpandAll(f.key, f.value, records), f.key, f.value)
    decreases |records|
  {
    if |records| > 0 {
      ExpandAllLeaf(f, records[1..]);
    }
  }

  lemma {:induction false} FlattenFieldsKeys(fields: seq<Field>, records: seq<Record>, fs: seq<Field>)
    requires KeysWrittenBy(records, fs)
    ensures KeysWrittenBy(FlattenFields(fields, records), fs + fields)
  {
    if |fields| == 0 {
      assert fs + fields == fs;
    } else {
      ExpandAllKeys(fields[0], records, fs);
      FlattenFieldsKeys(fields[1..], ExpandAll(fields[0].key, fields[0].value, records), fs + [fields[0]]);
      assert fs + [fields[0]] + fields[1..] == fs + fields;
    }
  }

  lemma {:induction false} FlattenFieldsKeeps(fields: seq<Field>, records: seq<Record>, k: string, v: Json)
    requires AllHave(records, k, v)
    requires forall j | 0 <= j < |fields| :: !Writes(fields[j], k)
    ensures AllHave(FlattenFields(fields, records), k, v)
  {
    if |fields| > 0 {
      ExpandAllKeeps(fields[0], records, k, v);
      FlattenFieldsKeeps(fields[1..], ExpandAll(fields[0].key, fields[0].value, records), k, v);
    }
  }

  lemma {:induction false} FlattenFieldsConcat(a: seq<Field>, b: seq<Field>, records: seq<Record>)
    ensures FlattenFields(a + b, records) == FlattenFields(b, FlattenFields(a, records))
  {
    if |a| == 0 {
      assert a + b == b;
    } else {
      assert (a + b)[0] == a[0] && (a + b)[1..] == a[1..] + b;
      FlattenFieldsConcat(a[1..], b, ExpandAll(a[0].key, a[0].value, records));
    }
  }

  /** Every key of every flattened record is the key of a scalar field of the
      object, or `key.sub` for an object or non-empty array field `key`. */
  lemma FlattenKeys(fields: seq<Field>)
    ensures forall r, k | r in Flatten(Obj(fields)) && k in r ::
              exists j | 0 <= j < |fields| :: Writes(fields[j], k)
  {
    FlattenFieldsKeys(fields, [map[]], []);
    assert [] + fields == fields;
  }

  /** A scalar field `(key, value)` of an object is in every flattened record
      with its value, unless a later field writes the same key: a later
      scalar field of that name, or a later object or array field whose
      prefixed keys include it. */
  lemma FlattenKeepsLeafField(fields: seq<Field>, i: nat)
    requires i < |fields| && IsLeaf(fields[i].value)
    requires forall j | i < j < |fields| :: !Writes(fields[j], fields[i].key)
    ensures forall r | r in Flatten(Obj(fields)) :: fields[i].key in r && r[fields[i].key] == fields[i].value
  {
    var f := fields[i];
    assert fields == fields[..i] + ([f] + fields[i + 1..]);
    FlattenFieldsConcat(fields[..i], [f] + fields[i + 1..], [map[]]);
    var before := FlattenFields(fields[..i], [map[]]);
    var after := ExpandAll(f.key, f.value, before);
    assert ([f] + fields[i + 1..])[1..] == fields[i + 1..];
    assert FlattenFields([f] + fields[i + 1..], before) == FlattenFields(fields[i + 1..], after);
    ExpandAllLeaf(f, before);
    FlattenFieldsKeeps(fields[i + 1..], after, f.key, f.value);
  }
}
