/** `DefaultValueHandler`: the formatting policy used unless the caller
    installs another. A table key is cleaned of brackets and then dispatched
    on its modifier: `^` upper-cases the looked-up value, `@` returns it
    unchanged (it is an image payload), `$index` renders the row index, and
    anything else is a plain lookup; a missing key renders as the empty
    string. */
module DefaultHandler {
  import opened Json
  import opened Strings
  import ValueExt

  /** The text conversions the handler delegates to the standard library:
      `format!("{:.2}")` of a number, `str::to_uppercase`, and
      `Value::to_string` (JSON serialisation) of booleans, arrays and
      objects. They are left uninterpreted. */
  datatype TextOps = TextOps(
    formatNumber: real -> string,
    toUpper: string -> string,
    serialize: Json -> string)

  /** `handle_without_quotes`: strings without their quotes, null as nothing,
      numbers with two decimals, anything else as JSON text. */
  function HandleWithoutQuotes(ops: TextOps, v: Json): (s: string)
    ensures v.Str? ==> s == v.s
    ensures v.Null? ==> s == ""
    ensures v.Num? ==> s == ops.formatNumber(v.n)
    ensures v.Bool? || v.Arr? || v.Obj? ==> s == ops.serialize(v)
  {
    match v
    case Str(t) => t
    case Null => ""
    case Num(n) => ops.formatNumber(n)
    case _ => ops.serialize(v)
  }

  /** The key with every `]` and then every `[` removed. A single character
      is kept exactly when it is no bracket; with `CleanKeyConcat` this fixes
      the order of the characters kept, and `CleanKeyCounts` their
      multiplicities. */
  function CleanKey(key: string): (k: string)
    ensures '[' !in k && ']' !in k
    ensures forall c | c in k :: c in key
    ensures forall c | c in key && c != '[' && c != ']' :: c in k
    ensures |key| == 1 ==> k == (if key[0] == '[' || key[0] == ']' then "" else key)
  {
    RemoveAll(RemoveAll(key, ']'), '[')
  }

  /** Every character other than a bracket is kept as often as it occurs. */
  lemma CleanKeyCounts(key: string)
    ensures multiset(CleanKey(key)) == multiset(key)[']' := 0]['[' := 0]
  {
    RemoveAllCounts(key, ']');
    RemoveAllCounts(RemoveAll(key, ']'), '[');
  }

  /** Cleaning works character by character: the cleaned concatenation is
      the concatenation of the cleaned parts, so the characters kept appear
      in the order of the key. */
  lemma CleanKeyConcat(a: string, b: string)
    ensures CleanKey(a + b) == CleanKey(a) + CleanKey(b)
  {
    RemoveAllConcat(a, b, ']');
    RemoveAllConcat(RemoveAll(a, ']'), RemoveAll(b, ']'), '[');
  }

  /** The rendered value under `key`, or the empty string when it is absent. */
  function Lookup(ops: TextOps, key: string, rec: Record): (s: string)
    ensures key !in rec ==> s == ""
    ensures key in rec ==> s == HandleWithoutQuotes(ops, rec[key])
  {
    if key in rec then HandleWithoutQuotes(ops, rec[key]) else ""
  }

  const IndexKey: string := "$index"

  /** `replace_in_table`. */
  function ReplaceInTable(ops: TextOps, index: nat, key: string, rec: Record): (r: string)
    ensures var k := CleanKey(key);
            && ('^' in k ==> r == ops.toUpper(Lookup(ops, RemoveAll(k, '^'), rec)))
            && ('^' !in k && '@' in k ==> r == Lookup(ops, RemoveAll(k, '@'), rec))
            && ('^' !in k && '@' !in k && k == IndexKey ==> r == NatToString(index))
            && ('^' !in k && '@' !in k && k != IndexKey ==> r == Lookup(ops, k, rec))
  {
    var k := CleanKey(key);
    if '^' in k then ops.toUpper(Lookup(ops, RemoveAll(k, '^'), rec))
    else if '@' in k then Lookup(ops, RemoveAll(k, '@'), rec)
    else if k == IndexKey then NatToString(index)
    else Lookup(ops, k, rec)
  }

  /** Text that starts with `{{` and ends with `}}` is a whole placeholder. */
  predicate IsWholePlaceholder(content: string) {
    StartsWith(content, "{{") && EndsWith(content, "}}")
  }

  /** `replace`: a whole placeholder is rendered as table key 0; any other
      text is returned unchanged. */
  function Replace(ops: TextOps, content: string, rec: Record): (r: string)
    ensures !IsWholePlaceholder(content) ==> r == content
    ensures IsWholePlaceholder(content) ==> r == ReplaceInTable(ops, 0, content, rec)
  {
    if IsWholePlaceholder(content) then ReplaceInTable(ops, 0, content, rec) else content
  }

  /** The default handler as a formatting policy. */
  function Handler(ops: TextOps): ValueExt.ValueExt {
    ValueExt.ValueExt((i: nat, k: string, r: Record) => ReplaceInTable(ops, i, k, r),
                      (c: string, r: Record) => Replace(ops, c, r))
  }

  // ---------------------------------------------------------------------
  // Properties

  /** Cleaning is idempotent. */
  lemma CleanKeyIdempotent(key: string)
    ensures CleanKey(CleanKey(key)) == CleanKey(key)
  {
    var k := CleanKey(key);
    assert RemoveAll(k, ']') == k;
    assert RemoveAll(k, '[') == k;
  }

  /** Brackets never matter: a key and its bracket-free form render alike,
      so `[name]` and `name` are the same placeholder. */
  lemma BracketsIgnored(ops: TextOps, index: nat, key: string, rec: Record)
    ensures ReplaceInTable(ops, index, key, rec) == ReplaceInTable(ops, index, CleanKey(key), rec)
  {
    CleanKeyIdempotent(key);
  }

  /** Only the `$index` key depends on the row index. */
  lemma IndexOnlyMatters(ops: TextOps, i: nat, j: nat, key: string, rec: Record)
    requires CleanKey(key) != IndexKey
    ensures ReplaceInTable(ops, i, key, rec) == ReplaceInTable(ops, j, key, rec)
  {
  }

  /** A key without modifiers that the record lacks renders as the empty
      string. */
  lemma MissingKeyIsEmpty(ops: TextOps, index: nat, key: string, rec: Record)
    requires '^' !in key && '@' !in key && CleanKey(key) != IndexKey && CleanKey(key) !in rec
    ensures ReplaceInTable(ops, index, key, rec) == ""
  {
    var k := CleanKey(key);
    assert '^' !in k && '@' !in k;
  }

  /** `[$index]` is the index key once cleaned. */
  lemma BracketedIndexKey()
    ensures CleanKey("[$index]") == IndexKey
  {
    StripIndexBrackets();
  }

  lemma StripIndexBrackets()
    ensures RemoveAll(RemoveAll("[$index]", ']'), '[') == "$index"
  {
    assert "[$index]" == "[" + "$index" + "]";
    StripBrackets("$index");
  }

  /** Deleting the brackets around a bracket-free body leaves the body. */
  lemma StripBrackets(body: string)
    requires '[' !in body && ']' !in body
    ensures RemoveAll(RemoveAll("[" + body + "]", ']'), '[') == body
  {
    var open: string := "[";
    var close: string := "]";
    assert RemoveAll(close, ']') == [] && RemoveAll(open, ']') == open && RemoveAll(open, '[') == [];
    assert RemoveAll(body, ']') == body && RemoveAll(body, '[') == body;
    RemoveAllConcat(open + body, close, ']');
    RemoveAllConcat(open, body, ']');
    assert open + body + close == (open + body) + close;
    assert RemoveAll(open + body + close, ']') == open + body;
    RemoveAllConcat(open, body, '[');
  }

  /** A key that cleans to `$index` (such as `[$index]`) renders the row
      index in decimal, which reads back as the index. */
  lemma IndexRendersRow(ops: TextOps, index: nat, key: string, rec: Record)
    requires CleanKey(key) == IndexKey
    ensures ReplaceInTable(ops, index, key, rec) == NatToString(index)
    ensures DecimalValue(ReplaceInTable(ops, index, key, rec)) == index
  {
    assert '^' !in IndexKey && '@' !in IndexKey;
    NatToStringRoundTrip(index);
  }

  lemma CleanKeyBracketFree(key: string)
    requires '[' !in key && ']' !in key
    ensures CleanKey(key) == key
  {
    assert RemoveAll(key, ']') == key;
  }

  /** A whole placeholder is looked up with its braces: `{{title}}` renders
      the string stored under the key `{{title}}`. */
  lemma WholePlaceholderLookup(ops: TextOps, name: string, value: string, rec: Record)
    requires forall c | c in name :: c !in "[]^@"
    requires "{{" + name + "}}" in rec && rec["{{" + name + "}}"] == Str(value)
    ensures Replace(ops, "{{" + name + "}}", rec) == value
  {
    var content := "{{" + name + "}}";
    assert IsWholePlaceholder(content) by {
      assert content[..2] == "{{";
      assert content[|content| - 2..] == "}}";
    }
    assert ']' !in content && '[' !in content;
    CleanKeyBracketFree(content);
    assert '^' !in content && '@' !in content;
    assert content != IndexKey by {
      assert content[0] != IndexKey[0];
    }
  }
}
