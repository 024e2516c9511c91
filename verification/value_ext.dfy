/** The formatting policy the engine is parameterised by (`ValueExt`): how
    a table-cell placeholder is rendered against one record, and how a
    free-standing text is rendered against the placeholder map. Both are
    pure functions of their arguments. */
module ValueExt {
  import opened Json

  datatype ValueExt = ValueExt(
    /** `replace_in_table(index, key, record)`. */
    replaceInTable: (nat, string, Record) -> string,
    /** `replace(content, placeholders)`. */
    replace: (string, Record) -> string)
}
