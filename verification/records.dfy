/** The data handled by `simple_text_query`: the hits the search index
    returns and the four-field rows the function builds from them. */
module Records {
  import opened Wrappers

  /** One hit: the index fields `metadata_storage_name`,
      `metadata_storage_path`, `metadata_creation_date` and
      `metadata_last_modified` (the dates may be missing). */
  datatype SearchRecord = SearchRecord(
    name: string,
    path: string,
    created: Option<string>,
    modified: Option<string>)

  /** One output row, each field already carrying its separator, exactly as
      the source's four-element list does. `path` is the dedup key. */
  datatype Row = Row(name: string, path: string, created: string, modified: string)

  /** `s` is `value` followed by the separator `sep`. */
  predicate Terminated(s: string, value: string, sep: string) {
    |s| == |value| + |sep| && s[..|value|] == value && s[|value|..] == sep
  }

  /** Lines 118-121: a missing date renders as an empty value, so only its
      separator remains. */
  function RenderRow(rec: SearchRecord, decodedPath: string): (row: Row)
    ensures Terminated(row.name, rec.name, ";")
    ensures Terminated(row.path, decodedPath, ";")
    ensures rec.created.Some? ==> Terminated(row.created, rec.created.value, ";")
    ensures rec.created.None? ==> row.created == ";"
    ensures rec.modified.Some? ==> Terminated(row.modified, rec.modified.value, ";\n")
    ensures rec.modified.None? ==> row.modified == ";\n"
  {
    Row(
      rec.name + ";",
      decodedPath + ";",
      (match rec.created case Some(c) => c case None => "") + ";",
      (match rec.modified case Some(m) => m case None => "") + ";\n")
  }

  /** Two rows share a dedup key exactly when their decoded paths agree:
      appending the separator does not merge distinct paths. */
  lemma RowKeyInjective(a: SearchRecord, pa: string, b: SearchRecord, pb: string)
    ensures RenderRow(a, pa).path == RenderRow(b, pb).path <==> pa == pb
  {
    var ka, kb := RenderRow(a, pa).path, RenderRow(b, pb).path;
    if ka == kb {
      assert pa == ka[..|ka| - 1] == kb[..|kb| - 1] == pb;
    }
  }
}
