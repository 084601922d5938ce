/** The required-column check made right after the header row is found. */
module Schema {
  import opened Wrappers
  import opened Seqs

  /** COLUMNS: each logical field and the column header the sheet uses for it,
      in declaration order. */
  const Columns: seq<(string, string)> := [
    ("country", "Country"),
    ("region", "Region"),
    ("producer", "Producer"),
    ("title", "Title"),
    ("vintage", "Vintage"),
    ("price", "Purchase price"),
    ("grape", "Main grape"),
    ("stock", "Stock"),
    ("style", "Style")
  ]

  /** `COLUMNS.values()`: the headers, in declaration order. */
  function HeaderNames(cols: seq<(string, string)>): (names: seq<string>)
    ensures |names| == |cols|
    ensures forall i :: 0 <= i < |cols| ==> names[i] == cols[i].1
  {
    if cols == [] then [] else [cols[0].1] + HeaderNames(cols[1..])
  }

  /** The required headers. */
  function RequiredHeaders(): seq<string> {
    HeaderNames(Columns)
  }

  /** `[col for col in names if col not in header]`. */
  function Missing(names: seq<string>, header: seq<string>): (m: seq<string>)
    ensures forall c :: c in m <==> c in names && c !in header
    ensures IsSubsequence(m, names)
  {
    if names == [] then []
    else if names[0] !in header then [names[0]] + Missing(names[1..], header)
    else Missing(names[1..], header)
  }

  /** The check of `missing_cols`: the load goes on only when no required header is
      absent, and otherwise fails naming every absent one, in declaration order. */
  function CheckColumns(header: seq<string>): (r: Result<(), seq<string>>)
    ensures r.Ok? <==> forall c :: c in RequiredHeaders() ==> c in header
    ensures r.Err? ==> forall c :: c in r.error <==> c in RequiredHeaders() && c !in header
    ensures r.Err? ==> r.error != [] && IsSubsequence(r.error, RequiredHeaders())
  {
    var missing := Missing(RequiredHeaders(), header);
    assert missing != [] ==> missing[0] in missing;
    if missing != [] then Err(missing) else Ok(())
  }

  /** A header row that holds every required column (and the anchor) passes. */
  lemma CheckColumnsAcceptsFullHeader()
    ensures CheckColumns(["Bought Quantity"] + RequiredHeaders()).Ok?
  {
    var full := ["Bought Quantity"] + RequiredHeaders();
    forall c | c in RequiredHeaders() ensures c in full {
      assert c in full[1..];
    }
  }
}
