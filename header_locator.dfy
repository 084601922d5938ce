/** `remove_lines_until_header`: drop the metadata rows a spreadsheet export
    puts above the real header row. */
module HeaderLocator {
  import opened Wrappers

  /** One CSV row, already split into cells. */
  type Row = seq<string>

  /** The column name that marks the real header row. */
  const Anchor: string := "Bought Quantity"

  /** Index of the first row that has `header` as one of its cells (exact cell match). */
  function FirstHeaderRow(rows: seq<Row>, header: string): (k: Option<nat>)
    ensures k.None? <==> forall i :: 0 <= i < |rows| ==> header !in rows[i]
    ensures k.Some? ==> k.value < |rows| && header in rows[k.value]
    ensures k.Some? ==> forall i :: 0 <= i < k.value ==> header !in rows[i]
  {
    if rows == [] then None
    else if header in rows[0] then Some(0)
    else match FirstHeaderRow(rows[1..], header)
      case None => None
      case Some(k) => Some(k + 1)
  }

  /** What stripping yields: the header row and everything after it, or None when
      no row holds the header. */
  function StripHeader(rows: seq<Row>, header: string): (r: Option<seq<Row>>)
    ensures r.None? <==> forall i :: 0 <= i < |rows| ==> header !in rows[i]
    ensures r.Some? ==> r.value != [] && header in r.value[0]
  {
    match FirstHeaderRow(rows, header)
    case None => None
    case Some(k) => Some(rows[k..])
  }

  /** The loop of the script: a `headerFound` flag that, once set, keeps every
      later row, whether or not it holds the header again. */
  method RemoveLinesUntilHeader(rows: seq<Row>, header: string) returns (r: Option<seq<Row>>)
    ensures r == StripHeader(rows, header)
  {
    var filtered: seq<Row> := [];
    var headerFound := false;
    ghost var start := 0;
    var i := 0;
    while i < |rows|
      invariant 0 <= i <= |rows|
      invariant !headerFound <==> forall j :: 0 <= j < i ==> header !in rows[j]
      invariant !headerFound ==> filtered == []
      invariant headerFound ==> start < i && header in rows[start] && filtered == rows[start..i]
      invariant headerFound ==> forall j :: 0 <= j < start ==> header !in rows[j]
    {
      var row := rows[i];
      if header in row {
        if !headerFound {
          start := i;
        }
        headerFound := true;
        filtered := filtered + [row];
      } else if headerFound {
        filtered := filtered + [row];
      }
      assert headerFound ==> rows[start..i + 1] == rows[start..i] + [row];
      i := i + 1;
    }
    if !headerFound {
      assert FirstHeaderRow(rows, header).None?;
      r := None;
    } else {
      ghost var m := FirstHeaderRow(rows, header);
      assert m.Some? && !(m.value < start) && !(start < m.value);
      assert filtered == rows[start..];
      r := Some(filtered);
    }
  }

  /** What is kept is a suffix of the input, and it starts at the FIRST row that
      holds the header: every row dropped before it lacks the header. */
  lemma StripHeaderSpec(rows: seq<Row>, header: string)
    ensures StripHeader(rows, header).Some? ==>
      |StripHeader(rows, header).value| <= |rows| &&
      StripHeader(rows, header).value == rows[|rows| - |StripHeader(rows, header).value|..]
    ensures StripHeader(rows, header).Some? ==>
      forall i :: 0 <= i < |rows| - |StripHeader(rows, header).value| ==> header !in rows[i]
  {
    if StripHeader(rows, header).Some? {
      var k := FirstHeaderRow(rows, header).value;
      assert |rows| - |StripHeader(rows, header).value| == k;
    }
  }

  /** Every row from the first header row on is kept, at its shifted position,
      including later rows that hold the header again. */
  lemma KeepsEveryLaterRow(rows: seq<Row>, header: string, k: nat, j: nat)
    requires k <= j < |rows| && header in rows[k]
    requires forall i :: 0 <= i < k ==> header !in rows[i]
    ensures StripHeader(rows, header).Some?
    ensures StripHeader(rows, header).value[j - k] == rows[j]
  {
    var m := FirstHeaderRow(rows, header);
    assert m.Some? && m.value == k by {
      assert !(forall i :: 0 <= i < |rows| ==> header !in rows[i]);
      assert !(m.value < k);
      assert !(k < m.value);
    }
  }

  /** The first kept row is the header row, so stripping the stripped rows again
      changes nothing. */
  lemma StripHeaderIdempotent(rows: seq<Row>, header: string)
    requires StripHeader(rows, header).Some?
    ensures StripHeader(StripHeader(rows, header).value, header) == StripHeader(rows, header)
    ensures header in StripHeader(rows, header).value[0]
  {
    var t := StripHeader(rows, header).value;
    assert header in t[0];
    assert FirstHeaderRow(t, header) == Some(0);
    assert t[0..] == t;
  }
}
