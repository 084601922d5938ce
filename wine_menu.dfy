/** The script from the downloaded rows to the drawn menu: strip the rows above
    the header, check the columns, keep the wines in stock, sort them, draw them. */
module WineMenu {
  import opened Wrappers
  import opened PyStr
  import opened HeaderLocator
  import opened Schema
  import opened Wines
  import opened MenuOrder
  import opened Renderer

  /** Why the script exits with status 1 before drawing anything. */
  datatype LoadError =
    | HeaderNotFound(anchor: string)
    | MissingColumns(columns: seq<string>)

  /** The arguments the driving loop passes to `add_wine` for one record: every
      column through `str`. */
  function EntryOf(w: Wine): Entry {
    Entry(w.style, w.country, w.region, w.producer, w.title, w.vintage, w.price,
          IntToString(w.stock), w.grape)
  }

  /** Every column of the record can be read back from the arguments: the text
      columns as they are, the stock by parsing its `str`. */
  lemma EntryOfReadsBack(w: Wine)
    ensures EntryOf(w).style == w.style && EntryOf(w).country == w.country && EntryOf(w).region == w.region
    ensures EntryOf(w).producer == w.producer && EntryOf(w).name == w.title && EntryOf(w).vintage == w.vintage
    ensures EntryOf(w).price == w.price && EntryOf(w).grape == w.grape
    ensures ParseInt(EntryOf(w).stock) == Some(w.stock)
  {
    IntToStringRoundTrip(w.stock);
  }

  /** Distinct records are drawn from distinct `add_wine` arguments. */
  lemma EntryOfInjective(v: Wine, w: Wine)
    requires EntryOf(v) == EntryOf(w)
    ensures v == w
  {
    EntryOfReadsBack(v);
    EntryOfReadsBack(w);
  }

  function Entries(ws: seq<Wine>): seq<Entry> {
    seq(|ws|, i requires 0 <= i < |ws| => EntryOf(ws[i]))
  }

  /** The records handed to the renderer, or why the script stops. `readTable`
      stands for `pd.read_csv` on the stripped rows, whose first row is the header
      row that names the columns. The load stops with HeaderNotFound, naming the
      anchor, exactly when no row holds the anchor. */
  function Prepare(raw: seq<Row>, readTable: seq<Row> -> seq<Wine>): (r: Result<seq<Wine>, LoadError>)
    ensures (r.Err? && r.error.HeaderNotFound?) <==> forall i :: 0 <= i < |raw| ==> Anchor !in raw[i]
    ensures r.Err? && r.error.HeaderNotFound? ==> r.error.anchor == Anchor
    ensures r.Ok? ==> StripHeader(raw, Anchor).Some?
  {
    var stripped := StripHeader(raw, Anchor);
    if stripped.None? then Err(HeaderNotFound(Anchor))
    else
      var check := CheckColumns(stripped.value[0]);
      if check.Err? then Err(MissingColumns(check.error))
      else Ok(StableSort(KeyOf, InStock(readTable(stripped.value))))
  }

  /** The whole script as a value: the events it draws, or why it stops. It stops
      exactly when the load does, with the same error. */
  function Menu(raw: seq<Row>, readTable: seq<Row> -> seq<Wine>): (r: Result<seq<Event>, LoadError>)
    ensures r.Err? <==> Prepare(raw, readTable).Err?
    ensures r.Err? ==> r.error == Prepare(raw, readTable).error
  {
    var p := Prepare(raw, readTable);
    if p.Err? then Err(p.error) else Ok(Render(Entries(p.value)).1)
  }

  /** A menu has one body per loaded wine, in menu order, as many as there are
      wines in stock, and every style title in it is followed at once by a
      sub-header. */
  lemma MenuSpec(raw: seq<Row>, readTable: seq<Row> -> seq<Wine>)
    ensures Prepare(raw, readTable).Ok? ==>
      Menu(raw, readTable).Ok? &&
      var ws := Prepare(raw, readTable).value;
      var evs := Menu(raw, readTable).value;
      Bodies(evs) == seq(|ws|, i requires 0 <= i < |ws| => BodyOf(EntryOf(ws[i]))) &&
      |Bodies(evs)| == |InStock(readTable(StripHeader(raw, Anchor).value))| &&
      TitleThenChapter(evs)
  {
    if Prepare(raw, readTable).Ok? {
      var ws := Prepare(raw, readTable).value;
      assert Menu(raw, readTable).value == Render(Entries(ws)).1;
      DrawnMenu(ws);
      PrepareSpec(raw, readTable);
    }
  }

  /** Drawing any list of wines: one body per wine, in order, and every style
      title followed at once by a sub-header. */
  lemma DrawnMenu(ws: seq<Wine>)
    ensures Bodies(Render(Entries(ws)).1) == seq(|ws|, i requires 0 <= i < |ws| => BodyOf(EntryOf(ws[i])))
    ensures TitleThenChapter(Render(Entries(ws)).1)
  {
    var es := Entries(ws);
    RenderBodies(es);
    RenderTitleThenChapter(es);
  }

  /** The wines kept from a table: those in stock, as many as there are, sorted by
      the composite key, with equal keys in sheet order. */
  ghost predicate LoadedFrom(r: seq<Wine>, ws: seq<Wine>) {
    Sorted(KeyOf, r) && multiset(r) == multiset(ws) && |r| == |ws| &&
    (forall i :: 0 <= i < |r| ==> r[i].stock > 0) &&
    (forall k :: Group(KeyOf, r, k) == Group(KeyOf, ws, k))
  }

  lemma SortInStock(table: seq<Wine>)
    ensures LoadedFrom(StableSort(KeyOf, InStock(table)), InStock(table))
  {
    var ws := InStock(table);
    StableSortCorrect(KeyOf, ws);
    var r := StableSort(KeyOf, ws);
    forall i | 0 <= i < |r| ensures r[i].stock > 0 {
      assert r[i] in multiset(ws);
    }
    assert |r| == |multiset(r)| == |multiset(ws)| == |ws|;
  }

  /** The load goes on exactly when the anchor is found and the header row holds
      every required column; when a column is missing it stops naming all the
      missing ones and only those; and a successful load holds the wines in stock of
      the table read from the stripped rows, sorted stably by the composite key. */
  lemma PrepareSpec(raw: seq<Row>, readTable: seq<Row> -> seq<Wine>)
    ensures Prepare(raw, readTable).Ok? <==> (StripHeader(raw, Anchor).Some? &&
      forall c :: c in RequiredHeaders() ==> c in StripHeader(raw, Anchor).value[0])
    ensures (StripHeader(raw, Anchor).Some? &&
             !(forall c :: c in RequiredHeaders() ==> c in StripHeader(raw, Anchor).value[0])) ==>
      Prepare(raw, readTable).Err? && Prepare(raw, readTable).error.MissingColumns?
    ensures Prepare(raw, readTable).Err? && Prepare(raw, readTable).error.MissingColumns? ==>
      Prepare(raw, readTable).error.columns != [] &&
      forall c :: c in Prepare(raw, readTable).error.columns <==>
        c in RequiredHeaders() && c !in StripHeader(raw, Anchor).value[0]
    ensures Prepare(raw, readTable).Ok? ==>
      LoadedFrom(Prepare(raw, readTable).value, InStock(readTable(StripHeader(raw, Anchor).value)))
  {
    if StripHeader(raw, Anchor).Some? {
      var t := StripHeader(raw, Anchor).value;
      var check := CheckColumns(t[0]);
      if check.Ok? {
        assert Prepare(raw, readTable).value == StableSort(KeyOf, InStock(readTable(t)));
        SortInStock(readTable(t));
      } else {
        assert Prepare(raw, readTable) == Err(MissingColumns(check.error));
      }
    }
  }

  /** The driving loop: one `add_wine` call per record, in order, on a fresh PDF;
      `es` holds the `str` of every column of each record, as `Entries` makes them. */
  method DrawMenu(es: seq<Entry>) returns (events: seq<Event>)
    ensures events == Render(es).1
  {
    var pdf := new Pdf();
    var i := 0;
    while i < |es|
      invariant 0 <= i <= |es|
      invariant pdf.Position() == Render(es[..i]).0
      invariant pdf.events == Render(es[..i]).1
    {
      var e := es[i];
      pdf.AddWine(e.style, e.country, e.region, e.producer, e.name, e.vintage, e.price, e.stock, e.grape);
      RenderPrefix(es, i);
      i := i + 1;
    }
    assert es[..|es|] == es;
    events := pdf.events;
  }

  /** The script: each step as the script runs it, ending where `Menu` says. */
  method Run(raw: seq<Row>, readTable: seq<Row> -> seq<Wine>) returns (r: Result<seq<Event>, LoadError>)
    ensures r == Menu(raw, readTable)
  {
    var stripped := RemoveLinesUntilHeader(raw, Anchor);
    if stripped.None? {
      return Err(HeaderNotFound(Anchor));
    }
    var table := stripped.value;
    var check := CheckColumns(table[0]);
    if check.Err? {
      return Err(MissingColumns(check.error));
    }
    var inStock := InStock(readTable(table));
    var sorted := SortWines(KeyOf, inStock);
    var events := DrawMenu(Entries(sorted));
    r := Ok(events);
  }

  /** When no wine is in stock the script still draws a menu, an empty one. */
  lemma EmptyMenu(raw: seq<Row>, readTable: seq<Row> -> seq<Wine>)
    ensures (Prepare(raw, readTable).Ok? &&
             forall w :: w in readTable(StripHeader(raw, Anchor).value) ==> w.stock <= 0) ==>
      Menu(raw, readTable) == Ok([])
  {
    if Prepare(raw, readTable).Ok? &&
       forall w :: w in readTable(StripHeader(raw, Anchor).value) ==> w.stock <= 0 {
      var ws := InStock(readTable(StripHeader(raw, Anchor).value));
      InStockCount(readTable(StripHeader(raw, Anchor).value));
      assert forall w :: multiset(ws)[w] == 0;
      assert multiset(ws) == multiset{};
      assert Prepare(raw, readTable).value == [];
      assert Menu(raw, readTable) == Ok(Render(Entries([])).1);
    }
  }

  /** A red in stock, a wine out of stock and a white in stock, in that sheet
      order: the one out of stock is dropped and the white comes first. */
  lemma RedWhiteOrder(red: Wine, sold: Wine, white: Wine)
    requires red.style == "Red" && white.style == "White"
    requires red.stock > 0 && sold.stock <= 0 && white.stock > 0
    ensures StableSort(KeyOf, InStock([red, sold, white])) == [white, red]
  {
    InStockDropsMiddle(red, sold, white);
    ListedByPriority(white, red, 4, 6);
    SortOutOfOrderPair(KeyOf, red, white);
  }

  /** Drawing that order: each wine gets its own style title and sub-header. */
  lemma RedWhiteMenu(red: Wine, white: Wine)
    requires red.style == "Red" && white.style == "White"
    ensures Render(Entries([white, red])).1 ==
      [StyleTitle("White"), ChapterTitle(white.country, white.region), BodyOf(EntryOf(white)),
       StyleTitle("Red"), ChapterTitle(red.country, red.region), BodyOf(EntryOf(red))]
  {
    assert Entries([white, red]) == [EntryOf(white), EntryOf(red)];
    StyleChangeRedrawsChapter(EntryOf(white), EntryOf(red));
  }
}
