/** The PDF class of the script with its drawing calls replaced by an event log:
    a section-change state machine over three cursor fields. */
module Renderer {
  import opened Wrappers

  /** What one drawing helper puts on the page: `style_title`, `chapter_title`
      ("country - region") and `chapter_body`. */
  datatype Event =
    | StyleTitle(style: string)
    | ChapterTitle(country: string, region: string)
    | Body(text: string, price: string, stock: string, grape: string)

  /** The arguments of one `add_wine` call; the script passes `str(...)` of each
      column, so none of them is None. */
  datatype Entry = Entry(
    style: string,
    country: string,
    region: string,
    producer: string,
    name: string,
    vintage: string,
    price: string,
    stock: string,
    grape: string)

  /** `_current_style`, `_current_country`, `_current_region`; None is Python's None. */
  datatype Cursor = Cursor(style: Option<string>, country: Option<string>, region: Option<string>)

  /** The cursor as `__init__` leaves it. */
  const Unset: Cursor := Cursor(None, None, None)

  /** The cursor once an entry's headers are in place. */
  function At(e: Entry): Cursor {
    Cursor(Some(e.style), Some(e.country), Some(e.region))
  }

  /** The body line of an entry: "producer - name vintage", then price, stock, grape. */
  function BodyOf(e: Entry): Event {
    Body(e.producer + " - " + e.name + " " + e.vintage, e.price, e.stock, e.grape)
  }

  /** What `pick` extracts from each event it keeps, in order. */
  function Pick<T>(evs: seq<Event>, pick: Event -> Option<T>): seq<T> {
    if evs == [] then []
    else (if pick(evs[0]).Some? then [pick(evs[0]).value] else []) + Pick(evs[1..], pick)
  }

  lemma {:induction false} PickAppend<T>(a: seq<Event>, b: seq<Event>, pick: Event -> Option<T>)
    ensures Pick(a + b, pick) == Pick(a, pick) + Pick(b, pick)
  {
    if a == [] {
      assert a + b == b;
    } else {
      PickAppend(a[1..], b, pick);
      assert (a + b)[0] == a[0] && (a + b)[1..] == a[1..] + b;
    }
  }

  function TitleOf(e: Event): Option<string> {
    if e.StyleTitle? then Some(e.style) else None
  }

  function ChapterOf(e: Event): Option<(string, string)> {
    if e.ChapterTitle? then Some((e.country, e.region)) else None
  }

  function BodyEvent(e: Event): Option<Event> {
    if e.Body? then Some(e) else None
  }

  /** The style titles among `evs`, in order. */
  function Titles(evs: seq<Event>): seq<string> {
    Pick(evs, TitleOf)
  }

  /** The (country, region) sub-headers among `evs`, in order. */
  function Chapters(evs: seq<Event>): seq<(string, string)> {
    Pick(evs, ChapterOf)
  }

  /** The body entries among `evs`, in order. */
  function Bodies(evs: seq<Event>): seq<Event> {
    Pick(evs, BodyEvent)
  }

  /** `add_wine` as a value: the cursor afterwards and the events drawn. On a style
      change only the country slot is reset, as in the script; the region slot
      keeps its old value. */
  function Step(c: Cursor, e: Entry): (r: (Cursor, seq<Event>))
    ensures r.0 == At(e)
    ensures |r.1| >= 1 && r.1[|r.1| - 1] == BodyOf(e)
  {
    var styleChanged := c.style != Some(e.style);
    var c1 := if styleChanged then Cursor(Some(e.style), None, c.region) else c;
    var chapterChanged := c1.country != Some(e.country) || c1.region != Some(e.region);
    var c2 := if chapterChanged then Cursor(c1.style, Some(e.country), Some(e.region)) else c1;
    (c2,
     (if styleChanged then [StyleTitle(e.style)] else []) +
     (if chapterChanged then [ChapterTitle(e.country, e.region)] else []) +
     [BodyOf(e)])
  }

  /** One call draws a style title exactly when the style differs from the cursor's
      (the unset cursor included); a sub-header exactly when the style changed or
      the (country, region) pair differs from the cursor's; and always one body. */
  lemma StepEvents(c: Cursor, e: Entry)
    ensures Titles(Step(c, e).1) == if c.style != Some(e.style) then [e.style] else []
    ensures Chapters(Step(c, e).1) ==
      if c.style != Some(e.style) || c.country != Some(e.country) || c.region != Some(e.region)
      then [(e.country, e.region)] else []
    ensures Bodies(Step(c, e).1) == [BodyOf(e)]
  {
    var styleChanged := c.style != Some(e.style);
    var chapterChanged := styleChanged || c.country != Some(e.country) || c.region != Some(e.region);
    var t: seq<Event> := if styleChanged then [StyleTitle(e.style)] else [];
    var h: seq<Event> := if chapterChanged then [ChapterTitle(e.country, e.region)] else [];
    assert Step(c, e).1 == t + h + [BodyOf(e)];
    PickAppend(t + h, [BodyOf(e)], TitleOf);
    PickAppend(t, h, TitleOf);
    PickAppend(t + h, [BodyOf(e)], ChapterOf);
    PickAppend(t, h, ChapterOf);
    PickAppend(t + h, [BodyOf(e)], BodyEvent);
    PickAppend(t, h, BodyEvent);
  }

  /** A style title is always followed at once by a sub-header, so no block
      inherits the previous block's (country, region) header. */
  predicate TitleThenChapter(evs: seq<Event>) {
    forall i :: 0 <= i < |evs| && evs[i].StyleTitle? ==> i + 1 < |evs| && evs[i + 1].ChapterTitle?
  }

  lemma StepTitleThenChapter(c: Cursor, e: Entry)
    ensures TitleThenChapter(Step(c, e).1)
  {
  }

  /** The driving loop as a value: `add_wine` applied to each entry in order,
      starting from the unset cursor. */
  function Render(es: seq<Entry>): (r: (Cursor, seq<Event>))
    ensures r.0 == if es == [] then Unset else At(es[|es| - 1])
  {
    if es == [] then (Unset, [])
    else
      var (c, evs) := Render(es[..|es| - 1]);
      var (c2, more) := Step(c, es[|es| - 1]);
      (c2, evs + more)
  }

  /** The loop one entry further: the next `add_wine` call continues from the
      cursor of the entries before it. */
  lemma RenderPrefix(es: seq<Entry>, i: nat)
    requires i < |es|
    ensures Render(es[..i + 1]) ==
      (Step(Render(es[..i]).0, es[i]).0, Render(es[..i]).1 + Step(Render(es[..i]).0, es[i]).1)
  {
    assert es[..i + 1][..i] == es[..i];
  }

  /** Exactly one body per entry, in entry order, whatever headers fire. */
  lemma {:induction false} RenderBodies(es: seq<Entry>)
    ensures Bodies(Render(es).1) == seq(|es|, i requires 0 <= i < |es| => BodyOf(es[i]))
  {
    if es != [] {
      var init := es[..|es| - 1];
      RenderBodies(init);
      StepEvents(Render(init).0, es[|es| - 1]);
      PickAppend(Render(init).1, Step(Render(init).0, es[|es| - 1]).1, BodyEvent);
    }
  }

  /** Reference definition of the style titles: the style of every entry that
      starts a run of equal styles. */
  function StyleRuns(es: seq<Entry>): seq<string> {
    if es == [] then []
    else
      var n := |es|;
      StyleRuns(es[..n - 1]) +
      (if n == 1 || es[n - 2].style != es[n - 1].style then [es[n - 1].style] else [])
  }

  /** Reference definition of the sub-headers: an entry starts a new sub-section
      when it is the first, or its style, country or region differs from those of
      the entry before it. */
  function ChapterRuns(es: seq<Entry>): seq<(string, string)> {
    if es == [] then []
    else
      var n := |es|;
      var e := es[n - 1];
      ChapterRuns(es[..n - 1]) +
      (if n == 1 || es[n - 2].style != e.style || es[n - 2].country != e.country || es[n - 2].region != e.region
       then [(e.country, e.region)] else [])
  }

  /** The renderer draws exactly the reference style titles: a style title is
      drawn only when the style changes, never merely because more entries follow. */
  lemma {:induction false} RenderTitles(es: seq<Entry>)
    ensures Titles(Render(es).1) == StyleRuns(es)
  {
    if es != [] {
      var init := es[..|es| - 1];
      RenderTitles(init);
      StepEvents(Render(init).0, es[|es| - 1]);
      PickAppend(Render(init).1, Step(Render(init).0, es[|es| - 1]).1, TitleOf);
      if |es| > 1 {
        assert init[|init| - 1] == es[|es| - 2];
      }
    }
  }

  /** The renderer draws exactly the reference sub-headers: one whenever the
      (country, region) pair changes, and again after every style change even if
      the pair is the same as before it. */
  lemma {:induction false} RenderChapters(es: seq<Entry>)
    ensures Chapters(Render(es).1) == ChapterRuns(es)
  {
    if es != [] {
      var init := es[..|es| - 1];
      RenderChapters(init);
      StepEvents(Render(init).0, es[|es| - 1]);
      PickAppend(Render(init).1, Step(Render(init).0, es[|es| - 1]).1, ChapterOf);
      if |es| > 1 {
        assert init[|init| - 1] == es[|es| - 2];
      }
    }
  }

  /** Over a whole render, every style title is followed at once by a sub-header. */
  lemma {:induction false} RenderTitleThenChapter(es: seq<Entry>)
    ensures TitleThenChapter(Render(es).1)
  {
    if es != [] {
      var init := es[..|es| - 1];
      RenderTitleThenChapter(init);
      var a := Render(init).1;
      var b := Step(Render(init).0, es[|es| - 1]).1;
      StepTitleThenChapter(Render(init).0, es[|es| - 1]);
      var evs := a + b;
      assert Render(es).1 == evs;
      forall i | 0 <= i < |evs| && evs[i].StyleTitle? ensures i + 1 < |evs| && evs[i + 1].ChapterTitle? {
        if i < |a| {
          assert a[i] == evs[i];
          assert evs[i + 1] == a[i + 1];
        } else {
          assert b[i - |a|] == evs[i];
          assert evs[i + 1] == b[i - |a| + 1];
        }
      }
    }
  }

  /** Two consecutive entries of different styles each get a style title and a
      sub-header, even when their country and region are the same. */
  lemma StyleChangeRedrawsChapter(a: Entry, b: Entry)
    requires a.style != b.style
    ensures Render([a, b]).1 ==
      [StyleTitle(a.style), ChapterTitle(a.country, a.region), BodyOf(a),
       StyleTitle(b.style), ChapterTitle(b.country, b.region), BodyOf(b)]
  {
    assert [a, b][..1] == [a];
    assert [a][..0] == [];
    var first := Step(Unset, a).1;
    assert first == [StyleTitle(a.style), ChapterTitle(a.country, a.region), BodyOf(a)];
    assert Render([a]).1 == [] + first == first;
    assert Step(At(a), b).1 == [StyleTitle(b.style), ChapterTitle(b.country, b.region), BodyOf(b)];
  }

  /** The PDF object: three cursor fields and the log of what it has drawn. */
  class Pdf {
    var currentStyle: Option<string>
    var currentCountry: Option<string>
    var currentRegion: Option<string>
    var events: seq<Event>

    function Position(): Cursor
      reads this
    {
      Cursor(currentStyle, currentCountry, currentRegion)
    }

    constructor ()
      ensures Position() == Unset && events == []
    {
      currentStyle := None;
      currentCountry := None;
      currentRegion := None;
      events := [];
    }

    /** `style_title`: draws the style name. */
    method DrawStyleTitle(style: string)
      modifies this
      ensures events == old(events) + [StyleTitle(style)]
      ensures Position() == old(Position())
    {
      events := events + [StyleTitle(style)];
    }

    /** `chapter_title`: draws "country - region". */
    method DrawChapterTitle(country: string, region: string)
      modifies this
      ensures events == old(events) + [ChapterTitle(country, region)]
      ensures Position() == old(Position())
    {
      events := events + [ChapterTitle(country, region)];
    }

    /** `chapter_body`: draws the name line and the price/stock/grape line. */
    method DrawBody(name: string, price: string, stock: string, grape: string)
      modifies this
      ensures events == old(events) + [Body(name, price, stock, grape)]
      ensures Position() == old(Position())
    {
      events := events + [Body(name, price, stock, grape)];
    }

    /** `add_wine`: headers on change, then the body. */
    method AddWine(style: string, country: string, region: string, producer: string,
                   name: string, vintage: string, price: string, stock: string, grape: string)
      modifies this
      ensures Position() == At(Entry(style, country, region, producer, name, vintage, price, stock, grape))
      ensures events == old(events) +
        Step(old(Position()), Entry(style, country, region, producer, name, vintage, price, stock, grape)).1
    {
      if currentStyle != Some(style) {
        DrawStyleTitle(style);
        currentStyle := Some(style);
        currentCountry := None;
      }
      if currentCountry != Some(country) || currentRegion != Some(region) {
        DrawChapterTitle(country, region);
        currentCountry := Some(country);
        currentRegion := Some(region);
      }
      DrawBody(producer + " - " + name + " " + vintage, price, stock, grape);
    }
  }
}
