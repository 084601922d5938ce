/** The wine records, the stock filter and the composite sort key. */
module Wines {
  import opened PyStr
  import opened Seqs

  /** One row of the inventory sheet after loading (stock already numeric). */
  datatype Wine = Wine(
    country: string,
    region: string,
    producer: string,
    title: string,
    vintage: string,
    price: string,
    grape: string,
    stock: int,
    style: string)

  /** PRIORITY_STYLES: the styles that open the menu, in menu order. */
  const PriorityStyles: seq<string> :=
    ["Champagne", "Sparkling", "Sekt", "Frizzante", "White", "Rose", "Red", "Port", "Dessert"]

  /** `xs.index(x)`: the position of the first occurrence of `x`. */
  function IndexOf(xs: seq<string>, x: string): (i: nat)
    requires x in xs
    ensures i < |xs| && xs[i] == x
    ensures forall j :: 0 <= j < i ==> xs[j] != x
  {
    if xs[0] == x then 0 else 1 + IndexOf(xs[1..], x)
  }

  /** `style_sort_key`: a listed style gets its position in the priority list, any
      other style the length of the list; the style itself breaks ties. */
  function StyleSortKey(style: string): (key: (nat, string))
    ensures key.1 == style
    ensures key.0 <= |PriorityStyles|
    ensures key.0 < |PriorityStyles| <==> style in PriorityStyles
    ensures style in PriorityStyles ==> PriorityStyles[key.0] == style
  {
    if style in PriorityStyles then (IndexOf(PriorityStyles, style), style)
    else (|PriorityStyles|, style)
  }

  /** The full key of `sort_values(by=[Style, Country, Region])` with the style
      column mapped through `style_sort_key`. */
  datatype Key = Key(rank: nat, style: string, country: string, region: string)

  /** A record's key: its style's rank and the style, country and region columns. */
  function KeyOf(w: Wine): (k: Key)
    ensures k.style == w.style && k.country == w.country && k.region == w.region
    ensures k.rank < |PriorityStyles| <==> w.style in PriorityStyles
    ensures w.style in PriorityStyles ==> PriorityStyles[k.rank] == w.style
  {
    var (rank, style) := StyleSortKey(w.style);
    Key(rank, style, w.country, w.region)
  }

  /** Python's tuple comparison `a <= b` on sort keys: the first component that
      differs decides, and equal keys compare as `<=`. */
  predicate KeyLe(a: Key, b: Key)
    ensures a.rank != b.rank ==> (KeyLe(a, b) <==> a.rank < b.rank)
    ensures a.rank == b.rank && a.style != b.style ==> (KeyLe(a, b) <==> StrLe(a.style, b.style))
    ensures a.rank == b.rank && a.style == b.style && a.country != b.country ==>
      (KeyLe(a, b) <==> StrLe(a.country, b.country))
    ensures a.rank == b.rank && a.style == b.style && a.country == b.country ==>
      (KeyLe(a, b) <==> StrLe(a.region, b.region))
  {
    a.rank < b.rank ||
    (a.rank == b.rank &&
      (StrLt(a.style, b.style) ||
      (a.style == b.style &&
        (StrLt(a.country, b.country) ||
        (a.country == b.country && StrLe(a.region, b.region))))))
  }

  lemma KeyLeRefl(a: Key)
    ensures KeyLe(a, a)
  {
    StrLeRefl(a.region);
  }

  lemma KeyLeAntisym(a: Key, b: Key)
    requires KeyLe(a, b) && KeyLe(b, a)
    ensures a == b
  {
    if a.rank == b.rank && a.style == b.style && a.country == b.country {
      StrLeAntisym(a.region, b.region);
    } else if a.rank == b.rank && a.style == b.style {
      StrLeAntisym(a.country, b.country);
    } else if a.rank == b.rank {
      StrLeAntisym(a.style, b.style);
    }
  }

  lemma KeyLeTrans(a: Key, b: Key, c: Key)
    requires KeyLe(a, b) && KeyLe(b, c)
    ensures KeyLe(a, c)
  {
    if a.rank == b.rank == c.rank {
      StrLtTrans(a.style, b.style, c.style);
      if a.style == b.style == c.style {
        StrLtTrans(a.country, b.country, c.country);
        if a.country == b.country == c.country {
          StrLeTrans(a.region, b.region, c.region);
        }
      }
    }
  }

  lemma KeyLeTotal(a: Key, b: Key)
    ensures KeyLe(a, b) || KeyLe(b, a)
  {
    StrLeTotal(a.style, b.style);
    StrLeTotal(a.country, b.country);
    StrLeTotal(a.region, b.region);
  }

  /** Every listed style sorts before every unlisted one, whatever the countries
      and regions. */
  lemma ListedBeforeUnlisted(v: Wine, w: Wine)
    requires v.style in PriorityStyles && w.style !in PriorityStyles
    ensures KeyLe(KeyOf(v), KeyOf(w)) && !KeyLe(KeyOf(w), KeyOf(v))
  {
  }

  /** Two unlisted styles share a rank and sort by their names. */
  lemma UnlistedByName(v: Wine, w: Wine)
    requires v.style !in PriorityStyles && w.style !in PriorityStyles
    requires StrLt(v.style, w.style)
    ensures KeyLe(KeyOf(v), KeyOf(w)) && !KeyLe(KeyOf(w), KeyOf(v))
  {
    if StrLe(w.style, v.style) {
      StrLeAntisym(v.style, w.style);
    }
  }

  /** No style is listed twice, so `index` finds each listed style at its own place. */
  lemma PriorityStylesDistinct()
    ensures forall a, b :: 0 <= a < b < |PriorityStyles| ==> PriorityStyles[a] != PriorityStyles[b]
  {
    var p := PriorityStyles;
    forall a, b | 0 <= a < b < |p| ensures p[a] != p[b] {
      if a == 1 && b == 2 {
        assert p[a][1] != p[b][1];
      } else if a == 5 && b == 6 {
        assert p[a][2] != p[b][2];
      } else {
        assert p[a][0] != p[b][0];
      }
    }
  }

  /** Listed styles sort by their position in the priority list. */
  lemma ListedByPriority(v: Wine, w: Wine, i: nat, j: nat)
    requires i < j < |PriorityStyles|
    requires v.style == PriorityStyles[i] && w.style == PriorityStyles[j]
    ensures KeyLe(KeyOf(v), KeyOf(w)) && !KeyLe(KeyOf(w), KeyOf(v))
  {
    PriorityStylesDistinct();
    assert IndexOf(PriorityStyles, v.style) == i;
    assert IndexOf(PriorityStyles, w.style) == j;
  }


  /** `df[df["Stock"] > 0]`: the records with positive stock, in their order. */
  function InStock(ws: seq<Wine>): (r: seq<Wine>)
    ensures forall i :: 0 <= i < |r| ==> r[i].stock > 0
    ensures IsSubsequence(r, ws)
  {
    if ws == [] then []
    else if ws[0].stock > 0 then
      assert ws == [ws[0]] + ws[1..];
      [ws[0]] + InStock(ws[1..])
    else
      assert ws == [ws[0]] + ws[1..];
      InStock(ws[1..])
  }

  /** The filter keeps each record in stock as often as the input holds it, and
      drops every other one. */
  lemma {:induction false} InStockCount(ws: seq<Wine>)
    ensures forall w :: multiset(InStock(ws))[w] == if w.stock > 0 then multiset(ws)[w] else 0
  {
    if ws != [] {
      InStockCount(ws[1..]);
      assert ws == [ws[0]] + ws[1..];
    }
  }

  /** The filter on a sequence with a first record: that record decides for itself. */
  lemma InStockCons(w: Wine, ws: seq<Wine>)
    ensures InStock([w] + ws) == if w.stock > 0 then [w] + InStock(ws) else InStock(ws)
  {
    assert ([w] + ws)[0] == w && ([w] + ws)[1..] == ws;
  }

  /** A record out of stock between two in stock is dropped; the others keep
      their order. */
  lemma InStockDropsMiddle(a: Wine, b: Wine, c: Wine)
    requires a.stock > 0 && b.stock <= 0 && c.stock > 0
    ensures InStock([a, b, c]) == [a, c]
  {
    InStockCons(c, []);
    assert [c] + [] == [c];
    InStockCons(b, [c]);
    assert [b] + [c] == [b, c];
    InStockCons(a, [b, c]);
    assert [a] + [b, c] == [a, b, c];
  }
}
