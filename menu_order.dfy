/** The ordering of the in-stock records: `sort_values` over (style, country,
    region) with the style column mapped through a key, a stable multi-column sort.
    The sort takes the record-to-key map as a parameter, as `sort_values` does. */
module MenuOrder {
  import opened Wines

  /** Non-decreasing in the composite key. */
  predicate Sorted(key: Wine -> Key, s: seq<Wine>) {
    forall i, j :: 0 <= i < j < |s| ==> KeyLe(key(s[i]), key(s[j]))
  }

  /** The records of `s` whose composite key is `k`, in their order in `s`. */
  function Group(key: Wine -> Key, s: seq<Wine>, k: Key): seq<Wine> {
    if s == [] then [] else (if key(s[0]) == k then [s[0]] else []) + Group(key, s[1..], k)
  }

  /** Puts `w` after every record whose key is not greater than its own, so records
      with equal keys keep their arrival order. */
  function Insert(key: Wine -> Key, w: Wine, s: seq<Wine>): seq<Wine> {
    if s == [] then [w]
    else if !KeyLe(key(s[0]), key(w)) then [w] + s
    else [s[0]] + Insert(key, w, s[1..])
  }

  /** Insertion adds exactly the one record. */
  lemma {:induction false} InsertPerm(key: Wine -> Key, w: Wine, s: seq<Wine>)
    ensures multiset(Insert(key, w, s)) == multiset(s) + multiset{w}
  {
    if s != [] && KeyLe(key(s[0]), key(w)) {
      InsertPerm(key, w, s[1..]);
      assert s == [s[0]] + s[1..];
    }
  }

  /** The reference ordering: insert the records one by one, in input order. */
  function StableSort(key: Wine -> Key, ws: seq<Wine>): (r: seq<Wine>)
    ensures multiset(r) == multiset(ws)
  {
    if ws == [] then []
    else
      assert ws == ws[..|ws| - 1] + [ws[|ws| - 1]];
      InsertPerm(key, ws[|ws| - 1], StableSort(key, ws[..|ws| - 1]));
      Insert(key, ws[|ws| - 1], StableSort(key, ws[..|ws| - 1]))
  }

  lemma SortedCons(key: Wine -> Key, x: Wine, t: seq<Wine>)
    requires Sorted(key, t)
    requires forall y :: y in t ==> KeyLe(key(x), key(y))
    ensures Sorted(key, [x] + t)
  {
    var s := [x] + t;
    forall i, j | 0 <= i < j < |s| ensures KeyLe(key(s[i]), key(s[j])) {
      if i == 0 {
        assert s[j] == t[j - 1] && s[j] in t;
      } else {
        assert s[i] == t[i - 1] && s[j] == t[j - 1];
      }
    }
  }

  /** Inserting into a sorted sequence keeps it sorted. */
  lemma {:induction false} InsertSorted(key: Wine -> Key, w: Wine, s: seq<Wine>)
    requires Sorted(key, s)
    ensures Sorted(key, Insert(key, w, s))
  {
    if s == [] {
    } else if !KeyLe(key(s[0]), key(w)) {
      KeyLeTotal(key(s[0]), key(w));
      forall y | y in s ensures KeyLe(key(w), key(y)) {
        var j :| 0 <= j < |s| && s[j] == y;
        if j == 0 {
        } else {
          KeyLeTrans(key(w), key(s[0]), key(y));
        }
      }
      SortedCons(key, w, s);
    } else {
      var t := Insert(key, w, s[1..]);
      InsertSorted(key, w, s[1..]);
      InsertPerm(key, w, s[1..]);
      forall y | y in t ensures KeyLe(key(s[0]), key(y)) {
        assert y in multiset(t);
        if y != w {
          assert y in s[1..];
          var j :| 0 <= j < |s[1..]| && s[1..][j] == y;
          assert s[j + 1] == y;
        }
      }
      SortedCons(key, s[0], t);
    }
  }

  lemma {:induction false} GroupAppend(key: Wine -> Key, s: seq<Wine>, w: Wine, k: Key)
    ensures Group(key, s + [w], k) == Group(key, s, k) + (if key(w) == k then [w] else [])
  {
    if s != [] {
      GroupAppend(key, s[1..], w, k);
      assert (s + [w])[1..] == s[1..] + [w];
    }
  }

  lemma {:induction false} GroupNone(key: Wine -> Key, s: seq<Wine>, k: Key)
    requires forall i :: 0 <= i < |s| ==> key(s[i]) != k
    ensures Group(key, s, k) == []
  {
    if s != [] {
      GroupNone(key, s[1..], k);
    }
  }

  /** Insertion places `w` after the records that share its key. */
  lemma {:induction false} InsertGroup(key: Wine -> Key, w: Wine, s: seq<Wine>, k: Key)
    requires Sorted(key, s)
    ensures Group(key, Insert(key, w, s), k) == Group(key, s, k) + (if key(w) == k then [w] else [])
  {
    if s == [] {
    } else if !KeyLe(key(s[0]), key(w)) {
      assert Insert(key, w, s) == [w] + s;
      if key(w) == k {
        forall i | 0 <= i < |s| ensures key(s[i]) != k {
          if i == 0 {
            KeyLeRefl(key(s[0]));
          }
        }
        GroupNone(key, s, k);
      }
    } else {
      InsertGroup(key, w, s[1..], k);
      assert Insert(key, w, s) == [s[0]] + Insert(key, w, s[1..]);
    }
  }

  /** Insertion at a known place: between the records not greater than `w` and
      those greater than it. */
  lemma {:induction false} InsertBetween(key: Wine -> Key, w: Wine, p: seq<Wine>, q: seq<Wine>)
    requires forall i :: 0 <= i < |p| ==> KeyLe(key(p[i]), key(w))
    requires q != [] ==> !KeyLe(key(q[0]), key(w))
    ensures Insert(key, w, p + q) == p + [w] + q
  {
    if p == [] {
      assert p + q == q;
    } else {
      var s := p + q;
      assert s[0] == p[0] && s[1..] == p[1..] + q;
      assert Insert(key, w, s) == [p[0]] + Insert(key, w, s[1..]);
      var rest := p[1..];
      forall i | 0 <= i < |rest| ensures KeyLe(key(rest[i]), key(w)) {
        assert rest[i] == p[i + 1];
      }
      InsertBetween(key, w, rest, q);
      assert p + [w] + q == [p[0]] + (rest + [w] + q);
    }
  }

  /** The reference ordering is sorted, and records with equal keys keep their
      input order: for every key, the records with that key appear in the output
      exactly as they appear in the input. */
  lemma {:induction false} StableSortCorrect(key: Wine -> Key, ws: seq<Wine>)
    ensures Sorted(key, StableSort(key, ws))
    ensures forall k :: Group(key, StableSort(key, ws), k) == Group(key, ws, k)
  {
    if ws != [] {
      var init, last := ws[..|ws| - 1], ws[|ws| - 1];
      StableSortCorrect(key, init);
      InsertSorted(key, last, StableSort(key, init));
      forall k ensures Group(key, StableSort(key, ws), k) == Group(key, ws, k) {
        InsertGroup(key, last, StableSort(key, init), k);
        GroupAppend(key, init, last, k);
        assert init + [last] == ws;
      }
    }
  }

  /** Two records given in the wrong order come out swapped. */
  lemma SortOutOfOrderPair(key: Wine -> Key, x: Wine, y: Wine)
    requires !KeyLe(key(x), key(y))
    ensures StableSort(key, [x, y]) == [y, x]
  {
    assert [x, y][..1] == [x];
    assert [x][..0] == [];
    assert StableSort(key, [x]) == [x];
  }

  /** Two records with the same key (same style, country and region, say two
      producers) keep their order. */
  lemma SortKeepsTiedPair(key: Wine -> Key, x: Wine, y: Wine)
    requires key(x) == key(y)
    ensures StableSort(key, [x, y]) == [x, y]
  {
    assert [x, y][..1] == [x];
    assert [x][..0] == [];
    assert StableSort(key, [x]) == [x];
    KeyLeRefl(key(x));
  }

  /** One more input record: the reference ordering of a longer prefix inserts
      that record into the sorted ordering of the shorter one. */
  lemma StableSortStep(key: Wine -> Key, ws: seq<Wine>, i: nat)
    requires i < |ws|
    ensures Sorted(key, StableSort(key, ws[..i]))
    ensures StableSort(key, ws[..i + 1]) == Insert(key, ws[i], StableSort(key, ws[..i]))
  {
    StableSortCorrect(key, ws[..i]);
    assert ws[..i + 1][..i] == ws[..i];
  }

  /** Inserts `w` into the sorted `s` at the place found by scanning back from
      the end past every record whose key is greater than that of `w`. */
  method InsertInto(key: Wine -> Key, s: seq<Wine>, w: Wine) returns (r: seq<Wine>)
    requires Sorted(key, s)
    ensures r == Insert(key, w, s)
  {
    var j := |s|;
    while j > 0 && !KeyLe(key(s[j - 1]), key(w))
      invariant 0 <= j <= |s|
      invariant forall m :: j <= m < |s| ==> !KeyLe(key(s[m]), key(w))
    {
      j := j - 1;
    }
    forall m | 0 <= m < j ensures KeyLe(key(s[m]), key(w)) {
      if m < j - 1 {
        KeyLeTrans(key(s[m]), key(s[j - 1]), key(w));
      }
    }
    InsertBetween(key, w, s[..j], s[j..]);
    assert s[..j] + s[j..] == s;
    r := s[..j] + [w] + s[j..];
  }

  /** The sort the script asks of pandas, as an insertion sort: the result is a
      sorted permutation of the input that keeps equal keys in input order. */
  method SortWines(key: Wine -> Key, ws: seq<Wine>) returns (s: seq<Wine>)
    ensures s == StableSort(key, ws)
    ensures Sorted(key, s) && multiset(s) == multiset(ws)
    ensures forall k :: Group(key, s, k) == Group(key, ws, k)
  {
    s := [];
    var i := 0;
    while i < |ws|
      invariant 0 <= i <= |ws|
      invariant s == StableSort(key, ws[..i])
    {
      var w := ws[i];
      StableSortStep(key, ws, i);
      s := InsertInto(key, s, w);
      i := i + 1;
    }
    assert ws[..|ws|] == ws;
    assert s == StableSort(key, ws);
    StableSortCorrect(key, ws);
  }
}
