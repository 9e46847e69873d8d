/** Ranged iteration over a B-tree, upwards and downwards, with a callback that may stop it. */
module BTreeIterate {
  import opened BTreeItems
  import opened BTreeNodes

  /** The callback, asked after each item: it is given all items so far, the latest last. */
  type More = seq<Item> -> bool

  datatype Query = Query(up: bool, start: Option<Key>, stop: Option<Key>, includeStart: bool)

  /** What iterate is passed and returns: whether an item was hit, whether to go on, the items given. */
  datatype Walk = Walk(hit: bool, ok: bool, given: seq<Item>)

  /** The item the start stands on is passed over. */
  predicate Skips(q: Query, hit: bool, x: Item) {
    q.start.Some? &&
    if q.up then !q.includeStart && !hit && !(q.start.value < x.key)
    else !(x.key < q.start.value) && (!q.includeStart || hit || q.start.value < x.key)
  }

  predicate Ends(q: Query, x: Item) {
    q.stop.Some? && if q.up then !(x.key < q.stop.value) else !(q.stop.value < x.key)
  }

  function Give(q: Query, more: More, w: Walk, x: Item): Walk {
    if Ends(q, x) then w.(hit := q.up || w.hit, ok := false)
    else Walk(true, more(w.given + [x]), w.given + [x])
  }

  function Visit(q: Query, more: More, w: Walk, x: Item): Walk {
    if Skips(q, w.hit, x) then w.(hit := q.up || w.hit) else Give(q, more, w, x)
  }

  // ----- iterate -----

  /** From item i on; `last` is what iterate returns at its end. */
  function UpFrom(t: Tree, i: nat, q: Query, last: bool, more: More, w: Walk): Walk
    requires i <= |t.items|
    decreases t, |t.items| - i
  {
    var c := if i < |t.kids| then Up(t.kids[i], q, last, more, w) else w;
    if !c.ok then c
    else if i == |t.items| then c.(ok := last)
    else
      var v := Visit(q, more, c, t.items[i]);
      if v.ok then UpFrom(t, i + 1, q, last, more, v) else v
  }

  function Up(t: Tree, q: Query, last: bool, more: More, w: Walk): Walk
    decreases t, |t.items| + 1
  {
    UpFrom(t, if q.start.Some? then Find(t.items, q.start.value).0 else 0, q, last, more, w)
  }

  /** From item n-1 down. */
  function DownFrom(t: Tree, n: nat, q: Query, last: bool, more: More, w: Walk): Walk
    requires n <= |t.items|
    decreases t, n
  {
    if n > 0 && Skips(q, w.hit, t.items[n - 1]) then DownFrom(t, n - 1, q, last, more, w)
    else
      var c := if n < |t.kids| then Down(t.kids[n], q, last, more, w) else w;
      if !c.ok then c
      else if n == 0 then c.(ok := last)
      else
        var v := Give(q, more, c, t.items[n - 1]);
        if v.ok then DownFrom(t, n - 1, q, last, more, v) else v
  }

  function Down(t: Tree, q: Query, last: bool, more: More, w: Walk): Walk
    decreases t, |t.items| + 1
  {
    var (i, found) := if q.start.Some? then Find(t.items, q.start.value) else (|t.items|, false);
    DownFrom(t, if found then i + 1 else i, q, last, more, w)
  }

  function Iterate(t: Tree, q: Query, last: bool, more: More): Walk {
    var w := Walk(false, true, []);
    if q.up then Up(t, q, last, more, w) else Down(t, q, last, more, w)
  }

  // ----- what it amounts to on a listing -----

  function Feed(q: Query, more: More, w: Walk, xs: seq<Item>): Walk
    decreases |xs|
  {
    if xs == [] || !w.ok then w else Feed(q, more, Visit(q, more, w, xs[0]), xs[1..])
  }

  lemma {:induction false} FeedConcat(q: Query, more: More, w: Walk, a: seq<Item>, b: seq<Item>)
    ensures Feed(q, more, w, a + b) == Feed(q, more, Feed(q, more, w, a), b)
    decreases |a|
  {
    if a == [] || !w.ok {
      assert a == [] ==> a + b == b;
    } else {
      assert (a + b)[1..] == a[1..] + b;
      FeedConcat(q, more, Visit(q, more, w, a[0]), a[1..], b);
    }
  }

  /** The items of a sorted listing from the start on, in the direction of the walk. */
  function Ahead(q: Query, s: seq<Item>): seq<Item> {
    if q.up then if q.start.Some? then s[Find(s, q.start.value).0..] else s
    else
      var (i, found) := if q.start.Some? then Find(s, q.start.value) else (|s|, false);
      Reversed(s[..if found then i + 1 else i])
  }

  function Reversed(s: seq<Item>): (r: seq<Item>)
    ensures |r| == |s| && forall j | 0 <= j < |s| :: r[j] == s[|s| - 1 - j]
  {
    if s == [] then [] else [Last(s)] + Reversed(ButLast(s))
  }

  // ----- upwards -----

  /** What lies ahead of child i, child i included. */
  function RestUp(t: Tree, i: nat, q: Query): seq<Item>
    requires i <= |t.items| && (t.kids == [] || |t.kids| == |t.items| + 1)
  {
    if t.kids == [] then t.items[i..] else Ahead(q, Flat(t.kids[i])) + After(t, i)
  }

  lemma AfterNext(t: Tree, i: nat)
    requires |t.kids| == |t.items| + 1 && i < |t.items|
    ensures After(t, i) == [t.items[i]] + Flat(t.kids[i + 1]) + After(t, i + 1)
  {
    var kids, items := t.kids[i + 1..], t.items[i + 1..];
    assert kids[0] == t.kids[i + 1];
    if items != [] {
      assert items[0] == t.items[i + 1] && kids[1..] == t.kids[i + 2..] && items[1..] == t.items[i + 2..];
    }
  }

  /** A child right of the start lies ahead as a whole. */
  lemma WholeAhead(q: Query, s: seq<Item>)
    requires q.up && Sorted(s) && (q.start.Some? ==> forall x | x in s :: q.start.value < x.key)
    ensures Ahead(q, s) == s
  {
    if q.start.Some? {
      forall j | 0 <= j < |s| ensures q.start.value < s[j].key {
        assert s[j] in s;
      }
      PositionIsFind(s, q.start.value, 0, false);
    }
  }

  lemma RestUpNext(t: Tree, h: nat, lo: nat, d: Degree, i: nat, q: Query)
    requires q.up && h > 0 && Fits(t, h, lo, d) && Sorted(Flat(t)) && i < |t.items|
    requires q.start.Some? ==> q.start.value <= t.items[i].key
    ensures RestUp(t, i, q) == Ahead(q, Flat(t.kids[i])) + [t.items[i]] + RestUp(t, i + 1, q)
  {
    hide Flat, Before, After;
    AfterNext(t, i);
    FlatAt(t, i + 1);
    SortedMiddle(Before(t, i + 1), Flat(t.kids[i + 1]), After(t, i + 1));
    if q.start.Some? {
      forall x | x in Flat(t.kids[i + 1]) ensures q.start.value < x.key {
        ChildBetween(t, i + 1, x);
      }
    }
    WholeAhead(q, Flat(t.kids[i + 1]));
  }

  lemma FeedStep(q: Query, more: More, w: Walk, x: Item, xs: seq<Item>)
    requires w.ok
    ensures Feed(q, more, w, [x] + xs) == Feed(q, more, Visit(q, more, w, x), xs)
  {
    assert ([x] + xs)[1..] == xs;
  }

  function FirstUp(t: Tree, i: nat, q: Query): seq<Item> {
    if i < |t.kids| then Ahead(q, Flat(t.kids[i])) else []
  }

  lemma RestUpSplits(t: Tree, h: nat, lo: nat, d: Degree, i: nat, q: Query)
    requires q.up && Fits(t, h, lo, d) && Sorted(Flat(t)) && i <= |t.items|
    requires q.start.Some? && i < |t.items| ==> q.start.value <= t.items[i].key
    ensures RestUp(t, i, q) == FirstUp(t, i, q) + if i == |t.items| then [] else [t.items[i]] + RestUp(t, i + 1, q)
  {
    hide Ahead, Flat, Sorted;
    if h > 0 && i < |t.items| {
      RestUpNext(t, h, lo, d, i, q);
      var first, rest := FirstUp(t, i, q), RestUp(t, i + 1, q);
      assert first + [t.items[i]] + rest == first + ([t.items[i]] + rest);
    }
  }

  /** The walk through one child, or past none in a leaf. */
  lemma {:induction false} ChildFeeds(t: Tree, h: nat, lo: nat, d: Degree, i: nat, q: Query, more: More, w: Walk)
    requires q.up && Fits(t, h, lo, d) && Sorted(Flat(t)) && i <= |t.items| && w.ok
    ensures (if i < |t.kids| then Up(t.kids[i], q, true, more, w) else w) == Feed(q, more, w, FirstUp(t, i, q))
    decreases h, 0
  {
    if h > 0 {
      FlatAt(t, i);
      SortedMiddle(Before(t, i), Flat(t.kids[i]), After(t, i));
      UpFeeds(t.kids[i], h - 1, d - 1, d, q, more, w);
    }
  }

  lemma {:induction false} UpFromFeeds(t: Tree, h: nat, lo: nat, d: Degree, i: nat, q: Query, more: More, w: Walk)
    requires q.up && Fits(t, h, lo, d) && Sorted(Flat(t)) && i <= |t.items| && w.ok
    requires q.start.Some? ==> forall j | i <= j < |t.items| :: q.start.value <= t.items[j].key
    ensures UpFrom(t, i, q, true, more, w) == Feed(q, more, w, RestUp(t, i, q))
    decreases h, |t.items| - i + 1
  {
    hide Up, Feed, Ahead, RestUp, FirstUp, Visit, Flat, Sorted;
    var c := if i < |t.kids| then Up(t.kids[i], q, true, more, w) else w;
    ChildFeeds(t, h, lo, d, i, q, more, w);
    RestUpSplits(t, h, lo, d, i, q);
    if i == |t.items| {
      assert FirstUp(t, i, q) + [] == FirstUp(t, i, q);
    } else {
      var rest := RestUp(t, i + 1, q);
      FeedConcat(q, more, w, FirstUp(t, i, q), [t.items[i]] + rest);
      if c.ok {
        FeedStep(q, more, c, t.items[i], rest);
        var v := Visit(q, more, c, t.items[i]);
        if v.ok {
          UpFromFeeds(t, h, lo, d, i + 1, q, more, v);
        } else {
          FeedStops(q, more, v, rest);
        }
      } else {
        FeedStops(q, more, c, [t.items[i]] + rest);
      }
    }
  }

  lemma FeedStops(q: Query, more: More, w: Walk, xs: seq<Item>)
    requires !w.ok
    ensures Feed(q, more, w, xs) == w
  {}

  lemma InnerAhead(t: Tree, h: nat, lo: nat, d: Degree, q: Query, i: nat, found: bool)
    requires q.up && h > 0 && Fits(t, h, lo, d) && Sorted(Flat(t)) && q.start.Some? &&
             Find(t.items, q.start.value) == (i, found)
    ensures Ahead(q, Flat(t)) == RestUp(t, i, q)
  {
    hide Flat;
    var key := q.start.value;
    RootSorted(t);
    FindIsPosition(t.items, key);
    FlatAt(t, i);
    var b, m, a := Before(t, i), Flat(t.kids[i]), After(t, i);
    if found {
      KeyAfter(b, m, a, key);
    } else {
      ChildHoldsKey(t, key, i);
      SortedMiddle(b, m, a);
      FindInMiddle(b, m, a, key);
      SuffixMiddle(b, m, a, Find(m, key).0);
    }
  }

  lemma SuffixMiddle(b: seq<Item>, m: seq<Item>, a: seq<Item>, k: nat)
    requires k <= |m|
    ensures (b + m + a)[|b| + k..] == m[k..] + a
  {}

  lemma AheadOfRoot(t: Tree, h: nat, lo: nat, d: Degree, q: Query)
    requires q.up && Fits(t, h, lo, d) && Sorted(Flat(t))
    ensures var i := if q.start.Some? then Find(t.items, q.start.value).0 else 0;
            && Ahead(q, Flat(t)) == RestUp(t, i, q)
            && (q.start.Some? ==> forall j | i <= j < |t.items| :: q.start.value <= t.items[j].key)
  {
    RootSorted(t);
    if q.start.None? {
      if h > 0 {
        FlatAt(t, 0);
      }
    } else {
      FindIsPosition(t.items, q.start.value);
      if h > 0 {
        InnerAhead(t, h, lo, d, q, Find(t.items, q.start.value).0, Find(t.items, q.start.value).1);
      }
    }
  }

  /** A key that stands first behind the middle. */
  lemma KeyAfter(b: seq<Item>, m: seq<Item>, a: seq<Item>, key: Key)
    requires Sorted(b + m + a) && a != [] && a[0].key == key
    ensures (b + m + a)[Find(b + m + a, key).0..] == a && m[Find(m, key).0..] == []
  {
    var s, n := b + m + a, |b| + |m|;
    assert s[n] == a[0] && s[n..] == a;
    PositionIsFind(s, key, n, true);
    forall j | 0 <= j < |m| ensures m[j].key < key {
      assert s[|b| + j] == m[j];
    }
    SortedMiddle(b, m, a);
    PositionIsFind(m, key, |m|, false);
  }

  lemma {:induction false} UpFeeds(t: Tree, h: nat, lo: nat, d: Degree, q: Query, more: More, w: Walk)
    requires q.up && Fits(t, h, lo, d) && Sorted(Flat(t)) && w.ok
    ensures Up(t, q, true, more, w) == Feed(q, more, w, Ahead(q, Flat(t)))
    decreases h, |t.items| + 2
  {
    AheadOfRoot(t, h, lo, d, q);
    UpFromFeeds(t, h, lo, d, if q.start.Some? then Find(t.items, q.start.value).0 else 0, q, more, w);
  }

  // ----- downwards -----

  function FirstDown(t: Tree, n: nat, q: Query): seq<Item> {
    if n < |t.kids| then Ahead(q, Flat(t.kids[n])) else []
  }

  /** What lies ahead below item n, child n included. */
  function RestDown(t: Tree, n: nat, q: Query): seq<Item>
    requires n <= |t.items| && (t.kids == [] || |t.kids| == |t.items| + 1)
  {
    if t.kids == [] then Reversed(t.items[..n]) else Ahead(q, Flat(t.kids[n])) + Reversed(Before(t, n))
  }

  lemma {:induction false} ReversedConcat(a: seq<Item>, b: seq<Item>)
    ensures Reversed(a + b) == Reversed(b) + Reversed(a)
    decreases |b|
  {
    if b == [] {
      assert a + b == a;
    } else {
      assert ButLast(a + b) == a + ButLast(b) && Last(a + b) == Last(b);
      ReversedConcat(a, ButLast(b));
    }
  }

  lemma ReversedOne(x: Item)
    ensures Reversed([x]) == [x]
  {
    assert ButLast([x]) == [];
  }

  /** A child left of the start lies ahead as a whole, one right of it not at all. */
  lemma WholeAheadDown(q: Query, s: seq<Item>)
    requires !q.up && Sorted(s)
    ensures (q.start.Some? ==> forall x | x in s :: x.key < q.start.value) ==> Ahead(q, s) == Reversed(s)
    ensures (q.start.Some? && forall x | x in s :: q.start.value < x.key) ==> Ahead(q, s) == []
  {
    if q.start.Some? && forall x | x in s :: x.key < q.start.value {
      PositionIsFind(s, q.start.value, |s|, false);
    }
    if q.start.Some? && forall x | x in s :: q.start.value < x.key {
      PositionIsFind(s, q.start.value, 0, false);
    }
    assert s[..|s|] == s;
  }

  lemma KidDown(t: Tree, h: nat, lo: nat, d: Degree, n: nat, q: Query)
    requires !q.up && h > 0 && Fits(t, h, lo, d) && Sorted(Flat(t)) && n <= |t.items|
    ensures n < |t.items| && (q.start.Some? ==> t.items[n].key <= q.start.value) ==>
            Ahead(q, Flat(t.kids[n])) == Reversed(Flat(t.kids[n]))
    ensures n > 0 && q.start.Some? && q.start.value <= t.items[n - 1].key ==> Ahead(q, Flat(t.kids[n])) == []
  {
    FlatAt(t, n);
    SortedMiddle(Before(t, n), Flat(t.kids[n]), After(t, n));
    forall x | x in Flat(t.kids[n])
      ensures (n > 0 ==> t.items[n - 1].key < x.key) && (n < |t.items| ==> x.key < t.items[n].key)
    {
      ChildBetween(t, n, x);
    }
    WholeAheadDown(q, Flat(t.kids[n]));
  }

  /** Going down past item n-1 of an inner node, the child left of it lies ahead as a whole. */
  lemma InnerDownSplits(t: Tree, h: nat, lo: nat, d: Degree, n: nat, q: Query)
    requires !q.up && h > 0 && Fits(t, h, lo, d) && Sorted(Flat(t)) && 0 < n <= |t.items|
    requires q.start.Some? ==> t.items[n - 1].key <= q.start.value
    ensures RestDown(t, n, q) == Ahead(q, Flat(t.kids[n])) + [t.items[n - 1]] + RestDown(t, n - 1, q)
  {
    hide Ahead, Flat, Sorted, Before, Reversed;
    var b, kid, x := Before(t, n - 1), Flat(t.kids[n - 1]), t.items[n - 1];
    ReversedOne(x);
    KidDown(t, h, lo, d, n - 1, q);
    BeforeNext(t, n - 1);
    ReversedConcat(b, kid);
    ReversedConcat(b + kid, [x]);
    assert RestDown(t, n - 1, q) == Reversed(kid) + Reversed(b);
  }

  lemma RestDownSplits(t: Tree, h: nat, lo: nat, d: Degree, n: nat, q: Query)
    requires !q.up && Fits(t, h, lo, d) && Sorted(Flat(t)) && n <= |t.items|
    requires q.start.Some? && n > 0 ==> t.items[n - 1].key <= q.start.value
    ensures RestDown(t, n, q) == FirstDown(t, n, q) + if n == 0 then [] else [t.items[n - 1]] + RestDown(t, n - 1, q)
  {
    hide Ahead, Flat, Sorted;
    if n == 0 {
      assert h > 0 ==> Before(t, 0) == [] && Reversed([]) == [];
    } else if h == 0 {
      ReversedOne(t.items[n - 1]);
      assert t.items[..n] == t.items[..n - 1] + [t.items[n - 1]];
      ReversedConcat(t.items[..n - 1], [t.items[n - 1]]);
    } else {
      hide RestDown;
      InnerDownSplits(t, h, lo, d, n, q);
    }
  }

  lemma {:induction false} ChildFeedsDown(t: Tree, h: nat, lo: nat, d: Degree, n: nat, q: Query, more: More, w: Walk)
    requires !q.up && Fits(t, h, lo, d) && Sorted(Flat(t)) && n <= |t.items| && w.ok
    ensures (if n < |t.kids| then Down(t.kids[n], q, true, more, w) else w) == Feed(q, more, w, FirstDown(t, n, q))
    decreases h, 0
  {
    if h > 0 {
      FlatAt(t, n);
      SortedMiddle(Before(t, n), Flat(t.kids[n]), After(t, n));
      DownFeeds(t.kids[n], h - 1, d - 1, d, q, more, w);
    }
  }

  /** An item the start stands on has no child part ahead of it: it is met first, or passed over. */
  lemma StartMetFirst(t: Tree, h: nat, lo: nat, d: Degree, n: nat, q: Query)
    requires !q.up && Fits(t, h, lo, d) && Sorted(Flat(t)) && 0 < n <= |t.items|
    requires q.start.Some? && q.start.value <= t.items[n - 1].key
    ensures FirstDown(t, n, q) == []
  {
    if h > 0 {
      KidDown(t, h, lo, d, n, q);
    }
  }

  lemma {:induction false} DownFromFeeds(t: Tree, h: nat, lo: nat, d: Degree, n: nat, q: Query, more: More, w: Walk)
    requires !q.up && Fits(t, h, lo, d) && Sorted(Flat(t)) && n <= |t.items| && w.ok
    requires q.start.Some? ==> forall j | 0 <= j < n :: t.items[j].key <= q.start.value
    ensures DownFrom(t, n, q, true, more, w) == Feed(q, more, w, RestDown(t, n, q))
    decreases h, n + 1
  {
    hide Down, Feed, Ahead, RestDown, FirstDown, Flat, Sorted;
    RestDownSplits(t, h, lo, d, n, q);
    var first := FirstDown(t, n, q);
    if n == 0 {
      ChildFeedsDown(t, h, lo, d, n, q, more, w);
      assert first + [] == first;
    } else {
      var x, rest := t.items[n - 1], RestDown(t, n - 1, q);
      FeedConcat(q, more, w, first, [x] + rest);
      if q.start.Some? && q.start.value <= x.key {
        StartMetFirst(t, h, lo, d, n, q);
        FeedNothing(q, more, w);
      }
      if Skips(q, w.hit, x) {
        FeedStep(q, more, w, x, rest);
        DownFromFeeds(t, h, lo, d, n - 1, q, more, w);
      } else {
        ChildFeedsDown(t, h, lo, d, n, q, more, w);
        var c := Feed(q, more, w, first);
        if c.ok {
          FeedStep(q, more, c, x, rest);
          var v := Give(q, more, c, x);
          if v.ok {
            DownFromFeeds(t, h, lo, d, n - 1, q, more, v);
          } else {
            FeedStops(q, more, v, rest);
          }
        } else {
          FeedStops(q, more, c, [x] + rest);
        }
      }
    }
  }

  lemma FeedNothing(q: Query, more: More, w: Walk)
    ensures Feed(q, more, w, []) == w
  {}

  lemma {:induction false} DownFeeds(t: Tree, h: nat, lo: nat, d: Degree, q: Query, more: More, w: Walk)
    requires !q.up && Fits(t, h, lo, d) && Sorted(Flat(t)) && w.ok
    ensures Down(t, q, true, more, w) == Feed(q, more, w, Ahead(q, Flat(t)))
    decreases h, |t.items| + 2
  {
    AheadOfRootDown(t, h, lo, d, q);
    var (i, found) := if q.start.Some? then Find(t.items, q.start.value) else (|t.items|, false);
    DownFromFeeds(t, h, lo, d, if found then i + 1 else i, q, more, w);
  }

  lemma FoundAheadDown(t: Tree, h: nat, lo: nat, d: Degree, q: Query, i: nat)
    requires !q.up && h > 0 && Fits(t, h, lo, d) && Sorted(Flat(t)) && q.start.Some? &&
             Find(t.items, q.start.value) == (i, true)
    ensures Ahead(q, Flat(t)) == RestDown(t, i + 1, q)
  {
    hide Flat, Before, After, Reversed, Find, Sorted;
    RootSorted(t);
    FindIsPosition(t.items, q.start.value);
    FlatAt(t, i);
    AfterNext(t, i);
    BeforeNext(t, i);
    PrefixTo(Before(t, i), Flat(t.kids[i]), After(t, i), q.start.value);
    KidDown(t, h, lo, d, i + 1, q);
    assert [] + Reversed(Before(t, i + 1)) == Reversed(Before(t, i + 1));
  }

  lemma BetweenAheadDown(t: Tree, h: nat, lo: nat, d: Degree, q: Query, i: nat)
    requires !q.up && h > 0 && Fits(t, h, lo, d) && Sorted(Flat(t)) && q.start.Some? &&
             Find(t.items, q.start.value) == (i, false)
    ensures Ahead(q, Flat(t)) == RestDown(t, i, q)
  {
    hide Flat, Before, After, Reversed, Find, Sorted;
    var key := q.start.value;
    RootSorted(t);
    FindIsPosition(t.items, key);
    FlatAt(t, i);
    var b, m, a := Before(t, i), Flat(t.kids[i]), After(t, i);
    ChildHoldsKey(t, key, i);
    SortedMiddle(b, m, a);
    FindInMiddle(b, m, a, key);
    var (j, there) := Find(m, key);
    PrefixMiddle(b, m, a, if there then j + 1 else j);
    ReversedConcat(b, m[..if there then j + 1 else j]);
  }

  lemma PrefixMiddle(b: seq<Item>, m: seq<Item>, a: seq<Item>, k: nat)
    requires k <= |m|
    ensures (b + m + a)[..|b| + k] == b + m[..k]
  {}

  lemma PrefixTo(b: seq<Item>, m: seq<Item>, a: seq<Item>, key: Key)
    requires Sorted(b + m + a) && a != [] && a[0].key == key
    ensures Find(b + m + a, key) == (|b| + |m|, true) && (b + m + a)[..|b| + |m| + 1] == b + m + [a[0]]
  {
    var s, n := b + m + a, |b| + |m|;
    assert s[n] == a[0];
    PositionIsFind(s, key, n, true);
  }

  lemma AheadOfRootDown(t: Tree, h: nat, lo: nat, d: Degree, q: Query)
    requires !q.up && Fits(t, h, lo, d) && Sorted(Flat(t))
    ensures var (i, found) := if q.start.Some? then Find(t.items, q.start.value) else (|t.items|, false);
            var n := if found then i + 1 else i;
            && Ahead(q, Flat(t)) == RestDown(t, n, q)
            && (q.start.Some? ==> forall j | 0 <= j < n :: t.items[j].key <= q.start.value)
  {
    RootSorted(t);
    if q.start.None? {
      if h > 0 {
        var n := |t.items|;
        FlatAt(t, n);
        SortedMiddle(Before(t, n), Flat(t.kids[n]), After(t, n));
        WholeAheadDown(q, Flat(t.kids[n]));
        ReversedConcat(Before(t, n), Flat(t.kids[n]));
        assert Flat(t) == Before(t, n) + Flat(t.kids[n]);
      }
      WholeAheadDown(q, Flat(t));
    } else {
      FindIsPosition(t.items, q.start.value);
      if h > 0 {
        var (i, found) := Find(t.items, q.start.value);
        if found {
          FoundAheadDown(t, h, lo, d, q, i);
        } else {
          BetweenAheadDown(t, h, lo, d, q, i);
        }
      }
    }
  }

  // ----- the range -----

  predicate InRange(q: Query, x: Item) {
    && (q.start.Some? ==> if q.up then q.start.value < x.key || (q.includeStart && q.start.value == x.key)
                          else x.key < q.start.value || (q.includeStart && q.start.value == x.key))
    && !Ends(q, x)
  }

  function Filter(q: Query, s: seq<Item>): seq<Item> {
    if s == [] then [] else (if InRange(q, s[0]) then [s[0]] else []) + Filter(q, s[1..])
  }

  /** The items of a listing that are in range, in the direction of the walk. */
  function Range(q: Query, s: seq<Item>): seq<Item> { Filter(q, if q.up then s else Reversed(s)) }

  /** The items given to the callback until it has had enough. */
  function Upto(more: More, given: seq<Item>, xs: seq<Item>): seq<Item>
    decreases |xs|
  {
    if xs == [] then given
    else if more(given + [xs[0]]) then Upto(more, given + [xs[0]], xs[1..])
    else given + [xs[0]]
  }

  predicate Precedes(q: Query, x: Item, y: Item) { if q.up then x.key < y.key else y.key < x.key }

  /** In the direction of the walk, from the start on; once something was hit the start itself is past. */
  ghost predicate Coming(q: Query, hit: bool, xs: seq<Item>) {
    && (forall i, j | 0 <= i < j < |xs| :: Precedes(q, xs[i], xs[j]))
    && (q.start.Some? ==> forall x | x in xs ::
          if q.up then q.start.value <= x.key && (hit ==> q.start.value < x.key)
          else x.key <= q.start.value && (hit ==> x.key < q.start.value))
  }

  lemma {:induction false} FilterNone(q: Query, xs: seq<Item>)
    requires forall x | x in xs :: !InRange(q, x)
    ensures Filter(q, xs) == []
  {
    if xs != [] {
      FilterNone(q, xs[1..]);
    }
  }

  lemma ComingNext(q: Query, hit: bool, xs: seq<Item>)
    requires Coming(q, hit, xs) && xs != []
    ensures Coming(q, hit, xs[1..]) && Coming(q, true, xs[1..])
    ensures Ends(q, xs[0]) ==> forall x | x in xs :: !InRange(q, x)
  {
    forall x | x in xs[1..] ensures Precedes(q, xs[0], x) {
      var j :| 0 <= j < |xs[1..]| && xs[1..][j] == x;
      assert xs[j + 1] == x;
    }
    assert xs[0] in xs && xs == [xs[0]] + xs[1..];
  }

  lemma {:induction false} FeedIsUpto(q: Query, more: More, w: Walk, xs: seq<Item>)
    requires w.ok && Coming(q, w.hit, xs)
    ensures Feed(q, more, w, xs).given == Upto(more, w.given, Filter(q, xs))
    decreases |xs|
  {
    if xs != [] {
      var x, v := xs[0], Visit(q, more, w, xs[0]);
      assert x in xs;
      ComingNext(q, w.hit, xs);
      if Skips(q, w.hit, x) {
        FeedIsUpto(q, more, v, xs[1..]);
        assert !InRange(q, x) && [] + Filter(q, xs[1..]) == Filter(q, xs[1..]);
      } else if Ends(q, x) {
        FilterNone(q, xs);
        FeedStops(q, more, v, xs[1..]);
      } else if v.ok {
        FeedIsUpto(q, more, v, xs[1..]);
        assert Filter(q, xs) == [x] + Filter(q, xs[1..]) && ([x] + Filter(q, xs[1..]))[1..] == Filter(q, xs[1..]);
      } else {
        FeedStops(q, more, v, xs[1..]);
      }
    }
  }

  lemma {:induction false} FilterConcat(q: Query, a: seq<Item>, b: seq<Item>)
    ensures Filter(q, a + b) == Filter(q, a) + Filter(q, b)
    decreases |a|
  {
    if a == [] {
      assert a + b == b;
    } else {
      assert (a + b)[1..] == a[1..] + b;
      FilterConcat(q, a[1..], b);
    }
  }

  lemma AheadUp(q: Query, s: seq<Item>)
    requires Sorted(s) && q.up
    ensures Coming(q, false, Ahead(q, s)) && Filter(q, Ahead(q, s)) == Filter(q, s)
  {
    hide Filter, Find;
    if q.start.Some? {
      FindIsPosition(s, q.start.value);
      var n := Find(s, q.start.value).0;
      var passed, rest := s[..n], s[n..];
      assert s == passed + rest;
      FilterConcat(q, passed, rest);
      FilterNone(q, passed);
      assert [] + Filter(q, rest) == Filter(q, rest);
    }
  }

  lemma ReversedComes(q: Query, s: seq<Item>)
    requires Sorted(s) && !q.up && (q.start.Some? ==> forall x | x in s :: x.key <= q.start.value)
    ensures Coming(q, false, Reversed(s))
  {
    forall x | x in Reversed(s) ensures x in s {
      var j :| 0 <= j < |s| && Reversed(s)[j] == x;
      assert x == s[|s| - 1 - j];
    }
  }

  lemma NotReversed(q: Query, s: seq<Item>)
    requires forall j | 0 <= j < |s| :: !InRange(q, s[j])
    ensures Filter(q, Reversed(s)) == []
  {
    forall x | x in Reversed(s) ensures !InRange(q, x) {
      var j :| 0 <= j < |s| && Reversed(s)[j] == x;
      assert x == s[|s| - 1 - j];
    }
    FilterNone(q, Reversed(s));
  }

  lemma BeyondStart(q: Query, s: seq<Item>, n: nat)
    requires !q.up && q.start.Some? && n <= |s|
    requires forall j | n <= j < |s| :: q.start.value < s[j].key
    ensures Filter(q, Reversed(s)) == Filter(q, Reversed(s[..n]))
  {
    hide Reversed, Filter;
    var kept, beyond := s[..n], s[n..];
    assert s == kept + beyond;
    ReversedConcat(kept, beyond);
    FilterConcat(q, Reversed(beyond), Reversed(kept));
    NotReversed(q, beyond);
    assert [] + Filter(q, Reversed(kept)) == Filter(q, Reversed(kept));
  }

  lemma AheadDown(q: Query, s: seq<Item>)
    requires Sorted(s) && !q.up
    ensures Coming(q, false, Ahead(q, s)) && Filter(q, Ahead(q, s)) == Filter(q, Reversed(s))
  {
    hide Reversed, Filter, Coming;
    if q.start.Some? {
      FindIsPosition(s, q.start.value);
      var (i, found) := Find(s, q.start.value);
      var n := if found then i + 1 else i;
      BeyondStart(q, s, n);
      ReversedComes(q, s[..n]);
    } else {
      ReversedComes(q, s);
      assert s[..|s|] == s;
    }
  }

  /** What lies ahead is coming, and holds the whole range. */
  lemma AheadIsRange(q: Query, s: seq<Item>)
    requires Sorted(s)
    ensures Coming(q, false, Ahead(q, s)) && Filter(q, Ahead(q, s)) == Range(q, s)
  {
    if q.up {
      AheadUp(q, s);
    } else {
      AheadDown(q, s);
    }
  }

  /** With `true` as its last result, iterate gives the callback the items in range, in order, up to the one
      after which it has had enough. */
  lemma IterateGivesRange(t: Tree, h: nat, lo: nat, d: Degree, q: Query, more: More)
    requires Fits(t, h, lo, d) && Sorted(Flat(t))
    ensures Iterate(t, q, true, more).given == Upto(more, [], Range(q, Flat(t)))
  {
    var w := Walk(false, true, []);
    if q.up {
      UpFeeds(t, h, lo, d, q, more, w);
    } else {
      DownFeeds(t, h, lo, d, q, more, w);
    }
    AheadIsRange(q, Flat(t));
    FeedIsUpto(q, more, w, Ahead(q, Flat(t)));
  }

  lemma {:induction false} UptoIsPrefix(more: More, given: seq<Item>, xs: seq<Item>)
    ensures given <= Upto(more, given, xs) <= given + xs
    ensures (forall g :: more(g)) ==> Upto(more, given, xs) == given + xs
    decreases |xs|
  {
    if xs != [] {
      UptoIsPrefix(more, given + [xs[0]], xs[1..]);
      assert given + [xs[0]] + xs[1..] == given + xs;
    }
  }

  // ----- the result iterate does return -----

  /** The child the walk enters first. */
  function FirstChild(t: Tree, q: Query): nat {
    if q.start.None? then if q.up then 0 else |t.items|
    else
      var (i, found) := Find(t.items, q.start.value);
      if !q.up && found && q.includeStart then i + 1 else i
  }

  /** The leaf it reaches first. */
  function FirstLeaf(t: Tree, q: Query): Tree {
    if FirstChild(t, q) < |t.kids| then FirstLeaf(t.kids[FirstChild(t, q)], q) else t
  }

  lemma FirstChildIsChild(t: Tree, h: nat, lo: nat, d: Degree, q: Query)
    requires h > 0 && Fits(t, h, lo, d) && Sorted(Flat(t))
    ensures var i := FirstChild(t, q); i < |t.kids| && Fits(t.kids[i], h - 1, d - 1, d) && Sorted(Flat(t.kids[i]))
  {
    RootSorted(t);
    if q.start.Some? {
      FindIsPosition(t.items, q.start.value);
    }
    var i := FirstChild(t, q);
    FlatAt(t, i);
    SortedMiddle(Before(t, i), Flat(t.kids[i]), After(t, i));
  }

  lemma {:induction false} LeafUp(t: Tree, i: nat, q: Query, more: More, w: Walk)
    requires t.kids == [] && i <= |t.items| && w.ok
    ensures UpFrom(t, i, q, false, more, w) == UpFrom(t, i, q, true, more, w).(ok := false)
    decreases |t.items| - i
  {
    if i < |t.items| {
      var v := Visit(q, more, w, t.items[i]);
      if v.ok {
        LeafUp(t, i + 1, q, more, v);
      }
    }
  }

  lemma {:induction false} LeafDown(t: Tree, n: nat, q: Query, more: More, w: Walk)
    requires t.kids == [] && n <= |t.items| && w.ok
    ensures DownFrom(t, n, q, false, more, w) == DownFrom(t, n, q, true, more, w).(ok := false)
    decreases n
  {
    if n > 0 {
      if Skips(q, w.hit, t.items[n - 1]) {
        LeafDown(t, n - 1, q, more, w);
      } else {
        var v := Give(q, more, w, t.items[n - 1]);
        if v.ok {
          LeafDown(t, n - 1, q, more, v);
        }
      }
    }
  }

  /** In a leaf only the last result differs. */
  lemma LeafStops(t: Tree, q: Query, more: More)
    requires t.kids == [] && Sorted(t.items)
    ensures Iterate(t, q, false, more) == Iterate(t, q, true, more).(ok := false)
  {
    var w := Walk(false, true, []);
    var (i, found) := if q.start.Some? then Find(t.items, q.start.value) else (if q.up then 0 else |t.items|, false);
    if q.start.Some? {
      FindIsPosition(t.items, q.start.value);
    }
    if q.up {
      LeafUp(t, i, q, more, w);
    } else {
      LeafDown(t, if found then i + 1 else i, q, more, w);
    }
  }

  /** In an inner node the walk ends with that through the first child. */
  lemma FirstChildStops(t: Tree, h: nat, lo: nat, d: Degree, q: Query, more: More)
    requires h > 0 && Fits(t, h, lo, d) && Sorted(Flat(t)) && FirstChild(t, q) < |t.kids|
    requires !Iterate(t.kids[FirstChild(t, q)], q, false, more).ok
    ensures Iterate(t, q, false, more) == Iterate(t.kids[FirstChild(t, q)], q, false, more)
  {
    RootSorted(t);
    var w, n := Walk(false, true, []), FirstChild(t, q);
    if q.start.Some? {
      FindIsPosition(t.items, q.start.value);
    }
    if q.up {
      assert UpFrom(t, n, q, false, more, w) == Up(t.kids[n], q, false, more, w);
    } else {
      assert DownFrom(t, n, q, false, more, w) == Down(t.kids[n], q, false, more, w);
      if q.start.Some? && Find(t.items, q.start.value).1 && !q.includeStart {
        assert DownFrom(t, n + 1, q, false, more, w) == DownFrom(t, n, q, false, more, w);
      }
    }
  }

  /** As it stands iterate gives the callback what the first leaf it reaches holds of the range, up to where
      the callback has had enough, and then ends the whole walk. */
  lemma {:induction false} IterateGivesFirstLeaf(t: Tree, h: nat, lo: nat, d: Degree, q: Query, more: More)
    requires Fits(t, h, lo, d) && Sorted(Flat(t))
    ensures !Iterate(t, q, false, more).ok
    ensures Iterate(t, q, false, more).given == Upto(more, [], Range(q, FirstLeaf(t, q).items))
    decreases h
  {
    if h == 0 {
      LeafStops(t, q, more);
      IterateGivesRange(t, h, lo, d, q, more);
    } else {
      FirstChildIsChild(t, h, lo, d, q);
      IterateGivesFirstLeaf(t.kids[FirstChild(t, q)], h - 1, d - 1, d, q, more);
      FirstChildStops(t, h, lo, d, q, more);
    }
  }

  lemma FirstChildUp(t: Tree, h: nat, lo: nat, d: Degree, q: Query)
    requires q.up && h > 0 && Fits(t, h, lo, d) && Sorted(Flat(t)) && FirstChild(t, q) < |t.kids|
    requires Sorted(Flat(t.kids[FirstChild(t, q)]))
    ensures Range(q, Flat(t.kids[FirstChild(t, q)])) <= Range(q, Flat(t))
  {
    var i := FirstChild(t, q);
    var first := Ahead(q, Flat(t.kids[i]));
    AheadOfRoot(t, h, lo, d, q);
    AheadIsRange(q, Flat(t));
    AheadIsRange(q, Flat(t.kids[i]));
    FilterConcat(q, first, After(t, i));
  }

  lemma FirstChildDown(t: Tree, h: nat, lo: nat, d: Degree, q: Query)
    requires !q.up && h > 0 && Fits(t, h, lo, d) && Sorted(Flat(t)) && FirstChild(t, q) < |t.kids|
    requires Sorted(Flat(t.kids[FirstChild(t, q)]))
    ensures Range(q, Flat(t.kids[FirstChild(t, q)])) <= Range(q, Flat(t))
  {
    hide Ahead, Flat, Sorted, Find;
    var n := FirstChild(t, q);
    AheadIsRange(q, Flat(t));
    AheadIsRange(q, Flat(t.kids[n]));
    FilterConcat(q, Ahead(q, Flat(t.kids[n])), Reversed(Before(t, n)));
    PassedOver(t, h, lo, d, q);
  }

  /** What lies ahead of the first child is in range no more than what lies ahead of the root. */
  lemma PassedOver(t: Tree, h: nat, lo: nat, d: Degree, q: Query)
    requires !q.up && h > 0 && Fits(t, h, lo, d) && Sorted(Flat(t)) && FirstChild(t, q) <= |t.items|
    ensures Filter(q, Ahead(q, Flat(t))) == Filter(q, RestDown(t, FirstChild(t, q), q))
  {
    hide Ahead, Flat, Sorted, RestDown;
    RootSorted(t);
    AheadOfRootDown(t, h, lo, d, q);
    if q.start.Some? {
      var (i, found) := Find(t.items, q.start.value);
      FindIsPosition(t.items, q.start.value);
      if found && !q.includeStart {
        RestDownSplits(t, h, lo, d, i + 1, q);
        StartMetFirst(t, h, lo, d, i + 1, q);
        var rest := RestDown(t, i, q);
        assert [] + ([t.items[i]] + rest) == [t.items[i]] + rest && ([t.items[i]] + rest)[1..] == rest;
        assert [] + Filter(q, rest) == Filter(q, rest);
      }
    }
  }

  /** What the first leaf holds of the range is its beginning. */
  lemma {:induction false} FirstLeafStartsRange(t: Tree, h: nat, lo: nat, d: Degree, q: Query)
    requires Fits(t, h, lo, d) && Sorted(Flat(t))
    ensures Range(q, FirstLeaf(t, q).items) <= Range(q, Flat(t))
    decreases h
  {
    hide Range, Sorted;
    if h > 0 {
      FirstChildIsChild(t, h, lo, d, q);
      FirstLeafStartsRange(t.kids[FirstChild(t, q)], h - 1, d - 1, d, q);
      if q.up {
        FirstChildUp(t, h, lo, d, q);
      } else {
        FirstChildDown(t, h, lo, d, q);
      }
    }
  }

  /** The callback has had enough after one of these items. */
  ghost predicate StopsWithin(more: More, given: seq<Item>, xs: seq<Item>) {
    exists j | 0 < j <= |xs| :: !more(given + xs[..j])
  }

  lemma {:induction false} UptoOfPrefix(more: More, given: seq<Item>, a: seq<Item>, b: seq<Item>)
    requires a <= b
    ensures Upto(more, given, a) <= Upto(more, given, b)
    ensures Upto(more, given, a) == Upto(more, given, b) <==> a == b || StopsWithin(more, given, a)
    decreases |a|
  {
    if a == [] {
      UptoIsPrefix(more, given, b);
      if b != [] {
        UptoIsPrefix(more, given + [b[0]], b[1..]);
      }
    } else {
      var next := given + [a[0]];
      assert a[..1] == [a[0]];
      if more(next) {
        UptoOfPrefix(more, next, a[1..], b[1..]);
        StopsLater(more, given, a);
        assert a == [a[0]] + a[1..] && b == [b[0]] + b[1..];
      }
    }
  }

  lemma StopsLater(more: More, given: seq<Item>, xs: seq<Item>)
    requires xs != [] && more(given + [xs[0]])
    ensures StopsWithin(more, given, xs) <==> StopsWithin(more, given + [xs[0]], xs[1..])
  {
    forall j | 0 < j < |xs| ensures given + [xs[0]] + xs[1..][..j] == given + xs[..j + 1] {
      assert xs[..j + 1] == [xs[0]] + xs[1..][..j];
    }
    assert xs[..1] == [xs[0]];
    if j :| 0 < j <= |xs| && !more(given + xs[..j]) {
      assert !more(given + [xs[0]] + xs[1..][..j - 1]);
    }
  }

  /** As it stands iterate gives a prefix of what the repaired one gives, each item once and in order. It
      gives all of that exactly when the whole range lies in the first leaf or the callback stops there. */
  lemma IterateGivesAllExactly(t: Tree, h: nat, lo: nat, d: Degree, q: Query, more: More)
    requires Fits(t, h, lo, d) && Sorted(Flat(t))
    ensures Iterate(t, q, false, more).given <= Iterate(t, q, true, more).given <= Range(q, Flat(t))
    ensures var part := Range(q, FirstLeaf(t, q).items);
            Iterate(t, q, false, more).given == Iterate(t, q, true, more).given
            <==> part == Range(q, Flat(t)) || StopsWithin(more, [], part)
  {
    IterateGivesFirstLeaf(t, h, lo, d, q, more);
    IterateGivesRange(t, h, lo, d, q, more);
    FirstLeafStartsRange(t, h, lo, d, q);
    UptoOfPrefix(more, [], Range(q, FirstLeaf(t, q).items), Range(q, Flat(t)));
    UptoIsPrefix(more, [], Range(q, Flat(t)));
  }

  lemma {:induction false} FilterAll(q: Query, s: seq<Item>)
    requires q.start.None? && q.stop.None?
    ensures Filter(q, s) == s
  {
    if s != [] {
      FilterAll(q, s[1..]);
    }
  }

  lemma {:induction false} LeafIsPart(t: Tree, h: nat, lo: nat, d: Degree, q: Query)
    requires Fits(t, h, lo, d) && Sorted(Flat(t))
    ensures |FirstLeaf(t, q).items| + (if h > 0 && lo > 0 then 1 else 0) <= |Flat(t)|
    decreases h
  {
    if h > 0 {
      FirstChildIsChild(t, h, lo, d, q);
      var i := FirstChild(t, q);
      LeafIsPart(t.kids[i], h - 1, d - 1, d, q);
      FlatAt(t, i);
      assert |Before(t, i)| + |After(t, i)| >= if t.items == [] then 0 else 1;
    }
  }

  /** Asked for everything, iterate as it stands gives everything exactly when the root is a leaf. */
  lemma AllExactlyFromLeaf(t: Tree, h: nat, d: Degree, q: Query, more: More)
    requires Fits(t, h, 1, d) && Sorted(Flat(t)) && q.start.None? && q.stop.None? && forall g :: more(g)
    ensures Iterate(t, q, false, more).given == Range(q, Flat(t)) <==> t.kids == []
  {
    var leaf := FirstLeaf(t, q).items;
    FilterAll(q, if q.up then Flat(t) else Reversed(Flat(t)));
    FilterAll(q, if q.up then leaf else Reversed(leaf));
    IterateGivesFirstLeaf(t, h, 1, d, q, more);
    UptoIsPrefix(more, [], Range(q, leaf));
    LeafIsPart(t, h, 1, d, q);
  }
}
