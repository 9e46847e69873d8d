/** B-tree nodes as values: the listing of a tree, its shape, and what insertion and removal make of
    it. The methods on heap nodes are proved against these functions. */
module BTreeNodes {
  import opened BTreeItems

  datatype Tree = Tree(items: seq<Item>, kids: seq<Tree>)

  /** The items of a tree, in order. */
  function Flat(t: Tree): seq<Item>
    decreases t
  {
    if t.kids == [] then t.items else Weave(t.kids, t.items)
  }

  function Weave(kids: seq<Tree>, items: seq<Item>): seq<Item>
    decreases kids
  {
    if kids == [] then items
    else if |kids| == 1 || items == [] then Flat(kids[0])
    else Flat(kids[0]) + [items[0]] + Weave(kids[1..], items[1..])
  }

  /** New panics for a degree of one or less. */
  type Degree = d: int | d >= 2 witness 2

  /** Height h (edges from root to leaf), at least lo items in the root of t, and between d-1 and 2d-1
      in every node below it. */
  predicate Fits(t: Tree, h: nat, lo: nat, d: Degree)
    decreases h
  {
    && lo <= |t.items| <= 2 * d - 1
    && if h == 0 then t.kids == []
       else |t.kids| == |t.items| + 1 && forall i | 0 <= i < |t.kids| :: Fits(t.kids[i], h - 1, d - 1, d)
  }

  lemma FitsFromZero(t: Tree, h: nat, lo: nat, d: Degree)
    requires Fits(t, h, lo, d)
    ensures Fits(t, h, 0, d)
  {}

  // ----- taking a listing apart -----

  lemma {:induction false} WeaveConcat(k1: seq<Tree>, i1: seq<Item>, x: Item, k2: seq<Tree>, i2: seq<Item>)
    requires |k1| == |i1| + 1 && |k2| == |i2| + 1
    ensures Weave(k1 + k2, i1 + [x] + i2) == Weave(k1, i1) + [x] + Weave(k2, i2)
  {
    if i1 == [] {
      assert (k1 + k2)[1..] == k2 && (i1 + [x] + i2)[1..] == i2;
    } else {
      WeaveConcat(k1[1..], i1[1..], x, k2, i2);
      assert (k1 + k2)[1..] == k1[1..] + k2 && (i1 + [x] + i2)[1..] == i1[1..] + [x] + i2;
    }
  }

  /** What is listed before and after child i. */
  function Before(t: Tree, i: nat): seq<Item>
    requires i <= |t.items| && |t.kids| == |t.items| + 1
  {
    if i == 0 then [] else Weave(t.kids[..i], t.items[..i - 1]) + [t.items[i - 1]]
  }

  function After(t: Tree, i: nat): seq<Item>
    requires i <= |t.items| && |t.kids| == |t.items| + 1
  {
    if i == |t.items| then [] else [t.items[i]] + Weave(t.kids[i + 1..], t.items[i + 1..])
  }

  lemma BeforeNext(t: Tree, i: nat)
    requires i < |t.items| && |t.kids| == |t.items| + 1
    ensures Before(t, i + 1) == Before(t, i) + Flat(t.kids[i]) + [t.items[i]]
  {
    if i > 0 {
      assert t.kids[..i + 1] == t.kids[..i] + [t.kids[i]] && t.items[..i] == t.items[..i - 1] + [t.items[i - 1]] + [];
      WeaveConcat(t.kids[..i], t.items[..i - 1], t.items[i - 1], [t.kids[i]], []);
    }
  }

  lemma FlatAtItem(t: Tree, i: nat)
    requires i < |t.items| && |t.kids| == |t.items| + 1
    ensures Flat(t) == Before(t, i) + Flat(t.kids[i]) + After(t, i)
  {
    assert t.kids == t.kids[..i + 1] + t.kids[i + 1..] && t.items == t.items[..i] + [t.items[i]] + t.items[i + 1..];
    WeaveConcat(t.kids[..i + 1], t.items[..i], t.items[i], t.kids[i + 1..], t.items[i + 1..]);
    BeforeNext(t, i);
    assert Flat(t) == Weave(t.kids, t.items);
    hide Weave, Flat;
    var b, f, rest := Before(t, i), Flat(t.kids[i]), Weave(t.kids[i + 1..], t.items[i + 1..]);
    assert Flat(t) == Before(t, i + 1) + rest;
    assert b + f + [t.items[i]] + rest == b + f + ([t.items[i]] + rest);
  }

  lemma FlatAt(t: Tree, i: nat)
    requires i <= |t.items| && |t.kids| == |t.items| + 1
    ensures Flat(t) == Before(t, i) + Flat(t.kids[i]) + After(t, i)
  {
    if i < |t.items| {
      FlatAtItem(t, i);
    } else if i > 0 {
      hide Flat, Before;
      FlatAtItem(t, i - 1);
      BeforeNext(t, i - 1);
      LastChild(t);
    }
  }

  lemma LastChild(t: Tree)
    requires t.items != [] && |t.kids| == |t.items| + 1
    ensures After(t, |t.items| - 1) == [t.items[|t.items| - 1]] + Flat(t.kids[|t.items|])
  {
    assert t.kids[|t.items|..] == [t.kids[|t.items|]] && t.items[|t.items|..] == [];
  }

  /** Two neighbouring children and the item between them. */
  lemma FlatAtPair(t: Tree, i: nat)
    requires i < |t.items| && |t.kids| == |t.items| + 1
    ensures Flat(t) == Before(t, i) + (Flat(t.kids[i]) + [t.items[i]] + Flat(t.kids[i + 1])) + After(t, i + 1)
  {
    hide Flat, Before, After;
    BeforeNext(t, i);
    FlatAt(t, i + 1);
  }

  lemma {:induction false} WeaveSorted(kids: seq<Tree>, items: seq<Item>)
    requires |kids| == |items| + 1 && Sorted(Weave(kids, items))
    ensures Sorted(items)
    ensures forall j | 0 <= j < |items| :: items[j] in Weave(kids, items)
  {
    if items != [] {
      var rest := Weave(kids[1..], items[1..]);
      SortedMiddle(Flat(kids[0]) + [items[0]], rest, []);
      assert Weave(kids, items) == Flat(kids[0]) + [items[0]] + rest + [];
      WeaveSorted(kids[1..], items[1..]);
      forall j | 0 < j < |items| ensures items[0].key < items[j].key && items[j] in Weave(kids, items) {
        assert items[j] == items[1..][j - 1] && items[j] in rest;
        var k :| 0 <= k < |rest| && rest[k] == items[j];
        var n := |Flat(kids[0])|;
        assert Weave(kids, items)[n + 1 + k] == items[j] && Weave(kids, items)[n] == items[0];
      }
    }
  }

  /** In a sorted tree the position of a key in the root separates what is listed around that child. */
  lemma ChildHoldsKey(t: Tree, key: Key, i: nat)
    requires |t.kids| == |t.items| + 1 && Sorted(Flat(t)) && i <= |t.items|
    requires i > 0 ==> t.items[i - 1].key < key
    requires i < |t.items| ==> key < t.items[i].key
    ensures Between(Before(t, i), key, After(t, i)) && Sorted(Flat(t.kids[i]))
  {
    FlatAt(t, i);
    var b, f, a := Before(t, i), Flat(t.kids[i]), After(t, i);
    SortedMiddle(b, f, a);
    var s := b + f + a;
    forall j | 0 <= j < |b| ensures b[j].key < key {
      assert s[j] == b[j] && s[|b| - 1] == t.items[i - 1];
    }
    forall j | 0 <= j < |a| ensures key < a[j].key {
      assert s[|b| + |f| + j] == a[j] && s[|b| + |f|] == t.items[i];
    }
  }

  lemma RootSorted(t: Tree)
    requires Sorted(Flat(t)) && (t.kids == [] || |t.kids| == |t.items| + 1)
    ensures Sorted(t.items)
  {
    if t.kids != [] {
      WeaveSorted(t.kids, t.items);
    }
  }

  lemma WeaveAt(kids: seq<Tree>, items: seq<Item>, i: nat, x: Item)
    requires |kids| == |items| + 1 && i < |items|
    ensures Weave(kids, items[i := x]) == Weave(kids[..i + 1], items[..i]) + [x] + Weave(kids[i + 1..], items[i + 1..])
  {
    hide Weave;
    assert kids == kids[..i + 1] + kids[i + 1..] && items[i := x] == items[..i] + [x] + items[i + 1..];
    WeaveConcat(kids[..i + 1], items[..i], x, kids[i + 1..], items[i + 1..]);
  }

  /** A key found in the root of an inner node. */
  lemma RootHoldsKey(t: Tree, i: nat, x: Item)
    requires |t.kids| == |t.items| + 1 && Sorted(Flat(t)) && i < |t.items| && t.items[i].key == x.key
    ensures Lookup(Flat(t), x.key) == Some(t.items[i])
    ensures Flat(t.(items := t.items[i := x])) == Put(Flat(t), x)
  {
    hide Weave;
    var l, r := Weave(t.kids[..i + 1], t.items[..i]), Weave(t.kids[i + 1..], t.items[i + 1..]);
    assert t.items[i := t.items[i]] == t.items;
    WeaveAt(t.kids, t.items, i, t.items[i]);
    WeaveAt(t.kids, t.items, i, x);
    PositionIsFind(l + [t.items[i]] + r, x.key, |l|, true);
  }

  // ----- editing a node and its children -----

  function WithKid(t: Tree, i: nat, c: Tree): Tree
    requires i < |t.kids|
  {
    t.(kids := t.kids[i := c])
  }

  /** Child i replaced by two, with an item between them. */
  function Parted(t: Tree, i: nat, l: Tree, x: Item, r: Tree): Tree
    requires i <= |t.items| && |t.kids| == |t.items| + 1
  {
    Tree(InsertAt(t.items, i, x), InsertAt(t.kids[i := l], i + 1, r))
  }

  /** Children i and i+1 replaced, and the item between them. */
  function WithPair(t: Tree, i: nat, l: Tree, x: Item, r: Tree): Tree
    requires i < |t.items| && |t.kids| == |t.items| + 1
  {
    Tree(t.items[i := x], t.kids[i := l][i + 1 := r])
  }

  /** Children i and i+1, and the item between them, replaced by one child. */
  function Merged(t: Tree, i: nat, m: Tree): Tree
    requires i < |t.items| && |t.kids| == |t.items| + 1
  {
    Tree(RemoveAt(t.items, i), RemoveAt(t.kids[i := m], i + 1))
  }

  lemma WithKidFlat(t: Tree, i: nat, c: Tree)
    requires i <= |t.items| && |t.kids| == |t.items| + 1
    ensures Flat(WithKid(t, i, c)) == Before(t, i) + Flat(c) + After(t, i)
  {
    FlatAt(WithKid(t, i, c), i);
    assert t.kids[i := c][..i] == t.kids[..i] && t.kids[i := c][i + 1..] == t.kids[i + 1..];
  }

  lemma PartedFlat(t: Tree, i: nat, l: Tree, x: Item, r: Tree)
    requires i <= |t.items| && |t.kids| == |t.items| + 1
    ensures Flat(Parted(t, i, l, x, r)) == Before(t, i) + (Flat(l) + [x] + Flat(r)) + After(t, i)
  {
    var p := Parted(t, i, l, x, r);
    FlatAtPair(p, i);
    assert p.kids[..i] == t.kids[..i] && p.kids[i + 2..] == t.kids[i + 1..];
    assert p.items[i + 1..] == t.items[i..] && (i > 0 ==> p.items[..i - 1] == t.items[..i - 1]);
    assert i < |t.items| ==> p.items[i + 2..] == t.items[i + 1..];
  }

  lemma WithPairFlat(t: Tree, i: nat, l: Tree, x: Item, r: Tree)
    requires i < |t.items| && |t.kids| == |t.items| + 1
    ensures Flat(WithPair(t, i, l, x, r)) == Before(t, i) + (Flat(l) + [x] + Flat(r)) + After(t, i + 1)
  {
    var p := WithPair(t, i, l, x, r);
    FlatAtPair(p, i);
    assert p.kids[..i] == t.kids[..i] && p.kids[i + 2..] == t.kids[i + 2..];
    assert p.items[i + 1..] == t.items[i + 1..] && (i > 0 ==> p.items[..i - 1] == t.items[..i - 1]);
    assert i + 1 < |t.items| ==> p.items[i + 2..] == t.items[i + 2..];
  }

  lemma MergedFlat(t: Tree, i: nat, m: Tree)
    requires i < |t.items| && |t.kids| == |t.items| + 1
    ensures Flat(Merged(t, i, m)) == Before(t, i) + Flat(m) + After(t, i + 1)
  {
    var p := Merged(t, i, m);
    FlatAt(p, i);
    assert p.kids[..i] == t.kids[..i] && p.kids[i + 1..] == t.kids[i + 2..];
    assert p.items[i..] == t.items[i + 1..] && (i > 0 ==> p.items[..i - 1] == t.items[..i - 1]);
    assert i + 1 < |t.items| ==> p.items[i + 1..] == t.items[i + 2..];
  }

  /** Two nodes of one height put together around an item. */
  function Join(l: Tree, x: Item, r: Tree): Tree {
    Tree(l.items + [x] + r.items, l.kids + r.kids)
  }

  predicate Alike(l: Tree, r: Tree) {
    (l.kids == [] && r.kids == []) || (|l.kids| == |l.items| + 1 && |r.kids| == |r.items| + 1)
  }

  lemma JoinFlat(l: Tree, x: Item, r: Tree)
    requires Alike(l, r)
    ensures Flat(Join(l, x, r)) == Flat(l) + [x] + Flat(r)
  {
    if l.kids != [] {
      WeaveConcat(l.kids, l.items, x, r.kids, r.items);
    }
  }

  // ----- insertion -----

  /** node.split: the items and children left of index i, the item there, and those right of it. */
  function Split(t: Tree, i: nat): (Tree, Item, Tree)
    requires i < |t.items| && (t.kids == [] || |t.kids| == |t.items| + 1)
  {
    if t.kids == [] then (Tree(t.items[..i], []), t.items[i], Tree(t.items[i + 1..], []))
    else (Tree(t.items[..i], t.kids[..i + 1]), t.items[i], Tree(t.items[i + 1..], t.kids[i + 1..]))
  }

  /** maybeSplitChild, when it splits: child i is full and is split at its middle item. */
  function SplitChild(t: Tree, i: nat, d: Degree): Tree
    requires i <= |t.items| && |t.kids| == |t.items| + 1
    requires |t.kids[i].items| == 2 * d - 1 && (t.kids[i].kids == [] || |t.kids[i].kids| == 2 * d)
  {
    var (l, x, r) := Split(t.kids[i], d - 1);
    Parted(t, i, l, x, r)
  }

  lemma SplitJoins(t: Tree, i: nat)
    requires i < |t.items| && (t.kids == [] || |t.kids| == |t.items| + 1)
    ensures var (l, x, r) := Split(t, i); Join(l, x, r) == t
  {
    assert t.items[..i] + [t.items[i]] + t.items[i + 1..] == t.items;
    if t.kids != [] {
      assert t.kids[..i + 1] + t.kids[i + 1..] == t.kids;
    }
  }

  lemma SplitFlat(t: Tree, i: nat)
    requires i < |t.items| && (t.kids == [] || |t.kids| == |t.items| + 1)
    ensures var (l, x, r) := Split(t, i); Flat(t) == Flat(l) + [x] + Flat(r)
  {
    var (l, x, r) := Split(t, i);
    SplitJoins(t, i);
    JoinFlat(l, x, r);
  }

  lemma SplitFits(t: Tree, h: nat, d: Degree)
    requires Fits(t, h, 0, d) && |t.items| == 2 * d - 1
    ensures var (l, x, r) := Split(t, d - 1);
            Fits(l, h, d - 1, d) && Fits(r, h, d - 1, d) && |l.items| == |r.items| == d - 1
  {}

  lemma SplitChildOk(t: Tree, h: nat, i: nat, lo: nat, d: Degree)
    requires h > 0 && Fits(t, h, lo, d) && |t.items| < 2 * d - 1 && i <= |t.items|
    requires Fits(t.kids[i], h - 1, d - 1, d) && |t.kids[i].items| == 2 * d - 1
    ensures Fits(SplitChild(t, i, d), h, lo, d) && Flat(SplitChild(t, i, d)) == Flat(t)
  {
    var (l, x, r) := Split(t.kids[i], d - 1);
    assert Fits(t.kids[i], h - 1, d - 1, d);
    SplitFlat(t.kids[i], d - 1);
    SplitFits(t.kids[i], h - 1, d);
    PartedFlat(t, i, l, x, r);
    FlatAt(t, i);
  }

  /** node.insert into a node that is not full. */
  function Insert(t: Tree, h: nat, x: Item, d: Degree): (Tree, Option<Item>)
    requires Fits(t, h, 0, d) && |t.items| < 2 * d - 1
    decreases h, 1
  {
    var (i, found) := Find(t.items, x.key);
    if found then (t.(items := t.items[i := x]), Some(t.items[i]))
    else if t.kids == [] then (Tree(InsertAt(t.items, i, x), []), None)
    else if |t.kids[i].items| < 2 * d - 1 then InsertBelow(t, h, i, x, d)
    else
      assert Fits(t.kids[i], h - 1, d - 1, d);
      SplitChildOk(t, h, i, 0, d);
      SplitFits(t.kids[i], h - 1, d);
      var parted := SplitChild(t, i, d);
      var inTree := parted.items[i];
      if x.Less(inTree) then InsertBelow(parted, h, i, x, d)
      else if inTree.Less(x) then InsertBelow(parted, h, i + 1, x, d)
      else (parted.(items := parted.items[i := x]), Some(inTree))
  }

  function InsertBelow(t: Tree, h: nat, i: nat, x: Item, d: Degree): (Tree, Option<Item>)
    requires Fits(t, h, 0, d) && h > 0 && i <= |t.items| && |t.kids[i].items| < 2 * d - 1
    decreases h, 0
  {
    assert Fits(t.kids[i], h - 1, d - 1, d);
    var (c, out) := Insert(t.kids[i], h - 1, x, d);
    (WithKid(t, i, c), out)
  }

  /** What insertion makes of a node: the listing with the item put in, and the item it replaced. */
  ghost predicate Inserts(t: Tree, h: nat, x: Item, d: Degree, r: (Tree, Option<Item>)) {
    && Fits(r.0, h, |t.items|, d)
    && Flat(r.0) == Put(Flat(t), x)
    && r.1 == Lookup(Flat(t), x.key)
  }

  lemma WithKidFits(t: Tree, h: nat, i: nat, c: Tree, d: Degree)
    requires h > 0 && Fits(t, h, 0, d) && i < |t.kids| && Fits(c, h - 1, d - 1, d)
    ensures Fits(WithKid(t, i, c), h, |t.items|, d)
  {}

  lemma {:induction false} InsertOk(t: Tree, h: nat, x: Item, d: Degree)
    requires Fits(t, h, 0, d) && |t.items| < 2 * d - 1 && Sorted(Flat(t))
    ensures Inserts(t, h, x, d, Insert(t, h, x, d))
    decreases h, 2
  {
    RootSorted(t);
    FindIsPosition(t.items, x.key);
    var (i, found) := Find(t.items, x.key);
    if t.kids != [] {
      if found {
        RootHoldsKey(t, i, x);
      } else if |t.kids[i].items| < 2 * d - 1 {
        InsertBelowOk(t, h, i, x, d);
      } else {
        InsertPartedOk(t, h, i, x, d);
      }
    }
  }

  lemma SplitChildItems(t: Tree, h: nat, i: nat, d: Degree)
    requires h > 0 && Fits(t, h, 0, d) && i <= |t.items| && |t.kids[i].items| == 2 * d - 1
    requires Fits(t.kids[i], h - 1, d - 1, d)
    ensures var p := SplitChild(t, i, d);
            && |p.items| == |t.items| + 1 && |p.kids| == |t.kids| + 1
            && (i > 0 ==> p.items[i - 1] == t.items[i - 1]) && (i < |t.items| ==> p.items[i + 1] == t.items[i])
            && |p.kids[i].items| == d - 1 && |p.kids[i + 1].items| == d - 1
  {}

  lemma {:induction false} InsertPartedOk(t: Tree, h: nat, i: nat, x: Item, d: Degree)
    requires Fits(t, h, 0, d) && |t.items| < 2 * d - 1 && h > 0 && Sorted(Flat(t))
    requires Find(t.items, x.key) == (i, false) && |t.kids[i].items| == 2 * d - 1
    ensures Inserts(t, h, x, d, Insert(t, h, x, d))
    decreases h, 1
  {
    hide Flat, Sorted, Put, Lookup, SplitChild;
    RootSorted(t);
    FindIsPosition(t.items, x.key);
    assert Fits(t.kids[i], h - 1, d - 1, d);
    SplitChildOk(t, h, i, |t.items|, d);
    SplitChildItems(t, h, i, d);
    var parted := SplitChild(t, i, d);
    RootSorted(parted);
    if x.Less(parted.items[i]) {
      InsertBelowOk(parted, h, i, x, d);
    } else if parted.items[i].Less(x) {
      InsertBelowOk(parted, h, i + 1, x, d);
    } else {
      RootHoldsKey(parted, i, x);
    }
  }

  lemma {:induction false} InsertBelowOk(t: Tree, h: nat, i: nat, x: Item, d: Degree)
    requires Fits(t, h, 0, d) && h > 0 && i <= |t.items| && |t.kids[i].items| < 2 * d - 1 && Sorted(Flat(t))
    requires (i > 0 ==> t.items[i - 1].Less(x)) && (i < |t.items| ==> x.Less(t.items[i]))
    ensures Inserts(t, h, x, d, InsertBelow(t, h, i, x, d))
    decreases h, 0
  {
    assert Fits(t.kids[i], h - 1, d - 1, d);
    ChildHoldsKey(t, x.key, i);
    InsertOk(t.kids[i], h - 1, x, d);
    var (c, out) := Insert(t.kids[i], h - 1, x, d);
    WithKidFits(t, h, i, c, d);
    assert Flat(WithKid(t, i, c)) == Put(Flat(t), x) && out == Lookup(Flat(t), x.key) by {
      FlatAt(t, i);
      InMiddle(Before(t, i), Flat(t.kids[i]), After(t, i), x);
      WithKidFlat(t, i, c);
    }
  }

  // ----- removal -----

  datatype ToRemove = RemoveItem(key: Key) | RemoveMin | RemoveMax

  /** The position remove starts from. */
  function Choose(items: seq<Item>, typ: ToRemove): (r: (nat, bool))
    ensures r.0 <= |items| && (r.1 ==> r.0 < |items|)
  {
    match typ
    case RemoveItem(key) => Find(items, key)
    case RemoveMin => (0, false)
    case RemoveMax => (|items|, false)
  }

  function Last<T>(s: seq<T>): T
    requires s != []
  {
    s[|s| - 1]
  }

  function ButLast<T>(s: seq<T>): seq<T>
    requires s != []
  {
    s[..|s| - 1]
  }

  /** The last item of the left tree, with its last child, moves over the separator to the right. */
  function RotateRight(from: Tree, sep: Item, child: Tree): (Tree, Item, Tree)
    requires from.items != []
  {
    var (kids, moved) := if from.kids == [] then ([], []) else (ButLast(from.kids), [Last(from.kids)]);
    (Tree(ButLast(from.items), kids), Last(from.items), Tree([sep] + child.items, moved + child.kids))
  }

  function RotateLeft(child: Tree, sep: Item, from: Tree): (Tree, Item, Tree)
    requires from.items != []
  {
    var (kids, moved) := if from.kids == [] then ([], []) else (from.kids[1..], [from.kids[0]]);
    (Tree(child.items + [sep], child.kids + moved), from.items[0], Tree(from.items[1..], kids))
  }

  function StealLeft(t: Tree, i: nat): Tree
    requires 0 < i <= |t.items| && |t.kids| == |t.items| + 1 && t.kids[i - 1].items != []
  {
    var (l, x, r) := RotateRight(t.kids[i - 1], t.items[i - 1], t.kids[i]);
    WithPair(t, i - 1, l, x, r)
  }

  function StealRight(t: Tree, i: nat): Tree
    requires i < |t.items| && |t.kids| == |t.items| + 1 && t.kids[i + 1].items != []
  {
    var (l, x, r) := RotateLeft(t.kids[i], t.items[i], t.kids[i + 1]);
    WithPair(t, i, l, x, r)
  }

  function MergeKids(t: Tree, i: nat): Tree
    requires i < |t.items| && |t.kids| == |t.items| + 1
  {
    Merged(t, i, Join(t.kids[i], t.items[i], t.kids[i + 1]))
  }

  /** growChildAndRemove, up to its call back: one steal or one merge around child i. */
  function Grow(t: Tree, i: nat, d: Degree): Tree
    requires i <= |t.items| && |t.kids| == |t.items| + 1 && t.items != []
  {
    if i > 0 && |t.kids[i - 1].items| > d - 1 then StealLeft(t, i)
    else if i < |t.items| && |t.kids[i + 1].items| > d - 1 then StealRight(t, i)
    else if i >= |t.items| then MergeKids(t, i - 1)
    else MergeKids(t, i)
  }

  /** What growing keeps: the listing, the height and the occupancy of the children. */
  ghost predicate Grows(t: Tree, h: nat, d: Degree, g: Tree) {
    Flat(g) == Flat(t) && Fits(g, h, 0, d) && |t.items| - 1 <= |g.items| <= |t.items|
  }

  /** What moves over, as a node without items; a rotation cuts one join and makes another. */
  function Moved(kids: seq<Tree>): Tree { Tree([], kids) }

  lemma JoinTwice(l: Tree, x: Item, m: Tree, y: Item, r: Tree)
    requires Alike(l, m) && Alike(m, r)
    ensures Flat(Join(l, x, m)) + [y] + Flat(r) == Flat(l) + [x] + Flat(Join(m, y, r))
  {
    JoinFlat(l, x, m);
    JoinFlat(m, y, r);
    var a, b, c := Flat(l), Flat(m), Flat(r);
    assert a + [x] + b + [y] + c == a + [x] + (b + [y] + c);
  }

  lemma RotateRightOk(from: Tree, sep: Item, child: Tree, h: nat, d: Degree)
    requires Fits(from, h, d, d) && Fits(child, h, d - 1, d) && |child.items| == d - 1
    ensures var (l, x, r) := RotateRight(from, sep, child);
            && Fits(l, h, d - 1, d) && Fits(r, h, d - 1, d)
            && Flat(from) + [sep] + Flat(child) == Flat(l) + [x] + Flat(r)
  {
    hide Flat;
    var (l, x, r) := RotateRight(from, sep, child);
    var moved := Moved(if from.kids == [] then [] else [Last(from.kids)]);
    assert Join(l, x, moved) == from && Join(moved, sep, child) == r;
    JoinTwice(l, x, moved, sep, child);
  }

  lemma RotateLeftOk(child: Tree, sep: Item, from: Tree, h: nat, d: Degree)
    requires Fits(from, h, d, d) && Fits(child, h, d - 1, d) && |child.items| == d - 1
    ensures var (l, x, r) := RotateLeft(child, sep, from);
            && Fits(l, h, d - 1, d) && Fits(r, h, d - 1, d)
            && Flat(child) + [sep] + Flat(from) == Flat(l) + [x] + Flat(r)
  {
    hide Flat;
    var (l, x, r) := RotateLeft(child, sep, from);
    var moved := Moved(if from.kids == [] then [] else [from.kids[0]]);
    assert Join(moved, x, r) == from && Join(child, sep, moved) == l;
    JoinTwice(child, sep, moved, x, r);
  }

  lemma WithPairOk(t: Tree, h: nat, i: nat, l: Tree, x: Item, r: Tree, d: Degree)
    requires h > 0 && Fits(t, h, 1, d) && i < |t.items|
    requires Fits(l, h - 1, d - 1, d) && Fits(r, h - 1, d - 1, d)
    requires Flat(t.kids[i]) + [t.items[i]] + Flat(t.kids[i + 1]) == Flat(l) + [x] + Flat(r)
    ensures Grows(t, h, d, WithPair(t, i, l, x, r))
  {
    WithPairFlat(t, i, l, x, r);
    FlatAtPair(t, i);
  }

  lemma StealLeftOk(t: Tree, h: nat, i: nat, d: Degree)
    requires h > 0 && Fits(t, h, 1, d) && 0 < i <= |t.items|
    requires Fits(t.kids[i - 1], h - 1, d, d) && Fits(t.kids[i], h - 1, d - 1, d) && |t.kids[i].items| == d - 1
    ensures Grows(t, h, d, StealLeft(t, i))
  {
    RotateRightOk(t.kids[i - 1], t.items[i - 1], t.kids[i], h - 1, d);
    var (l, x, r) := RotateRight(t.kids[i - 1], t.items[i - 1], t.kids[i]);
    WithPairOk(t, h, i - 1, l, x, r, d);
  }

  lemma StealRightOk(t: Tree, h: nat, i: nat, d: Degree)
    requires h > 0 && Fits(t, h, 1, d) && i < |t.items|
    requires Fits(t.kids[i + 1], h - 1, d, d) && Fits(t.kids[i], h - 1, d - 1, d) && |t.kids[i].items| == d - 1
    ensures Grows(t, h, d, StealRight(t, i))
  {
    RotateLeftOk(t.kids[i], t.items[i], t.kids[i + 1], h - 1, d);
    var (l, x, r) := RotateLeft(t.kids[i], t.items[i], t.kids[i + 1]);
    WithPairOk(t, h, i, l, x, r, d);
  }

  lemma MergeKidsOk(t: Tree, h: nat, i: nat, d: Degree)
    requires h > 0 && Fits(t, h, 1, d) && i < |t.items|
    requires Fits(t.kids[i], h - 1, d - 1, d) && Fits(t.kids[i + 1], h - 1, d - 1, d)
    requires |t.kids[i].items| == |t.kids[i + 1].items| == d - 1
    ensures Grows(t, h, d, MergeKids(t, i))
  {
    var l, sep, r := t.kids[i], t.items[i], t.kids[i + 1];
    JoinFlat(l, sep, r);
    MergedFlat(t, i, Join(l, sep, r));
    FlatAtPair(t, i);
    assert Fits(Join(l, sep, r), h - 1, d - 1, d);
  }

  /** Items below child i lie between its neighbours in the node. */
  lemma ChildBetween(t: Tree, i: nat, x: Item)
    requires |t.kids| == |t.items| + 1 && Sorted(Flat(t)) && i <= |t.items| && x in Flat(t.kids[i])
    ensures (i > 0 ==> t.items[i - 1].key < x.key) && (i < |t.items| ==> x.key < t.items[i].key)
  {
    FlatAt(t, i);
    var b, f, a := Before(t, i), Flat(t.kids[i]), After(t, i);
    var k :| 0 <= k < |f| && f[k] == x;
    var s := b + f + a;
    assert s[|b| + k] == x;
    if i > 0 {
      assert s[|b| - 1] == t.items[i - 1];
    }
    if i < |t.items| {
      assert s[|b| + |f|] == t.items[i];
    }
  }

  lemma RootItemListed(t: Tree, j: nat)
    requires (t.kids == [] || |t.kids| == |t.items| + 1) && j < |t.items|
    ensures t.items[j] in Flat(t)
  {
    if t.kids != [] {
      FlatAt(t, j);
      assert After(t, j)[0] == t.items[j];
    }
  }

  /** The child chosen again after growing is no longer minimal. */
  ghost predicate GrowHelps(t: Tree, typ: ToRemove, d: Degree, g: Tree) {
    var i := Choose(g.items, typ).0;
    i < |g.kids| && |g.kids[i].items| > d - 1
  }

  lemma StealLeftHelps(t: Tree, h: nat, i: nat, typ: ToRemove, d: Degree)
    requires h > 0 && Fits(t, h, 1, d) && 0 < i <= |t.items| && Sorted(Flat(t)) && Choose(t.items, typ).0 == i
    requires Fits(t.kids[i - 1], h - 1, d, d) && |t.kids[i].items| == d - 1
    ensures GrowHelps(t, typ, d, StealLeft(t, i))
  {
    var from, g := t.kids[i - 1], StealLeft(t, i);
    RootSorted(t);
    if typ.RemoveItem? {
      FindIsPosition(t.items, typ.key);
      assert Fits(t.kids[i], h - 1, d - 1, d);
      StealLeftOk(t, h, i, d);
      RootSorted(g);
      RootItemListed(from, |from.items| - 1);
      ChildBetween(t, i - 1, Last(from.items));
      PositionIsFind(g.items, typ.key, i, Choose(t.items, typ).1);
    }
  }

  lemma StealRightHelps(t: Tree, h: nat, i: nat, typ: ToRemove, d: Degree)
    requires h > 0 && Fits(t, h, 1, d) && i < |t.items| && Sorted(Flat(t)) && Choose(t.items, typ).0 == i
    requires Fits(t.kids[i + 1], h - 1, d, d) && |t.kids[i].items| == d - 1
    ensures GrowHelps(t, typ, d, StealRight(t, i))
  {
    var from, g := t.kids[i + 1], StealRight(t, i);
    RootSorted(t);
    if typ.RemoveItem? {
      FindIsPosition(t.items, typ.key);
      assert Fits(t.kids[i], h - 1, d - 1, d);
      StealRightOk(t, h, i, d);
      RootSorted(g);
      RootItemListed(from, 0);
      ChildBetween(t, i + 1, from.items[0]);
      PositionIsFind(g.items, typ.key, i, false);
    }
  }

  lemma MergeHelps(t: Tree, h: nat, i: nat, typ: ToRemove, d: Degree)
    requires h > 0 && Fits(t, h, 1, d) && Sorted(Flat(t)) && Choose(t.items, typ).0 == i
    requires var m := if i < |t.items| then i else i - 1; |t.kids[m].items| == |t.kids[m + 1].items| == d - 1
    ensures GrowHelps(t, typ, d, MergeKids(t, if i < |t.items| then i else i - 1))
  {
    hide Flat;
    var m := if i < |t.items| then i else i - 1;
    var g := MergeKids(t, m);
    RootSorted(t);
    if typ.RemoveItem? {
      FindIsPosition(t.items, typ.key);
      assert Sorted(g.items);
      PositionIsFind(g.items, typ.key, m, false);
    }
  }

  lemma GrowChosenOk(t: Tree, h: nat, typ: ToRemove, d: Degree)
    requires h > 0 && Fits(t, h, 1, d) && Sorted(Flat(t)) && |t.kids[Choose(t.items, typ).0].items| <= d - 1
    ensures var g := Grow(t, Choose(t.items, typ).0, d); Grows(t, h, d, g) && GrowHelps(t, typ, d, g)
  {
    hide Flat, Sorted, Find, StealLeft, StealRight, MergeKids;
    var i := Choose(t.items, typ).0;
    assert forall j | 0 <= j < |t.kids| :: Fits(t.kids[j], h - 1, d - 1, d);
    if i > 0 && |t.kids[i - 1].items| > d - 1 {
      StealLeftOk(t, h, i, d);
      StealLeftHelps(t, h, i, typ, d);
    } else if i < |t.items| && |t.kids[i + 1].items| > d - 1 {
      StealRightOk(t, h, i, d);
      StealRightHelps(t, h, i, typ, d);
    } else {
      MergeKidsOk(t, h, if i < |t.items| then i else i - 1, d);
      MergeHelps(t, h, i, typ, d);
    }
  }

  /** Which neighbour helps: the left one lends its last item if it can spare one, else the right one its first;
      if neither can, the child and its right neighbour become one, or the last child and its left neighbour. */
  lemma GrowExactly(t: Tree, h: nat, i: nat, d: Degree)
    requires h > 0 && Fits(t, h, 1, d) && i <= |t.items| && |t.kids[i].items| <= d - 1
    ensures var g, n := Grow(t, i, d), |t.items|;
            var left := i > 0 && |t.kids[i - 1].items| >= d;
            var right := i < n && |t.kids[i + 1].items| >= d;
            var j := if left || (!right && i == n) then i - 1 else i;
            && g.items[..j] == t.items[..j] && g.kids[..j] == t.kids[..j]
            && if left || right then
                 && g.items[j + 1..] == t.items[j + 1..] && g.kids[j + 2..] == t.kids[j + 2..]
                 && g.items[j] == (if left then Last(t.kids[j].items) else t.kids[i + 1].items[0])
                 && g.kids[i].items == (if left then [t.items[j]] + t.kids[i].items else t.kids[i].items + [t.items[j]])
               else
                 && g.items[j..] == t.items[j + 1..] && g.kids[j + 1..] == t.kids[j + 2..]
                 && g.kids[j].items == t.kids[j].items + [t.items[j]] + t.kids[j + 1].items
  {
    assert forall k | 0 <= k < |t.kids| :: Fits(t.kids[k], h - 1, d - 1, d);
  }

  function RemoveFromLeaf(items: seq<Item>, typ: ToRemove): (seq<Item>, Option<Item>)
    requires !typ.RemoveItem? ==> items != []
  {
    match typ
    case RemoveMax => (ButLast(items), Some(Last(items)))
    case RemoveMin => (items[1..], Some(items[0]))
    case RemoveItem(key) => (Drop(items, key), Lookup(items, key))
  }

  /** What remove asks of a node: items enough to find one to remove, here or below. */
  ghost predicate Removable(t: Tree, h: nat, d: Degree) {
    && Fits(t, h, 0, d) && Sorted(Flat(t))
    && (t.items == [] ==> h > 0 && |t.kids[0].items| > d - 1)
  }

  /** node.remove: a minimal child is grown first. */
  ghost function Remove(t: Tree, h: nat, typ: ToRemove, d: Degree): (r: (Tree, Option<Item>))
    requires Removable(t, h, d)
    ensures !typ.RemoveItem? ==> r.1.Some?
    decreases h, 1
  {
    if t.kids == [] then
      var (items, out) := RemoveFromLeaf(t.items, typ);
      (Tree(items, []), out)
    else
      var i := Choose(t.items, typ).0;
      if |t.kids[i].items| <= d - 1 then
        GrowChosenOk(t, h, typ, d);
        RemoveBelow(Grow(t, i, d), h, typ, d)
      else
        RemoveBelow(t, h, typ, d)
  }

  ghost function RemoveBelow(t: Tree, h: nat, typ: ToRemove, d: Degree): (r: (Tree, Option<Item>))
    requires h > 0 && Fits(t, h, 0, d) && Sorted(Flat(t)) && |t.kids[Choose(t.items, typ).0].items| > d - 1
    ensures !typ.RemoveItem? ==> r.1.Some?
    decreases h, 0
  {
    var (i, found) := Choose(t.items, typ);
    assert Fits(t.kids[i], h - 1, d - 1, d);
    FlatAt(t, i);
    SortedMiddle(Before(t, i), Flat(t.kids[i]), After(t, i));
    if found then
      var (c, out) := Remove(t.kids[i], h - 1, RemoveMax, d);
      (Tree(t.items[i := out.value], t.kids[i := c]), Some(t.items[i]))
    else
      var (c, out) := Remove(t.kids[i], h - 1, typ, d);
      (WithKid(t, i, c), out)
  }

  /** What removal makes of a listing, and what it returns. */
  ghost predicate Takes(before: seq<Item>, typ: ToRemove, after: seq<Item>, out: Option<Item>) {
    match typ
    case RemoveItem(key) => after == Drop(before, key) && out == Lookup(before, key)
    case RemoveMin => before != [] && after == before[1..] && out == Some(before[0])
    case RemoveMax => before != [] && after == ButLast(before) && out == Some(Last(before))
  }

  lemma {:induction false} RemoveOk(t: Tree, h: nat, typ: ToRemove, d: Degree)
    requires Removable(t, h, d)
    ensures var (r, out) := Remove(t, h, typ, d);
            Takes(Flat(t), typ, Flat(r), out) && Fits(r, h, 0, d) && |t.items| - 1 <= |r.items| <= |t.items|
    decreases h, 1
  {
    if t.kids != [] {
      var i := Choose(t.items, typ).0;
      if |t.kids[i].items| <= d - 1 {
        GrowChosenOk(t, h, typ, d);
        RemoveBelowOk(Grow(t, i, d), h, typ, d);
      } else {
        RemoveBelowOk(t, h, typ, d);
      }
    }
  }

  lemma DropMiddleItem(b: seq<Item>, y: Item, a: seq<Item>)
    requires Sorted(b + [y] + a)
    ensures Drop(b + [y] + a, y.key) == b + a && Lookup(b + [y] + a, y.key) == Some(y)
  {
    PositionIsFind(b + [y] + a, y.key, |b|, true);
  }

  /** The predecessor of an item found in an inner node takes its place. */
  lemma ReplacedByPredecessor(t: Tree, i: nat, c: Tree, x: Item)
    requires |t.kids| == |t.items| + 1 && Sorted(Flat(t)) && i < |t.items| && Flat(t.kids[i]) == Flat(c) + [x]
    ensures Flat(Tree(t.items[i := x], t.kids[i := c])) == Drop(Flat(t), t.items[i].key)
    ensures Lookup(Flat(t), t.items[i].key) == Some(t.items[i])
  {
    var next := t.kids[i + 1];
    FlatAtPair(t, i);
    WithPairFlat(t, i, c, x, next);
    assert t.kids[i := c][i + 1 := next] == t.kids[i := c];
    var b, y, a := Before(t, i) + Flat(c) + [x], t.items[i], Flat(next) + After(t, i + 1);
    assert Flat(t) == b + [y] + a && Flat(Tree(t.items[i := x], t.kids[i := c])) == b + a;
    DropMiddleItem(b, y, a);
  }

  lemma RemoveFoundOk(t: Tree, h: nat, typ: ToRemove, i: nat, c: Tree, x: Item, d: Degree)
    requires h > 0 && Fits(t, h, 0, d) && Sorted(Flat(t)) && Choose(t.items, typ) == (i, true)
    requires Takes(Flat(t.kids[i]), RemoveMax, Flat(c), Some(x)) && Fits(c, h - 1, d - 1, d)
    ensures var r := Tree(t.items[i := x], t.kids[i := c]);
            Takes(Flat(t), typ, Flat(r), Some(t.items[i])) && Fits(r, h, |t.items|, d)
  {
    RootSorted(t);
    FindIsPosition(t.items, typ.key);
    assert Flat(t.kids[i]) == ButLast(Flat(t.kids[i])) + [x];
    ReplacedByPredecessor(t, i, c, x);
  }

  lemma RemoveDeeperOk(t: Tree, typ: ToRemove, i: nat, c: Tree, out: Option<Item>)
    requires |t.kids| == |t.items| + 1 && Sorted(Flat(t)) && Choose(t.items, typ) == (i, false)
    requires Takes(Flat(t.kids[i]), typ, Flat(c), out)
    ensures Takes(Flat(t), typ, Flat(WithKid(t, i, c)), out)
  {
    FlatAt(t, i);
    WithKidFlat(t, i, c);
    if typ.RemoveItem? {
      RootSorted(t);
      FindIsPosition(t.items, typ.key);
      ChildHoldsKey(t, typ.key, i);
      InMiddle(Before(t, i), Flat(t.kids[i]), After(t, i), Item(typ.key, 0));
    }
  }

  lemma {:induction false} RemoveBelowOk(t: Tree, h: nat, typ: ToRemove, d: Degree)
    requires h > 0 && Fits(t, h, 0, d) && Sorted(Flat(t)) && |t.kids[Choose(t.items, typ).0].items| > d - 1
    ensures var (r, out) := RemoveBelow(t, h, typ, d);
            Takes(Flat(t), typ, Flat(r), out) && Fits(r, h, |t.items|, d) && |r.items| == |t.items|
    decreases h, 0
  {
    hide Flat, Sorted, Takes, Find;
    var (i, found) := Choose(t.items, typ);
    assert Fits(t.kids[i], h - 1, d - 1, d);
    FlatAt(t, i);
    SortedMiddle(Before(t, i), Flat(t.kids[i]), After(t, i));
    if found {
      RemoveOk(t.kids[i], h - 1, RemoveMax, d);
      var (c, out) := Remove(t.kids[i], h - 1, RemoveMax, d);
      RemoveFoundOk(t, h, typ, i, c, out.value, d);
    } else {
      RemoveOk(t.kids[i], h - 1, typ, d);
      var (c, out) := Remove(t.kids[i], h - 1, typ, d);
      RemoveDeeperOk(t, typ, i, c, out);
      WithKidFits(t, h, i, c, d);
    }
  }
}
