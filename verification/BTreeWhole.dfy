/** A whole B-tree as a value: what the calls of btree.go make of it, over any run of calls. */
module BTreeWhole {
  import opened BTreeItems
  import opened BTreeNodes

  datatype Root = Root(tree: Tree, height: nat)

  datatype State = State(root: Option<Root>, length: int)

  const EMPTY := State(None, 0)

  function Listing(s: State): seq<Item> {
    match s.root
    case None => []
    case Some(r) => Flat(r.tree)
  }

  /** Nodes below the root hold between d-1 and 2d-1 items and the leaves have one depth; a root that is
      not a leaf holds at least one item. */
  predicate Shaped(s: State, d: Degree) {
    s.root.Some? ==> Fits(s.root.value.tree, s.root.value.height, if s.root.value.height == 0 then 0 else 1, d)
  }

  ghost predicate Ok(s: State, d: Degree) {
    Shaped(s, d) && Sorted(Listing(s))
  }

  // ----- lookup -----

  /** node.get */
  function Get(t: Tree, key: Key): Option<Item>
    decreases t
  {
    var (i, found) := Find(t.items, key);
    if found then Some(t.items[i])
    else if i < |t.kids| then Get(t.kids[i], key)
    else None
  }

  lemma {:induction false} GetOk(t: Tree, h: nat, lo: nat, d: Degree, key: Key)
    requires Fits(t, h, lo, d) && Sorted(Flat(t))
    ensures Get(t, key) == Lookup(Flat(t), key)
    decreases h
  {
    RootSorted(t);
    FindIsPosition(t.items, key);
    var (i, found) := Find(t.items, key);
    if h > 0 {
      if found {
        RootHoldsKey(t, i, Item(key, 0));
      } else {
        FlatAt(t, i);
        ChildHoldsKey(t, key, i);
        GetOk(t.kids[i], h - 1, d - 1, d, key);
        InMiddle(Before(t, i), Flat(t.kids[i]), After(t, i), Item(key, 0));
      }
    }
  }

  // ----- the ends of the listing -----

  lemma FirstChildStarts(t: Tree, h: nat, lo: nat, d: Degree)
    requires Fits(t, h, lo, d) && h > 0
    ensures Flat(t.kids[0]) <= Flat(t) && Fits(t.kids[0], h - 1, d - 1, d) && Flat(t.kids[0]) != []
  {
    FlatAt(t, 0);
    assert Fits(t.kids[0], h - 1, d - 1, d);
    RootItemListed(t.kids[0], 0);
  }

  lemma LastChildEnds(t: Tree, h: nat, lo: nat, d: Degree)
    requires Fits(t, h, lo, d) && h > 0
    ensures var c := Last(t.kids);
            Fits(c, h - 1, d - 1, d) && Flat(c) != [] && Flat(t) != [] && Last(Flat(c)) == Last(Flat(t))
  {
    FlatAt(t, |t.items|);
    assert Fits(Last(t.kids), h - 1, d - 1, d);
    RootItemListed(Last(t.kids), 0);
  }

  // ----- how many items a height holds -----

  function Pow(b: nat, n: nat): nat { if n == 0 then 1 else b * Pow(b, n - 1) }

  lemma {:induction false} WeaveSize(kids: seq<Tree>, items: seq<Item>, a: nat, b: nat)
    requires |kids| == |items| + 1 && forall i | 0 <= i < |kids| :: a <= |Flat(kids[i])| + 1 <= b
    ensures |kids| * a <= |Weave(kids, items)| + 1 <= |kids| * b
  {
    if items != [] {
      WeaveSize(kids[1..], items[1..], a, b);
      assert |kids| * a == a + |kids[1..]| * a && |kids| * b == b + |kids[1..]| * b;
    }
  }

  lemma MulLe(x: nat, y: nat, z: nat)
    requires x <= y
    ensures x * z <= y * z
  {}

  lemma {:induction false} FitsSize(t: Tree, h: nat, lo: nat, d: Degree)
    requires Fits(t, h, lo, d)
    ensures (lo + 1) * Pow(d, h) <= |Flat(t)| + 1 <= Pow(2 * d, h + 1)
    decreases h
  {
    if h == 0 {
      assert Pow(2 * d, 1) == 2 * d * Pow(2 * d, 0);
    } else {
      var a, b := Pow(d, h), Pow(2 * d, h);
      forall i | 0 <= i < |t.kids| ensures a <= |Flat(t.kids[i])| + 1 <= b {
        FitsSize(t.kids[i], h - 1, d - 1, d);
      }
      WeaveSize(t.kids, t.items, a, b);
      MulLe(lo + 1, |t.kids|, a);
      MulLe(|t.kids|, 2 * d, b);
    }
  }

  /** A tree of height h whose root holds an item holds at least 2*d^h - 1 items and at most (2d)^(h+1) - 1. */
  lemma HeightBound(s: State, d: Degree)
    requires Shaped(s, d) && s.root.Some? && Listing(s) != []
    ensures 2 * Pow(d, s.root.value.height) - 1 <= |Listing(s)| <= Pow(2 * d, s.root.value.height + 1) - 1
  {
    FitsSize(s.root.value.tree, s.root.value.height, 1, d);
  }

  // ----- ReplaceOrInsert -----

  function Counted(s: State, root: Root, change: int): State { State(Some(root), s.length + change) }

  /** A full root is split under a new one. */
  function Grown(r: Root, d: Degree): Root
    requires Fits(r.tree, r.height, 0, d)
  {
    if |r.tree.items| >= 2 * d - 1 then
      var (left, x, right) := Split(r.tree, d - 1);
      Root(Tree([x], [left, right]), r.height + 1)
    else r
  }

  lemma GrownOk(r: Root, d: Degree)
    requires Fits(r.tree, r.height, 0, d)
    ensures var g := Grown(r, d);
            && Fits(g.tree, g.height, if g == r then |r.tree.items| else 1, d) && |g.tree.items| < 2 * d - 1
            && Flat(g.tree) == Flat(r.tree)
  {
    if |r.tree.items| >= 2 * d - 1 {
      var (left, x, right) := Split(r.tree, d - 1);
      SplitFlat(r.tree, d - 1);
      SplitFits(r.tree, r.height, d);
      var t := Tree([x], [left, right]);
      FlatAtPair(t, 0);
    }
  }

  ghost function ReplaceOrInsert(s: State, x: Item, d: Degree): (State, Option<Item>)
    requires Ok(s, d)
  {
    match s.root
    case None => (Counted(s, Root(Tree([x], []), 0), 1), None)
    case Some(r) =>
      GrownOk(r, d);
      var g := Grown(r, d);
      var (t, out) := Insert(g.tree, g.height, x, d);
      (Counted(s, Root(t, g.height), if out.None? then 1 else 0), out)
  }

  /** It is a map update that returns what it replaced, and the length follows. */
  lemma ReplaceOrInsertOk(s: State, x: Item, d: Degree)
    requires Ok(s, d)
    ensures var (after, out) := ReplaceOrInsert(s, x, d);
            && Ok(after, d) && Listing(after) == Put(Listing(s), x) && out == Lookup(Listing(s), x.key)
            && after.length - s.length == |Listing(after)| - |Listing(s)|
  {
    PutSorted(Listing(s), x);
    if s.root.Some? {
      var r := s.root.value;
      GrownOk(r, d);
      var g := Grown(r, d);
      InsertOk(g.tree, g.height, x, d);
    }
  }

  // ----- Delete, DeleteMin, DeleteMax -----

  datatype Outcome = Returned(item: Option<Item>) | Panicked

  /** What deleteItem does with the root after removal: one without items gives way to child 0, whether
      or not there is one - the test `>= 0` on the number of children always holds. */
  function Settled(length: int, r: Tree, h: nat, out: Option<Item>): (State, Outcome)
    requires h > 0 ==> r.kids != []
  {
    var left := if out.Some? then length - 1 else length;
    if r.items != [] then (State(Some(Root(r, h)), left), Returned(out))
    else if h == 0 then (State(Some(Root(r, 0)), length), Panicked)
    else (State(Some(Root(r.kids[0], h - 1)), left), Returned(out))
  }

  /** deleteItem */
  ghost function DeleteItem(s: State, typ: ToRemove, d: Degree): (State, Outcome)
    requires Ok(s, d)
  {
    if s.root.None? || s.root.value.tree.items == [] then (s, Returned(None))
    else
      var Root(t, h) := s.root.value;
      var (r, out) := Remove(t, h, typ, d);
      RemoveOk(t, h, typ, d);
      Settled(s.length, r, h, out)
  }

  /** There is an item to remove. */
  ghost predicate Hits(list: seq<Item>, typ: ToRemove) {
    list != [] && (typ.RemoveItem? ==> Lookup(list, typ.key).Some?)
  }

  /** What removal should make of a listing; removing from nothing is no error. */
  ghost function Removed(list: seq<Item>, typ: ToRemove): seq<Item> {
    match typ
    case RemoveItem(key) => Drop(list, key)
    case RemoveMin => if list == [] then [] else list[1..]
    case RemoveMax => if list == [] then [] else ButLast(list)
  }

  ghost function Taken(list: seq<Item>, typ: ToRemove): Option<Item> {
    match typ
    case RemoveItem(key) => Lookup(list, key)
    case RemoveMin => if list == [] then None else Some(list[0])
    case RemoveMax => if list == [] then None else Some(Last(list))
  }

  lemma {:induction false} PowPositive(b: nat, n: nat)
    requires b > 0
    ensures Pow(b, n) >= 1
  {
    if n > 0 {
      PowPositive(b, n - 1);
    }
  }

  lemma InnerRootHoldsMany(t: Tree, h: nat, d: Degree)
    requires Fits(t, h, 1, d) && h > 0
    ensures |Flat(t)| >= 3
  {
    FitsSize(t, h, 1, d);
    PowPositive(d, h - 1);
    MulLe(2, d, Pow(d, h - 1));
  }

  /** A root left without items lists what its only child lists. */
  lemma OnlyChild(r: Tree, h: nat, d: Degree)
    requires h > 0 && Fits(r, h, 0, d) && r.items == []
    ensures Fits(r.kids[0], h - 1, d - 1, d) && Flat(r) == Flat(r.kids[0])
  {}

  lemma RemovedSorted(list: seq<Item>, typ: ToRemove)
    requires Sorted(list)
    ensures Sorted(Removed(list, typ))
  {
    if typ.RemoveItem? {
      DropSorted(list, typ.key);
    }
  }

  lemma FitsLoosely(t: Tree, h: nat, lo: nat, d: Degree)
    requires Fits(t, h, lo, d)
    ensures Fits(t, h, if h == 0 || t.items == [] then 0 else 1, d)
  {}

  lemma RemovedLength(list: seq<Item>, typ: ToRemove)
    ensures |Removed(list, typ)| == |list| - (if Hits(list, typ) then 1 else 0)
    ensures Taken(list, typ).Some? <==> Hits(list, typ)
  {}

  lemma SettledOk(t: Tree, length: int, typ: ToRemove, r: Tree, h: nat, out: Option<Item>, d: Degree)
    requires Fits(t, h, 1, d) && Sorted(Flat(t)) && Fits(r, h, 0, d)
    requires Flat(r) == Removed(Flat(t), typ) && out == Taken(Flat(t), typ)
    ensures Deletes(State(Some(Root(t, h)), length), typ, Settled(length, r, h, out), d)
  {
    hide Removed, Taken, Hits, Sorted;
    RemovedSorted(Flat(t), typ);
    RemovedLength(Flat(t), typ);
    FitsLoosely(r, h, 0, d);
    if h > 0 {
      InnerRootHoldsMany(t, h, d);
      if r.items == [] {
        OnlyChild(r, h, d);
        FitsLoosely(r.kids[0], h - 1, d - 1, d);
      }
    }
  }

  /** What is promised of a call: it removes exactly the item it should and returns it, and the length
      follows - unless that was the only item: then, and only then, it panics, leaving an empty leaf
      and the length as it was. */
  ghost predicate Deletes(s: State, typ: ToRemove, result: (State, Outcome), d: Degree) {
    var (after, outcome) := result;
    && Ok(after, d) && Listing(after) == Removed(Listing(s), typ)
    && (outcome.Panicked? <==> |Listing(s)| == 1 && Hits(Listing(s), typ))
    && match outcome
       case Returned(item) =>
         item == Taken(Listing(s), typ) && after.length - s.length == |Listing(after)| - |Listing(s)|
       case Panicked => Listing(after) == [] && after.length == s.length
  }

  lemma DeleteItemOk(s: State, typ: ToRemove, d: Degree)
    requires Ok(s, d)
    ensures Deletes(s, typ, DeleteItem(s, typ, d), d)
  {
    if s.root.Some? && s.root.value.tree.items != [] {
      var Root(t, h) := s.root.value;
      var (r, out) := Remove(t, h, typ, d);
      RemoveOk(t, h, typ, d);
      SettledOk(t, s.length, typ, r, h, out, d);
    }
  }

  // ----- runs of calls -----

  datatype Call = Set(item: Item) | Delete(typ: ToRemove)

  ghost function Step(s: State, call: Call, d: Degree): State
    requires Ok(s, d)
  {
    match call
    case Set(x) => ReplaceOrInsert(s, x, d).0
    case Delete(typ) => DeleteItem(s, typ, d).0
  }

  ghost predicate Panics(s: State, call: Call, d: Degree)
    requires Ok(s, d)
  {
    call.Delete? && DeleteItem(s, call.typ, d).1.Panicked?
  }

  lemma StepOk(s: State, call: Call, d: Degree)
    requires Ok(s, d)
    ensures Ok(Step(s, call, d), d)
  {
    match call
    case Set(x) => ReplaceOrInsertOk(s, x, d);
    case Delete(typ) => DeleteItemOk(s, typ, d);
  }

  /** The panic is reached from an empty tree: by inserting one item and deleting it again. */
  lemma PanicReached(x: Item, typ: ToRemove, d: Degree)
    ensures Listing(Step(EMPTY, Set(x), d)) == [x]
    ensures Panics(Step(EMPTY, Set(x), d), Delete(typ), d) <==> typ.RemoveItem? ==> typ.key == x.key
  {
    hide ReplaceOrInsert, DeleteItem;
    ReplaceOrInsertOk(EMPTY, x, d);
    DeleteItemOk(Step(EMPTY, Set(x), d), typ, d);
    PositionIsFind([x], x.key, 0, true);
    if typ.RemoveItem? {
      FindIsPosition([x], typ.key);
    }
  }

  /** A run of calls; a caller may recover from a panic and go on. */
  ghost function Exec(start: State, calls: seq<Call>, d: Degree): (s: State)
    requires Ok(start, d)
    ensures Ok(s, d)
  {
    if calls == [] then start
    else
      StepOk(Exec(start, ButLast(calls), d), Last(calls), d);
      Step(Exec(start, ButLast(calls), d), Last(calls), d)
  }

  ghost function PanicsIn(calls: seq<Call>, d: Degree): nat {
    if calls == [] then 0
    else PanicsIn(ButLast(calls), d) + if Panics(Exec(EMPTY, ButLast(calls), d), Last(calls), d) then 1 else 0
  }

  ghost function Map(s: State): map<Key, Item> { AsMap(Listing(s)) }

  ghost predicate Least(m: map<Key, Item>, key: Key) { key in m && forall k | k in m :: key <= k }

  ghost predicate Greatest(m: map<Key, Item>, key: Key) { key in m && forall k | k in m :: k <= key }

  /** What a call should make of a map. */
  ghost predicate MapStep(m: map<Key, Item>, call: Call, m': map<Key, Item>) {
    match call
    case Set(x) => m' == m[x.key := x]
    case Delete(RemoveItem(key)) => m' == m - {key}
    case Delete(RemoveMin) => (m == map[] && m' == m) || exists key :: Least(m, key) && m' == m - {key}
    case Delete(RemoveMax) => (m == map[] && m' == m) || exists key :: Greatest(m, key) && m' == m - {key}
  }

  lemma EndsAreExtreme(list: seq<Item>)
    requires Sorted(list) && list != []
    ensures Least(AsMap(list), list[0].key) && list[1..] == Drop(list, list[0].key)
    ensures Greatest(AsMap(list), Last(list).key) && ButLast(list) == Drop(list, Last(list).key)
  {
    var m, n := AsMap(list), |list| - 1;
    PositionIsFind(list, list[0].key, 0, true);
    PositionIsFind(list, list[n].key, n, true);
    AsMapLooksUp(list, list[0].key);
    AsMapLooksUp(list, list[n].key);
    forall k | k in m ensures list[0].key <= k <= list[n].key {
      AsMapLooksUp(list, k);
      FindIsPosition(list, k);
    }
  }

  lemma RemovedRefinesMap(list: seq<Item>, typ: ToRemove)
    requires Sorted(list)
    ensures MapStep(AsMap(list), Delete(typ), AsMap(Removed(list, typ)))
  {
    if typ.RemoveItem? {
      DropIsRemoval(list, typ.key);
    } else if list != [] {
      EndsAreExtreme(list);
      DropIsRemoval(list, list[0].key);
      DropIsRemoval(list, Last(list).key);
    }
  }

  /** Every call of every run refines its map operation - the calls that panic included. */
  lemma RunRefinesMap(calls: seq<Call>, d: Degree)
    requires calls != []
    ensures MapStep(Map(Exec(EMPTY, ButLast(calls), d)), Last(calls), Map(Exec(EMPTY, calls, d)))
  {
    var s, call := Exec(EMPTY, ButLast(calls), d), Last(calls);
    match call
    case Set(x) =>
      ReplaceOrInsertOk(s, x, d);
      PutIsUpdate(Listing(s), x);
    case Delete(typ) =>
      DeleteItemOk(s, typ, d);
      RemovedRefinesMap(Listing(s), typ);
  }

  lemma {:induction false} AsMapSize(list: seq<Item>)
    requires Sorted(list)
    ensures |AsMap(list)| == |list|
  {
    if list != [] {
      var before, x := ButLast(list), Last(list);
      AsMapSize(before);
      AsMapLooksUp(before, x.key);
      FindIsPosition(before, x.key);
    }
  }

  /** The length is the size of the map, but for the panics a caller recovered from. */
  lemma {:induction false} LengthCounts(calls: seq<Call>, d: Degree)
    ensures Exec(EMPTY, calls, d).length == |Map(Exec(EMPTY, calls, d))| + PanicsIn(calls, d)
  {
    if calls != [] {
      var s, call := Exec(EMPTY, ButLast(calls), d), Last(calls);
      LengthCounts(ButLast(calls), d);
      AsMapSize(Listing(s));
      AsMapSize(Listing(Exec(EMPTY, calls, d)));
      match call
      case Set(x) => ReplaceOrInsertOk(s, x, d);
      case Delete(typ) => DeleteItemOk(s, typ, d);
    }
  }

  /** In every run the height is logarithmic in the number of items. */
  lemma RunHeight(calls: seq<Call>, d: Degree)
    requires Map(Exec(EMPTY, calls, d)) != map[]
    ensures var s := Exec(EMPTY, calls, d);
            s.root.Some? && 2 * Pow(d, s.root.value.height) - 1 <= |Map(s)| <= Pow(2 * d, s.root.value.height + 1) - 1
  {
    AsMapSize(Listing(Exec(EMPTY, calls, d)));
    HeightBound(Exec(EMPTY, calls, d), d);
  }
}
