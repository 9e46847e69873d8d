/** The calls of btree.go on a tree of heap nodes, and its clones. */
module BTrees {
  import opened BTreeItems
  import opened BTreeNodes
  import opened BTreeWhole
  import opened BTreeHeap
  import opened BTreeIterate
  import opened BTreeCut

  class BTree {
    const degree: Degree
    var length: int
    var root: Node?
    var cow: Context

    constructor (degree: Degree, cow: Context)
      requires cow.freeList.Valid()
      ensures this.degree == degree && this.cow == cow && root == null && length == 0 && Valid()
    {
      this.degree, this.cow := degree, cow;
      length, root := 0, null;
    }

    /** NewWithFreeList; null stands for its panic. */
    static method New(degree: int, freeList: FreeList, copiesChildren: bool) returns (t: BTree?)
      requires freeList.Valid()
      ensures t == null <==> degree <= 1
      ensures t != null ==> fresh(t) && fresh(t.cow) && t.Shows(Intact(EMPTY, false)) && t.degree == degree
      ensures t != null ==> t.cow.freeList == freeList && t.cow.copiesChildren == copiesChildren
    {
      if degree <= 1 {
        t := null;
      } else {
        var cow := new Context(freeList, copiesChildren);
        t := new BTree(degree, cow);
      }
    }

    ghost function Nodes(): set<Node>
      reads this, root
    {
      NodesOf(root)
    }

    ghost function Whole(): State
      reads this, root
    {
      State(if root == null then None else Some(Root(root.tree, root.height)), length)
    }

    ghost predicate Valid()
      reads this, root, Nodes(), cow.freeList, cow.freeList.nodes
    {
      cow.freeList.Valid() && (root != null ==> root.Valid() && root.Apart(cow)) && Ok(Whole(), degree)
    }

    /** A write needs a root it may change: an owned tree, a leaf, or copies that keep their children. */
    ghost predicate CanWrite()
      reads this, root, Nodes(), cow.freeList, cow.freeList.nodes
    {
      root != null ==> cow.copiesChildren || root.children == [] || root.Writable(cow)
    }

    /** The tree, whatever the free list holds. */
    ghost predicate Stands(v: View): (stands: bool)
      reads this, root, Nodes()
      ensures stands ==> v.Ok(degree) && (root != null ==> root in root.repr)
    {
      match v
      case Intact(s, shared) =>
        && (root != null ==> root.Valid()) && Whole() == s && Ok(s, degree)
        && (root != null && !cow.copiesChildren ==>
              if shared then root.cow != cow else root.children == [] || forall m | m in root.repr :: m.cow == cow)
        && (shared ==> !cow.copiesChildren)
      case Cut(b, n) => length == n && IsStump(b)
    }

    /** No node of the tree is on the free list. */
    ghost predicate Clear()
      reads this, root, cow.freeList, cow.freeList.nodes
    {
      cow.freeList.Valid() && forall m | m in cow.freeList.nodes :: m !in Nodes()
    }

    ghost predicate Shows(v: View)
      reads this, root, Nodes(), cow.freeList, cow.freeList.nodes
    {
      Stands(v) && Clear()
    }

    ghost predicate IsStump(b: Stump): (stump: bool)
      reads this, root, Nodes()
      ensures stump ==> b.Ok(degree) && forall m | m in Nodes() :: m.cow == cow
    {
      && !cow.copiesChildren && b.Ok(degree) && root != null && root.cow == cow && root in root.repr
      && (forall m | m in root.repr :: m.cow == cow)
      && match b
         case Bare(s) => root.repr == {root} && root.items == s && root.Bald(|s| + 1)
         case Parted(l, m, r) =>
           && root.items == [m] && |root.children| == 2 && root.children[0] != root.children[1]
           && IsPart(0, l) && IsPart(1, r) && root.repr == {root, root.children[0], root.children[1]}
         case Fallen(s) =>
           root.items == [] && |root.children| == 1 && IsPart(0, s) && root.repr == {root, root.children[0]}
    }

    ghost predicate IsPart(i: nat, s: seq<Item>)
      requires root != null && i < |root.children|
      reads this, root, Nodes()
    {
      var c := root.children[i];
      c != null && c != root && c in root.repr && c.items == s && c.Bald(|s| + 1)
    }

    ghost function Mine(): set<object>
      reads this, root, Nodes(), cow.freeList
    {
      {this, cow.freeList} + (set m | m in Nodes() && m.cow == cow) + set n | n in cow.freeList.nodes
    }

    /** What the tree may write is drawn from what it could write before, and from the allocator; of the
        nodes it shares none are added. */
    twostate predicate Drawn()
      reads this, root, Nodes(), cow.freeList
    {
      && (forall o: object | o in Mine() :: o in old(Mine()) || !old(allocated(o)))
      && (forall m | m in Nodes() && m.cow != cow :: m in old(Nodes()) && old(m.cow) != cow)
    }

    /** It is enough to add owned nodes, from the free list or the allocator, and to free only owned ones. */
    twostate lemma DrawnWith(new extra: set<Node>)
      requires cow == old(cow) && Nodes() <= old(Nodes()) + extra
      requires forall m | m in cow.freeList.nodes ::
                 m in old(cow.freeList.nodes) || (m in old(Nodes()) && old(m.cow) == cow)
      requires forall m | m in Nodes() && m !in extra :: m.cow == old(m.cow)
      requires forall m | m in extra :: m.cow == cow && (m in old(cow.freeList.nodes) || !old(allocated(m)))
      ensures Drawn()
    {}

    method Get(key: Key) returns (out: Option<Item>)
      requires Valid()
      ensures out == Lookup(Listing(Whole()), key)
    {
      out := None;
      if root != null {
        GetOk(root.tree, root.height, 0, degree, key);
        out := root.Get(key);
      }
    }

    lemma RootFits()
      requires Valid() && root != null
      ensures Fits(root.tree, root.height, 0, degree)
      ensures forall t: Tree | t.kids == [] :: Flat(t) == t.items
    {}

    method Min() returns (out: Option<Item>)
      requires Valid()
      ensures out == Taken(Listing(Whole()), RemoveMin)
    {
      out := None;
      if root != null {
        hide Flat, Fits, Sorted, Ok, Parts, Below, Trees;
        RootFits();
        var n: Node := root;
        while |n.children| > 0
          invariant n.Valid() && exists lo :: Fits(n.tree, n.height, lo, degree)
          invariant Flat(n.tree) <= Flat(root.tree) && (Flat(n.tree) == [] ==> n == root)
          decreases n.height
        {
          ghost var lo :| Fits(n.tree, n.height, lo, degree);
          FirstChildStarts(n.tree, n.height, lo, degree);
          n.ChildAt(0);
          n := n.children[0];
        }
        if |n.items| > 0 {
          out := Some(n.items[0]);
        }
      }
    }

    ghost predicate EndsAlike(s: seq<Item>, list: seq<Item>) {
      (s == [] <==> list == []) && (s != [] ==> Last(s) == Last(list))
    }

    lemma ToLastChild(t: Tree, h: nat, lo: nat, d: Degree, list: seq<Item>)
      requires Fits(t, h, lo, d) && h > 0 && EndsAlike(Flat(t), list)
      ensures var n := |t.kids|; n > 0 && Fits(t.kids[n - 1], h - 1, d - 1, d) && EndsAlike(Flat(t.kids[n - 1]), list)
    {
      LastChildEnds(t, h, lo, d);
    }

    lemma LastLeaf(t: Tree, list: seq<Item>)
      requires t.kids == [] && EndsAlike(Flat(t), list)
      ensures Taken(list, RemoveMax) == if t.items == [] then None else Some(t.items[|t.items| - 1])
    {}

    method Max() returns (out: Option<Item>)
      requires Valid()
      ensures out == Taken(Listing(Whole()), RemoveMax)
    {
      out := None;
      if root != null {
        hide Flat, Fits, Sorted, Ok, Parts, Below, Trees, Taken;
        RootFits();
        var n: Node := root;
        ghost var list := Flat(root.tree);
        while |n.children| > 0
          invariant n.Valid() && EndsAlike(Flat(n.tree), list) && exists lo :: Fits(n.tree, n.height, lo, degree)
          decreases n.height
        {
          ghost var lo :| Fits(n.tree, n.height, lo, degree);
          ToLastChild(n.tree, n.height, lo, degree, list);
          var last := |n.children| - 1;
          n.ChildAt(last);
          n := n.children[last];
        }
        LastLeaf(n.tree, list);
        if |n.items| > 0 {
          out := Some(n.items[|n.items| - 1]);
        }
      }
    }

    /** Ascend, Descend and their ranged forms; the source returns false at the end of each node. */
    method Iterate(q: Query, last: bool, more: More) returns (given: seq<Item>)
      requires Valid()
      ensures given == if root == null then [] else BTreeIterate.Iterate(root.tree, q, last, more).given
      ensures given <= Range(q, Listing(Whole()))
      ensures last ==> given == Upto(more, [], Range(q, Listing(Whole())))
      ensures !last && root != null ==> given == Upto(more, [], Range(q, FirstLeaf(root.tree, q).items))
    {
      given := [];
      if root != null {
        IterateGivesRange(root.tree, root.height, 0, degree, q, more);
        IterateGivesFirstLeaf(root.tree, root.height, 0, degree, q, more);
        IterateGivesAllExactly(root.tree, root.height, 0, degree, q, more);
        var w := Walk(false, true, []);
        if q.up {
          w := root.IterateUp(q, last, more, w);
        } else {
          w := root.IterateDown(q, last, more, w);
        }
        given := w.given;
      }
    }

    method PlantRoot(x: Item)
      requires Valid() && root == null
      modifies this`root, cow.freeList, cow.freeList.nodes
      ensures root != null && root.Writable(cow) && root.tree == Tree([x], []) && root.height == 0 && Drawn()
    {
      root := cow.NewNode();
      NoKids(0);
      root.items := [x];
      root.Close(0);
      DrawnWith({root});
    }

    method MutableRoot()
      requires Valid() && CanWrite() && root != null
      modifies this`root, cow.freeList, cow.freeList.nodes
      ensures root != null && root.Writable(cow) && Whole() == old(Whole()) && Drawn()
    {
      hide Parts, Below, Trees;
      NoKids(0);
      root := root.MutableFor(cow);
      DrawnWith(if root == old(root) then {} else {root});
    }

    /** A new root over two trees. */
    method PlantOver(item: Item, left: Node, right: Node)
      requires left.Writable(cow) && right.Writable(cow) && left.height == right.height && left.repr !! right.repr
      modifies this`root, cow.freeList, cow.freeList.nodes
      ensures root != null && root.Writable(cow) && root.repr == {root} + left.repr + right.repr
      ensures root in old(cow.freeList.nodes) || fresh(root)
      ensures cow.freeList.nodes <= old(cow.freeList.nodes)
      ensures root.height == left.height + 1 && root.tree == Tree([item], [left.tree, right.tree])
    {
      hide Parts, Below, Trees;
      root := cow.NewNode();
      root.Hang(item, left, right);
    }

    lemma RootShaped()
      requires Valid() && root != null
      ensures root.Shaped() && Fits(root.tree, root.height, 0, degree)
    {}

    method SplitRoot(i: nat)
      requires root != null && root.Writable(cow) && root.Shaped() && i < |root.items|
      modifies Mine()
      ensures root != null && root.Writable(cow) && cow == old(cow) && length == old(length) && Drawn()
      ensures var (l, x, r) := BTreeNodes.Split(old(root.tree), i);
              root.tree == Tree([x], [l, r]) && root.height == old(root.height) + 1
    {
      hide Parts, Below, Trees, BTreeNodes.Split;
      var oldroot := root;
      var item, second := oldroot.Split(i);
      PlantOver(item, oldroot, second);
      DrawnWith({root, second});
    }

    /** A full root is split under a new one. */
    method GrowRoot()
      requires Valid() && root != null && root.Writable(cow) && |root.items| >= 2 * degree - 1
      modifies Mine()
      ensures root != null && root.Writable(cow) && cow == old(cow) && length == old(length) && Drawn()
      ensures Root(root.tree, root.height) == Grown(old(Root(root.tree, root.height)), degree)
    {
      hide Parts, Below, Trees, BTreeNodes.Split, Flat, Sorted;
      RootShaped();
      SplitRoot((2 * degree - 1) / 2);
    }

    method InsertRoot(x: Item) returns (out: Option<Item>)
      requires Valid() && root != null && root.Writable(cow)
      modifies Mine()
      ensures root != null && root.Writable(cow) && cow == old(cow) && length == old(length) && Drawn()
      ensures var g := Grown(old(Root(root.tree, root.height)), degree);
              && Fits(g.tree, g.height, 0, degree) && |g.tree.items| < 2 * degree - 1
              && (root.tree, out) == BTreeNodes.Insert(g.tree, g.height, x, degree) && root.height == g.height
    {
      hide Flat, Sorted, BTreeNodes.Insert, Parts, Below, Trees;
      GrownOk(Root(root.tree, root.height), degree);
      if |root.items| >= 2 * degree - 1 {
        GrowRoot();
      }
      out := root.Insert(x, degree);
    }

    method PlantFirst(x: Item)
      requires Valid() && root == null
      modifies Mine()
      ensures Valid() && CanWrite() && cow == old(cow) && Drawn()
      ensures (Whole(), None) == BTreeWhole.ReplaceOrInsert(old(Whole()), x, degree)
    {
      ReplaceOrInsertOk(Whole(), x, degree);
      hide Ok, Flat, Sorted, Fits;
      PlantRoot(x);
      length := length + 1;
    }

    method InsertCounted(x: Item) returns (out: Option<Item>)
      requires Valid() && root != null && root.Writable(cow)
      modifies Mine()
      ensures root != null && root.Writable(cow) && cow == old(cow) && Drawn()
      ensures (Whole(), out) == BTreeWhole.ReplaceOrInsert(old(Whole()), x, degree)
    {
      hide Flat, Sorted, Fits, BTreeNodes.Insert, Parts, Below, Trees;
      out := InsertRoot(x);
      if out.None? {
        length := length + 1;
      }
    }

    method InsertIntact(x: Item) returns (out: Option<Item>)
      requires Valid() && CanWrite()
      modifies Mine()
      ensures Valid() && CanWrite() && cow == old(cow) && Drawn()
      ensures (Whole(), out) == BTreeWhole.ReplaceOrInsert(old(Whole()), x, degree)
    {
      hide Ok, Parts, Below, Trees, BTreeWhole.ReplaceOrInsert;
      ReplaceOrInsertOk(Whole(), x, degree);
      if root == null {
        PlantFirst(x);
        out := None;
      } else {
        MutableRoot();
        out := InsertCounted(x);
      }
    }

    /** An inner root without items gives way to its only child. */
    method LowerRoot()
      requires root != null && root.Writable(cow) && root.height > 0 && |root.tree.kids| == 1
      modifies Mine()
      ensures root != null && cow == old(cow) && length == old(length) && Drawn()
      ensures root.Valid() && root.Apart(cow) && (cow.copiesChildren || root.Writable(cow))
      ensures root.tree == old(root.tree.kids[0]) && root.height == old(root.height) - 1
    {
      root.ChildAt(0);
      var oldroot := root;
      root := root.children[0];
      var freed := cow.FreeNode(oldroot);
      DrawnWith({});
    }

    /** After removal: the root gives way when it has lost its last item. */
    method SettleRoot(out: Option<Item>) returns (outcome: Outcome)
      requires root != null && root.Writable(cow) && Fits(root.tree, root.height, 0, degree)
      modifies Mine()
      ensures root != null && cow == old(cow) && Drawn()
      ensures root.Valid() && root.Apart(cow) && (cow.copiesChildren || root.Writable(cow))
      ensures (Whole(), outcome) == Settled(old(length), old(root.tree), old(root.height), out)
    {
      hide Flat, Sorted, Parts, Below, Trees;
      if |root.items| == 0 && |root.children| == 0 {
        return Panicked;
      }
      if |root.items| == 0 {
        LowerRoot();
      }
      if out.Some? {
        length := length - 1;
      }
      outcome := Returned(out);
    }

    method RemoveRoot(typ: ToRemove) returns (outcome: Outcome)
      requires root != null && root.Writable(cow) && Removable(root.tree, root.height, degree)
      modifies Mine()
      ensures root != null && cow == old(cow) && Drawn()
      ensures root.Valid() && root.Apart(cow) && (cow.copiesChildren || root.Writable(cow))
      ensures var (r, out) := BTreeNodes.Remove(old(root.tree), old(root.height), typ, degree);
              && (old(root.height) > 0 ==> r.kids != [])
              && (Whole(), outcome) == Settled(old(length), r, old(root.height), out)
    {
      hide Flat, Sorted, BTreeNodes.Remove;
      RemoveOk(root.tree, root.height, typ, degree);
      var out := root.Remove(typ, degree);
      outcome := SettleRoot(out);
    }

    method DeleteIntact(typ: ToRemove) returns (outcome: Outcome)
      requires Valid() && CanWrite()
      modifies Mine()
      ensures Valid() && CanWrite() && cow == old(cow) && Drawn()
      ensures (Whole(), outcome) == BTreeWhole.DeleteItem(old(Whole()), typ, degree)
    {
      DeleteItemOk(Whole(), typ, degree);
      if root == null || |root.items| == 0 {
        outcome := Returned(None);
      } else {
        MutableRoot();
        outcome := RemoveRoot(typ);
      }
    }

    // ----- after a copy without children -----

    /** mutableFor on an inner root that this tree does not own. */
    method CopyRoot()
      requires Valid() && root != null && root.children != [] && root.cow != cow && !cow.copiesChildren
      modifies this`root, cow.freeList, cow.freeList.nodes
      ensures IsStump(Bare(old(root.items))) && Clear() && Drawn()
    {
      CopyOk(Whole(), degree);
      root := root.MutableFor(cow);
      root.repr := {root};
      DrawnWith({root});
    }

    /** split, on a node over nil children. */
    method SplitBald(n: Node, i: nat) returns (item: Item, next: Node)
      requires cow.freeList.Valid() && n !in cow.freeList.nodes && n.cow == cow && n.Bald(|n.items| + 1) &&
               i < |n.items|
      modifies n`items, n`children, cow.freeList, cow.freeList.nodes
      ensures (n.items, item, next.items) == (old(n.items[..i]), old(n.items[i]), old(n.items[i + 1..]))
      ensures n.Bald(i + 1) && next.Bald(|old(n.items)| - i) && next.cow == cow && next != n
      ensures next in old(cow.freeList.nodes) || fresh(next)
      ensures cow.freeList.Valid() && cow.freeList.nodes <= old(cow.freeList.nodes) && next !in cow.freeList.nodes
    {
      item := n.items[i];
      next := cow.NewNode();
      next.items, n.items := n.items[i + 1..], n.items[..i];
      next.children, n.children := n.children[i + 1..], n.children[..i + 1];
    }

    /** A new root over two nodes with nil children. */
    method PlantTwo(item: Item, left: Node, right: Node)
      requires cow.freeList.Valid() && left !in cow.freeList.nodes && right !in cow.freeList.nodes
      modifies this`root, cow.freeList, cow.freeList.nodes
      ensures root != null && root.items == [item] && root.children == [left, right] && root.cow == cow
      ensures root.repr == {root, left, right} && root != left && root != right
      ensures root in old(cow.freeList.nodes) || fresh(root)
      ensures cow.freeList.Valid() && cow.freeList.nodes <= old(cow.freeList.nodes) && root !in cow.freeList.nodes
    {
      root := cow.NewNode();
      root.items, root.children := [item], [left, right];
      root.repr := {root, left, right};
    }

    method CleaveRoot(ghost s: seq<Item>)
      requires IsStump(Bare(s)) && Clear() && |s| == 2 * degree - 1
      modifies Mine()
      ensures IsStump(Cleaved(s, degree)) && Clear() && cow == old(cow) && length == old(length) && Drawn()
    {
      OpenedOk(Bare(s), degree);
      hide Sorted;
      var oldroot := root;
      var item, second := SplitBald(oldroot, (2 * degree - 1) / 2);
      PlantTwo(item, oldroot, second);
      DrawnWith({root, second});
      assert IsPart(0, s[..degree - 1]) && IsPart(1, s[degree..]);
    }

    method CleaveChild(ghost s: seq<Item>)
      requires IsStump(Fallen(s)) && Clear()
      modifies Mine()
      ensures IsStump(Cleaved(s, degree)) && Clear() && cow == old(cow) && length == old(length) && Drawn()
    {
      OpenedOk(Fallen(s), degree);
      var first := root.children[0];
      var item, second := SplitBald(first, (2 * degree - 1) / 2);
      root.items, root.children := [item], [first, second];
      root.repr := {root, first, second};
      DrawnWith({second});
    }

    method OpenStump(ghost b: Stump)
      requires IsStump(b) && Clear()
      modifies Mine()
      ensures IsStump(Opened(b, degree)) && Clear() && cow == old(cow) && length == old(length) && Drawn()
    {
      hide IsPart;
      if |root.items| >= 2 * degree - 1 {
        CleaveRoot(b.items);
      } else if |root.items| == 0 {
        CleaveChild(b.items);
      }
    }

    /** insert, on a node over nil children: going on to one of them panics. */
    method SwapIn(n: Node, x: Item) returns (outcome: Outcome)
      requires Sorted(n.items) && n.Bald(|n.items| + 1)
      modifies n`items
      ensures (n.items, outcome) == Swapped(old(n.items), x)
    {
      var i, found := FindBinary(n.items, x.key);
      if found {
        outcome := Returned(Some(n.items[i]));
        n.items := n.items[i := x];
      } else {
        assert n.children[i] == null;
        outcome := Outcome.Panicked;
      }
    }

    method SetBare(x: Item, ghost s: seq<Item>) returns (outcome: Outcome)
      requires IsStump(Bare(s)) && |s| < 2 * degree - 1
      modifies Nodes()
      ensures root == old(root) && Nodes() == old(Nodes()) && IsStump(Bare(Swapped(s, x).0)) &&
              outcome == Swapped(s, x).1
    {
      SetStumpOk(Bare(s), x, degree);
      outcome := SwapIn(root, x);
    }

    method SwapPart(i: nat, n: Node, x: Item, ghost s: seq<Item>) returns (outcome: Outcome)
      requires root != null && i < |root.children| && n == root.children[i] && IsPart(i, s) && Sorted(s)
      modifies n`items
      ensures IsPart(i, Swapped(s, x).0) && outcome == Swapped(s, x).1
    {
      outcome := SwapIn(n, x);
    }

    method SetParted(x: Item, ghost b: Stump) returns (outcome: Outcome)
      requires IsStump(b) && b.Parted?
      modifies Nodes()
      ensures root == old(root) && Nodes() == old(Nodes()) && IsStump(SetOpened(b, x).0) && outcome == SetOpened(b, x).1
    {
      hide Sorted, Swapped;
      PartedSorted(b);
      SetStumpOk(b, x, degree);
      if x.Less(root.items[0]) {
        outcome := SwapPart(0, root.children[0], x, b.left);
        assert IsPart(1, b.right);
      } else if root.items[0].Less(x) {
        outcome := SwapPart(1, root.children[1], x, b.right);
        assert IsPart(0, b.left);
      } else {
        outcome := Returned(Some(root.items[0]));
        root.items := [x];
        assert IsPart(0, b.left) && IsPart(1, b.right);
      }
    }

    method SetOpenedStump(x: Item, ghost b: Stump) returns (outcome: Outcome)
      requires IsStump(b) && Opened(b, degree) == b
      modifies Nodes()
      ensures root == old(root) && Nodes() == old(Nodes()) && IsStump(SetOpened(b, x).0) && outcome == SetOpened(b, x).1
    {
      OpenedOk(b, degree);
      if root.children[0] == null {
        outcome := SetBare(x, b.items);
      } else {
        outcome := SetParted(x, b);
      }
    }

    method SetCut(x: Item, ghost b: Stump) returns (outcome: Outcome)
      requires IsStump(b) && Clear()
      modifies Mine()
      ensures IsStump(SetStump(b, x, degree).0) && outcome == SetStump(b, x, degree).1
      ensures Clear() && cow == old(cow) && length == old(length) && Drawn()
    {
      hide IsStump, SetOpened;
      OpenStump(b);
      OpenedTwice(b, degree);
      outcome := SetOpenedStump(x, Opened(b, degree));
    }

    /** growChildAndRemove merges the two minimal nodes. */
    method MergeStump(ghost b: Stump)
      requires IsStump(b) && b.Parted? && Clear()
      modifies Mine()
      ensures IsStump(DeleteStump(b).0) && Clear() && cow == old(cow) && length == old(length) && Drawn()
    {
      DeleteStumpOk(b, degree);
      var child, gone := root.children[0], root.children[1];
      var sep := root.items[0];
      root.items, root.children := [], [child];
      child.items, child.children := child.items + [sep] + gone.items, child.children + gone.children;
      root.repr := {root, child};
      var freed := cow.FreeNode(gone);
      DrawnWith({});
    }

    method DeleteCut(typ: ToRemove, ghost b: Stump) returns (outcome: Outcome)
      requires IsStump(b) && Clear()
      modifies Mine()
      ensures (IsStump(DeleteStump(b).0)) && outcome == DeleteStump(b).1
      ensures Clear() && cow == old(cow) && length == old(length) && Drawn()
    {
      if |root.items| == 0 {
        return Returned(None);
      }
      assert Sorted(root.items);
      var i, found := root.Position(typ);
      if root.children[i] != null {
        MergeStump(b);
      }
      outcome := Outcome.Panicked;
    }

    // ----- the calls, on any tree -----

    lemma IntactKids(v: View)
      requires Shows(v) && root != null && |root.children| > 0
      ensures v.Intact? ==> v.state.root.value.height > 0 && root.children[0] != null
      ensures v.Intact? && |root.children[0].children| > 0 ==> root.children[0].children[0] != null
    {
      if v.Intact? {
        root.ChildAt(0);
        if |root.children[0].children| > 0 {
          root.children[0].ChildAt(0);
        }
      }
    }

    /** Whether a write meets nil children: it is about to copy an inner root, or has done so before. */
    method MeetsNil(ghost v: View) returns (cut: bool)
      requires Shows(v) && root != null
      ensures cut <==> v.Cut? || v.Endangered()
    {
      cut := false;
      if !cow.copiesChildren && |root.children| > 0 {
        IntactKids(v);
        cut := root.cow != cow || root.children[0] == null;
        if !cut {
          var child := root.children[0];
          cut := |child.children| > 0 && child.children[0] == null;
        }
      }
    }

    method ToStump(ghost v: View)
      requires Shows(v) && root != null && (v.Cut? || v.Endangered())
      modifies this`root, cow.freeList, cow.freeList.nodes
      ensures IsStump(Remaining(v)) && Clear() && Drawn()
    {
      if root.cow != cow {
        CopyRoot();
      }
    }

    method ReplaceOrInsert(x: Item, ghost v: View) returns (outcome: Outcome)
      requires Shows(v)
      modifies Mine()
      ensures Shows(StepView(v, Set(x), degree).0) && outcome == StepView(v, Set(x), degree).1
      ensures cow == old(cow) && Drawn()
    {
      var cut := false;
      if root != null {
        cut := MeetsNil(v);
      }
      if cut {
        ToStump(v);
        outcome := SetCut(x, Remaining(v));
      } else {
        var out := InsertIntact(x);
        outcome := Returned(out);
      }
    }

    method DeleteItem(typ: ToRemove, ghost v: View) returns (outcome: Outcome)
      requires Shows(v)
      modifies Mine()
      ensures Shows(StepView(v, Delete(typ), degree).0) && outcome == StepView(v, Delete(typ), degree).1
      ensures cow == old(cow) && Drawn()
    {
      var cut := false;
      if root != null {
        cut := MeetsNil(v);
      }
      if cut {
        ToStump(v);
        outcome := DeleteCut(typ, Remaining(v));
      } else {
        outcome := DeleteIntact(typ);
      }
    }

    // ----- clones -----

    /** Another tree, none of whose nodes this one may write. */
    ghost predicate Spares(u: BTree)
      reads this, u, u.root, u.Nodes()
    {
      u != this && u.cow != cow && u.cow.freeList == cow.freeList && forall m | m in u.Nodes() :: m.cow != cow
    }

    /** Both trees get a context of their own; they share every node, and neither may write one. */
    method Clone() returns (t: BTree)
      requires Valid()
      modifies this`cow
      ensures fresh(t) && fresh(t.cow) && fresh(cow) && t.cow.freeList == cow.freeList == old(cow.freeList)
      ensures t.root == root && t.degree == degree
      ensures cow.copiesChildren == t.cow.copiesChildren == old(cow.copiesChildren)
      ensures var v := Intact(old(Whole()), !cow.copiesChildren); Shows(v) && t.Shows(v)
      ensures Spares(t) && t.Spares(this)
    {
      var cow1 := new Context(cow.freeList, cow.copiesChildren);
      var cow2 := new Context(cow.freeList, cow.copiesChildren);
      t := new BTree(degree, cow2);
      t.root, t.length := root, length;
      cow := cow1;
    }

    method Do(call: Call, ghost v: View) returns (outcome: Outcome)
      requires Shows(v)
      modifies Mine()
      ensures Shows(StepView(v, call, degree).0) && outcome == StepView(v, call, degree).1
      ensures cow == old(cow) && Drawn()
    {
      match call {
        case Set(x) => outcome := ReplaceOrInsert(x, v);
        case Delete(typ) => outcome := DeleteItem(typ, v);
      }
    }

    /** A write leaves the other tree what it was, and keeps the two trees apart. */
    method DoBeside(call: Call, ghost v: View, u: BTree, ghost w: View) returns (outcome: Outcome)
      requires Shows(v) && u.Shows(w) && Spares(u) && u.Spares(this)
      modifies Mine()
      ensures Shows(StepView(v, call, degree).0) && outcome == StepView(v, call, degree).1
      ensures u.Shows(w) && Spares(u) && u.Spares(this)
      ensures cow == old(cow) && u.cow == old(u.cow) && u.root == old(u.root)
      ensures forall o: object | o in Mine() || o in u.Mine() ::
                o in old(Mine()) || o in old(u.Mine()) || !old(allocated(o))
    {
      hide StepView, Stands;
      ghost var others := u.Nodes();
      outcome := Do(call, v);
      assert u.Nodes() == others && u.Stands(w);
      forall m | m in cow.freeList.nodes ensures m !in others {
        assert m in Mine();
      }
    }
  }

  /** The calls of a mixed run that go to one of two trees. */
  function Only(calls: seq<(bool, Call)>, first: bool): seq<Call> {
    if calls == [] then []
    else if Last(calls).0 == first then Only(ButLast(calls), first) + [Last(calls).1]
    else Only(ButLast(calls), first)
  }

  lemma OnlyNext(calls: seq<(bool, Call)>, i: nat)
    requires i < |calls|
    ensures forall first :: Only(calls[..i + 1], first) ==
                            if calls[i].0 == first then Only(calls[..i], first) + [calls[i].1]
                            else Only(calls[..i], first)
  {
    assert ButLast(calls[..i + 1]) == calls[..i];
  }

  lemma ExecNext(v: View, calls: seq<Call>, call: Call, d: Degree)
    requires v.Ok(d)
    ensures ExecView(v, calls + [call], d) == StepView(ExecView(v, calls, d), call, d).0
  {
    assert ButLast(calls + [call]) == calls;
  }

  ghost function Both(t: BTree, u: BTree): set<object>
    reads t, t.root, t.Nodes(), t.cow.freeList, u, u.root, u.Nodes(), u.cow.freeList
  {
    t.Mine() + u.Mine()
  }

  method DoOne(t: BTree, ghost v: View, u: BTree, ghost w: View, first: bool, call: Call)
    requires t.Shows(v) && u.Shows(w) && t.Spares(u) && u.Spares(t)
    modifies Both(t, u)
    ensures t.Shows(if first then StepView(v, call, t.degree).0 else v)
    ensures u.Shows(if first then w else StepView(w, call, u.degree).0)
    ensures t.Spares(u) && u.Spares(t)
    ensures forall o | o in Both(t, u) :: o in old(Both(t, u)) || !old(allocated(o))
  {
    hide StepView, BTree.Mine, BTree.Shows, BTree.Spares;
    if first {
      var outcome := t.DoBeside(call, v, u, w);
    } else {
      var outcome := u.DoBeside(call, w, t, v);
    }
  }

  /** A tree and its clone, cut or not: in any interleaving of calls each behaves as if it were alone. */
  method Interleave(t: BTree, ghost v: View, u: BTree, ghost w: View, calls: seq<(bool, Call)>)
    requires t.Shows(v) && u.Shows(w) && t.Spares(u) && u.Spares(t)
    modifies Both(t, u)
    ensures t.Shows(ExecView(v, Only(calls, true), t.degree))
    ensures u.Shows(ExecView(w, Only(calls, false), u.degree))
  {
    hide StepView, Both, BTree.Shows, BTree.Spares;
    StandsOk(t, v);
    StandsOk(u, w);
    assert calls[..0] == [];
    ghost var start := Both(t, u);
    var i := 0;
    while i < |calls|
      invariant i <= |calls| && t.Spares(u) && u.Spares(t)
      invariant forall o | o in Both(t, u) :: o in start || !old(allocated(o))
      invariant t.Shows(ExecView(v, Only(calls[..i], true), t.degree))
      invariant u.Shows(ExecView(w, Only(calls[..i], false), u.degree))
    {
      var (first, request) := calls[i];
      OnlyNext(calls, i);
      ghost var v', w' := ExecView(v, Only(calls[..i], true), t.degree), ExecView(w, Only(calls[..i], false), u.degree);
      ExecNext(v, Only(calls[..i], true), request, t.degree);
      ExecNext(w, Only(calls[..i], false), request, u.degree);
      DoOne(t, v', u, w', first, request);
      i := i + 1;
    }
    assert calls[..i] == calls;
  }

  lemma StandsOk(t: BTree, v: View)
    requires t.Shows(v)
    ensures v.Ok(t.degree)
  {}
}
