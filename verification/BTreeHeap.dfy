/** The nodes of btree.go in the heap: insertion, removal and iteration in place, copying a node before the first
    write, and the free list. Each method is proved against the function on values that says what it does. */
module BTreeHeap {
  import opened BTreeItems
  import opened BTreeNodes
  import opened BTreeIterate
  import BTreeWhole

  class FreeList {
    var nodes: seq<Node>
    const capacity: nat

    ghost predicate Valid()
      reads this, nodes
    {
      && |nodes| <= capacity
      && (forall i, j | 0 <= i < j < |nodes| :: nodes[i] != nodes[j])
      && (forall n | n in nodes :: n.items == [] && n.children == [] && n.cow == null)
    }

    constructor (size: nat)
      ensures Valid() && nodes == [] && capacity == size
    {
      nodes := [];
      capacity := size;
    }

    method NewNode() returns (n: Node)
      requires Valid()
      modifies this
      ensures Valid()
      ensures if old(nodes) == [] then fresh(n) && nodes == []
              else n == Last(old(nodes)) && nodes == ButLast(old(nodes))
      ensures n !in nodes && n.items == [] && n.children == [] && n.cow == null
    {
      var index := |nodes| - 1;
      if index < 0 {
        n := new Node();
      } else {
        n := nodes[index];
        nodes := nodes[..index];
      }
    }

    method FreeNode(n: Node) returns (out: bool)
      requires Valid() && n !in nodes && n.items == [] && n.children == [] && n.cow == null
      modifies this
      ensures Valid() && out == (|old(nodes)| < capacity)
      ensures nodes == if out then old(nodes) + [n] else old(nodes)
    {
      out := |nodes| < capacity;
      if out {
        nodes := nodes + [n];
      }
    }
  }

  datatype FreeType = FreelistFull | Stored | NodeOwned

  class Context {
    const freeList: FreeList
    const copiesChildren: bool

    constructor (freeList: FreeList, copiesChildren: bool)
      ensures this.freeList == freeList && this.copiesChildren == copiesChildren
    {
      this.freeList := freeList;
      this.copiesChildren := copiesChildren;
    }

    method NewNode() returns (n: Node)
      requires freeList.Valid()
      modifies freeList, freeList.nodes
      ensures freeList.Valid() && freeList.nodes <= old(freeList.nodes) && n !in freeList.nodes
      ensures n in old(freeList.nodes) || fresh(n)
      ensures forall m | m in old(freeList.nodes) && m != n :: unchanged(m)
      ensures n.items == [] && n.children == [] && n.cow == this
    {
      n := freeList.NewNode();
      n.cow := this;
    }

    /** freeNode: only a node this context owns is emptied, and stored while there is room. */
    method FreeNode(n: Node) returns (r: FreeType)
      requires freeList.Valid() && n !in freeList.nodes
      modifies freeList, if n.cow == this then {n} else {}
      ensures freeList.Valid()
      ensures old(n.cow) == this ==> n.items == [] && n.children == [] && n.cow == null
      ensures r == if old(n.cow) != this then NodeOwned
                   else if |old(freeList.nodes)| < freeList.capacity then Stored else FreelistFull
      ensures freeList.nodes == if r.Stored? then old(freeList.nodes) + [n] else old(freeList.nodes)
    {
      if n.cow == this {
        n.items, n.children, n.cow := [], [], null;
        var stored := freeList.FreeNode(n);
        r := if stored then Stored else FreelistFull;
      } else {
        r := NodeOwned;
      }
    }
  }

  // ----- the children of a node, as a list of disjoint trees -----

  ghost function NodesOf(c: Node?): set<Node>
    reads c
  {
    if c == null then {} else c.repr
  }

  ghost function Below(kids: seq<Node?>): set<Node>
    reads kids
  {
    if kids == [] then {} else NodesOf(kids[0]) + Below(kids[1..])
  }

  ghost function Trees(kids: seq<Node?>): (ts: seq<Tree>)
    reads kids
    ensures |ts| == |kids|
  {
    if kids == [] then [] else [if kids[0] == null then Tree([], []) else kids[0].tree] + Trees(kids[1..])
  }

  /** Trees of height h - 1 that share no node with each other. */
  ghost predicate Parts(kids: seq<Node?>, h: nat)
    reads kids, Below(kids)
    decreases h, |kids|
  {
    kids == [] ||
    (&& h > 0 && kids[0] != null && kids[0].height == h - 1 && kids[0].Valid()
     && NodesOf(kids[0]) !! Below(kids[1..]) && Parts(kids[1..], h))
  }

  lemma {:induction false} Together(a: seq<Node?>, b: seq<Node?>)
    ensures Below(a + b) == Below(a) + Below(b) && Trees(a + b) == Trees(a) + Trees(b)
  {
    if a == [] {
      assert a + b == b;
    } else {
      assert (a + b)[1..] == a[1..] + b;
      Together(a[1..], b);
    }
  }

  /** Children can be cut in two, and two lists that share no node can be put together. */
  lemma {:induction false} CutPut(a: seq<Node?>, b: seq<Node?>, h: nat)
    ensures Parts(a + b, h) <==> Parts(a, h) && Parts(b, h) && Below(a) !! Below(b)
    ensures Below(a + b) == Below(a) + Below(b) && Trees(a + b) == Trees(a) + Trees(b)
  {
    Together(a, b);
    if a == [] {
      assert a + b == b;
    } else {
      assert (a + b)[1..] == a[1..] + b;
      CutPut(a[1..], b, h);
      Together(a[1..], b);
    }
  }

  lemma {:induction false} Inside(kids: seq<Node?>, h: nat)
    requires Parts(kids, h)
    ensures forall k | 0 <= k < |kids| :: kids[k] in Below(kids)
  {
    if kids != [] {
      Inside(kids[1..], h);
    }
  }

  lemma NoKids(h: nat)
    ensures Parts([], h) && Below([]) == {} && Trees([]) == []
  {}

  lemma One(c: Node?, h: nat)
    ensures Parts([c], h) <==> h > 0 && c != null && c.height == h - 1 && c.Valid()
    ensures Below([c]) == NodesOf(c) && (c != null ==> Trees([c]) == [c.tree])
  {
    assert [c][1..] == [];
  }

  /** A child between those left and right of it. */
  lemma Among(l: seq<Node?>, c: Node, r: seq<Node?>, h: nat)
    ensures Parts(l + [c] + r, h) <==>
              && Parts(l, h) && Parts(r, h) && h > 0 && c.height == h - 1 && c.Valid()
              && Below(l) !! c.repr && Below(r) !! c.repr && Below(l) !! Below(r)
    ensures Below(l + [c] + r) == Below(l) + c.repr + Below(r)
    ensures Trees(l + [c] + r) == Trees(l) + [c.tree] + Trees(r)
  {
    One(c, h);
    CutPut(l, [c], h);
    CutPut(l + [c], r, h);
  }

  lemma Around(kids: seq<Node?>, i: nat, h: nat)
    requires Parts(kids, h) && i < |kids|
    ensures var l, c, r := kids[..i], kids[i], kids[i + 1..];
            && kids == l + [c] + r && c != null && c.Valid() && h > 0 && c.height == h - 1 && Parts(l, h) && Parts(r, h)
            && Below(l) !! c.repr && Below(r) !! c.repr && Below(l) !! Below(r)
            && Below(kids) == Below(l) + c.repr + Below(r) && Trees(kids) == Trees(l) + [c.tree] + Trees(r)
            && (forall k | 0 <= k < |l| :: l[k] in Below(l)) && (forall k | 0 <= k < |r| :: r[k] in Below(r))
  {
    var l, c, r := kids[..i], kids[i], kids[i + 1..];
    assert kids == l + ([c] + r);
    CutPut(l, [c] + r, h);
    CutPut([c], r, h);
    One(c, h);
    Inside(l, h);
    Inside(r, h);
  }

  lemma Replaced(a: seq<Tree>, t: Tree, b: seq<Tree>, u: Tree)
    ensures (a + [t] + b)[|a| := u] == a + [u] + b
  {}

  /** Two neighbouring children between those left and right of them. */
  lemma AmongPair(l: seq<Node?>, a: Node, b: Node, r: seq<Node?>, h: nat)
    requires Parts(l, h) && Parts(r, h) && h > 0 && a.height == b.height == h - 1 && a.Valid() && b.Valid()
    requires a.repr !! b.repr && Below(l) !! Below(r) && Below(l) + Below(r) !! a.repr + b.repr
    ensures Parts(l + [a] + [b] + r, h) && Below(l + [a] + [b] + r) == Below(l) + a.repr + b.repr + Below(r)
    ensures Trees(l + [a] + [b] + r) == Trees(l) + [a.tree] + [b.tree] + Trees(r)
  {
    hide Parts, Below, Trees;
    One(a, h);
    CutPut(l, [a], h);
    Among(l + [a], b, r, h);
  }

  lemma AroundPair(kids: seq<Node?>, i: nat, h: nat)
    requires Parts(kids, h) && i + 1 < |kids|
    ensures var l, a, b, r := kids[..i], kids[i], kids[i + 1], kids[i + 2..];
            && kids == l + [a] + [b] + r && a != null && b != null && Parts(l, h) && Parts(r, h)
            && h > 0 && a.height == b.height == h - 1 && a.Valid() && b.Valid()
            && a.repr !! b.repr && Below(l) !! Below(r) && Below(l) + Below(r) !! a.repr + b.repr
            && Below(kids) == Below(l) + a.repr + b.repr + Below(r)
            && Trees(kids) == Trees(l) + [a.tree] + [b.tree] + Trees(r)
            && (forall k | 0 <= k < |l| :: l[k] in Below(l)) && (forall k | 0 <= k < |r| :: r[k] in Below(r))
  {
    hide Parts, Below, Trees;
    Around(kids, i, h);
    Around(kids[i + 1..], 0, h);
    var l, a, b, r := kids[..i], kids[i], kids[i + 1], kids[i + 2..];
    assert kids[i + 1..] == [b] + r && kids[i + 1..][1..] == r;
    One(b, h);
    CutPut([b], r, h);
    AmongPair(l, a, b, r, h);
  }

  /** Around an insertion every child of the node, split or not, is sorted and fits. */
  lemma KidReady(t: Tree, h: nat, j: nat, d: Degree)
    requires h > 0 && Fits(t, h, 0, d) && Sorted(Flat(t)) && j <= |t.items|
    ensures Fits(t.kids[j], h - 1, d - 1, d) && Sorted(Flat(t.kids[j]))
  {
    FlatAt(t, j);
    SortedMiddle(Before(t, j), Flat(t.kids[j]), After(t, j));
  }

  lemma InsertReady(t: Tree, h: nat, i: nat, d: Degree)
    requires h > 0 && Fits(t, h, 0, d) && |t.items| < 2 * d - 1 && Sorted(Flat(t)) && i <= |t.items|
    ensures Fits(t.kids[i], h - 1, d - 1, d) && Sorted(Flat(t.kids[i]))
    ensures |t.kids[i].items| == 2 * d - 1 ==>
              var parted := SplitChild(t, i, d);
              && Fits(parted, h, 0, d)
              && forall j | i <= j <= i + 1 ::
                   && Fits(parted.kids[j], h - 1, d - 1, d) && Sorted(Flat(parted.kids[j]))
                   && |parted.kids[j].items| < 2 * d - 1
  {
    KidReady(t, h, i, d);
    if |t.kids[i].items| == 2 * d - 1 {
      SplitChildOk(t, h, i, 0, d);
      SplitFits(t.kids[i], h - 1, d);
      KidReady(SplitChild(t, i, d), h, i, d);
      KidReady(SplitChild(t, i, d), h, i + 1, d);
    }
  }

  lemma KidRemovable(t: Tree, h: nat, j: nat, d: Degree)
    requires h > 0 && Fits(t, h, 0, d) && Sorted(Flat(t)) && j <= |t.items| && |t.kids[j].items| > d - 1
    ensures Removable(t.kids[j], h - 1, d)
  {
    KidReady(t, h, j, d);
  }

  /** Whether remove would first grow the child it goes into. */
  ghost predicate ChosenMinimal(t: Tree, typ: ToRemove, d: Degree) {
    var i := Choose(t.items, typ).0;
    i < |t.kids| && |t.kids[i].items| <= d - 1
  }

  class Node {
    var items: seq<Item>
    var children: seq<Node?>
    var cow: Context?
    ghost var repr: set<Node>
    ghost var height: nat
    ghost var tree: Tree

    constructor ()
      ensures items == [] && children == [] && cow == null
    {
      items, children, cow := [], [], null;
    }

    ghost predicate Valid()
      reads this, repr
      decreases height, |children| + 1
    {
      && (forall k | 0 <= k < |children| :: children[k] in repr && children[k] != this)
      && repr == {this} + Below(children) && this !in Below(children)
      && tree == Tree(items, Trees(children))
      && Parts(children, height) && (height == 0 ==> children == [])
    }

    /** Recompute what the ghost fields say after an edit of items or children. */
    ghost method Close(h: nat)
      requires Parts(children, h) && this !in Below(children)
      modifies this`repr, this`height, this`tree
      ensures Valid() && height == h && tree == Tree(items, old(Trees(children))) &&
              repr == {this} + old(Below(children))
    {
      Inside(children, h);
      tree, height, repr := Tree(items, Trees(children)), h, {this} + Below(children);
    }

    ghost predicate Apart(c: Context)
      reads this, c.freeList, c.freeList.nodes
    {
      c.freeList.Valid() && forall n | n in c.freeList.nodes :: n !in repr
    }

    /** Room for children, all of them nil. */
    ghost predicate Bald(n: nat)
      reads this
    {
      |children| == n && forall k | 0 <= k < n :: children[k] == null
    }

    /** mutableFor: this node if the context owns it, and otherwise a copy it owns. */
    method MutableFor(c: Context) returns (out: Node)
      requires Valid() && Apart(c)
      modifies c.freeList, c.freeList.nodes
      ensures c.freeList.Valid() && c.freeList.nodes <= old(c.freeList.nodes)
      ensures out.cow == c && out.items == items && out !in c.freeList.nodes
      ensures if cow == c then out == this && c.freeList.nodes == old(c.freeList.nodes)
              else out in old(c.freeList.nodes) || fresh(out)
      ensures Valid() && (out.Valid() <==> cow == c || c.copiesChildren || children == [])
      ensures out.Valid() || out.Bald(|children|)
      ensures out.Valid() ==>
                out.tree == tree && out.height == height && out.children == children && out.Apart(c) &&
                out.repr == if cow == c then repr else repr - {this} + {out}
    {
      if cow == c {
        out := this;
      } else {
        out := Copy(c);
      }
    }

    method Copy(c: Context) returns (out: Node)
      requires Valid() && Apart(c)
      modifies c.freeList, c.freeList.nodes
      ensures c.freeList.Valid() && c.freeList.nodes <= old(c.freeList.nodes)
      ensures out.cow == c && out.items == items && out !in c.freeList.nodes
      ensures out in old(c.freeList.nodes) || fresh(out)
      ensures Valid() && (out.Valid() <==> c.copiesChildren || children == [])
      ensures out.Valid() || out.Bald(|children|)
      ensures out.Valid() ==>
                out.tree == tree && out.height == height && out.children == children && out.Apart(c) &&
                out.repr == repr - {this} + {out}
    {
      hide Parts, Below, Trees;
      out := c.NewNode();
      out.items := items;
      if c.copiesChildren {
        out.children := children;
      } else {
        out.children := seq(|children|, _ => null);
      }
      out.tree := tree;
      out.height := height;
      out.repr := repr - {this} + {out};
      assert Valid();
      if c.copiesChildren || children == [] {
        CopyValid(out);
      } else {
        assert out.children[0] == null;
      }
    }

    lemma CopyValid(out: Node)
      requires Valid() && out !in repr
      requires out.items == items && out.children == children && out.tree == tree && out.height == height
      requires out.repr == repr - {this} + {out}
      ensures out.Valid()
    {}

    /** This node is owned by c, and so is every node below it unless copies keep their children. */
    ghost predicate Writable(c: Context)
      reads this, repr, c.freeList, c.freeList.nodes
    {
      Valid() && cow == c && Apart(c) && (c.copiesChildren || forall m | m in repr :: m.cow == c)
    }

    /** What a call on this node may write: the nodes its context owns, and the free list. */
    ghost function Mine(c: Context): set<object>
      reads this, repr, c.freeList
    {
      (set m | m in repr && m.cow == c) + {c.freeList} + set n | n in c.freeList.nodes
    }

    /** What may be written is drawn from what could be written before, and from the allocator; of the nodes
        that are shared none are added. */
    twostate predicate Drawn(c: Context)
      reads this, repr, c.freeList
    {
      && (forall o: object | o in Mine(c) :: o in old(Mine(c)) || !old(allocated(o)))
      && (forall m | m in repr && m.cow != c :: m in old(repr) && old(m.cow) != c)
    }

    /** It is enough to add owned nodes, from the free list or the allocator, and to free only owned ones. */
    twostate lemma DrawnWith(new extra: set<Node>)
      requires cow != null && cow == old(cow) && repr <= old(repr) + extra
      requires forall m | m in cow.freeList.nodes ::
                 m in old(cow.freeList.nodes) || (m in old(repr) && old(m.cow) == cow)
      requires forall m | m in repr && m !in extra :: m.cow == old(m.cow)
      requires forall m | m in extra :: m.cow == cow && (m in old(cow.freeList.nodes) || !old(allocated(m)))
      ensures Drawn(cow)
    {}

    /** Child i is replaced by a node with the same listing. */
    method AdoptChild(i: nat, c: Node)
      requires cow != null && Writable(cow) && i < |children|
      requires c.Writable(cow) && c.height == height - 1 && c.tree == tree.kids[i] && this !in c.repr
      requires c.repr !! Below(children[..i]) + Below(children[i + 1..])
      modifies this`children, this`repr, this`tree, this`height
      ensures Writable(cow) && height == old(height) && tree == old(tree)
      ensures children == old(children)[i := c] && repr <= old(repr) + c.repr
    {
      hide Parts, Below, Trees;
      Around(children, i, height);
      ghost var l, r := children[..i], children[i + 1..];
      Among(l, c, r, height);
      children := children[i := c];
      assert children == l + [c] + r;
      Close(height);
    }

    method MutableChild(i: nat) returns (child: Node)
      requires cow != null && Writable(cow) && i < |children|
      modifies this`children, this`repr, this`tree, this`height, cow.freeList, cow.freeList.nodes
      ensures Writable(cow) && Drawn(cow)
      ensures height == old(height) && tree == old(tree)
      ensures children == old(children)[i := child] && child in repr && child.Writable(cow)
    {
      hide Parts, Below, Trees;
      Around(children, i, height);
      ghost var l, r := children[..i], children[i + 1..];
      ghost var others := Below(l) + Below(r);
      child := children[i].MutableFor(cow);
      assert Below(l) + Below(r) == others;
      AdoptChild(i, child);
      assert children[i] == child && child in repr;
      DrawnWith(if child in old(repr) then {} else {child});
    }

    ghost predicate Shaped()
      reads this
    {
      children == [] || |children| == |items| + 1
    }

    /** An empty node takes what stands right of item i of another, */
    method TakeTail(from: Node, i: nat)
      requires from.Valid() && from.Shaped() && i < |from.items| && this !in from.repr && items == [] && children == []
      modifies this`items, this`children, this`repr, this`tree, this`height
      ensures Valid() && height == from.height && tree == BTreeNodes.Split(from.tree, i).2
      ensures repr == {this} + if from.children == [] then {} else old(Below(from.children[i + 1..]))
    {
      hide Parts, Below, Trees;
      NoKids(from.height);
      items := from.items[i + 1..];
      if |from.children| > 0 {
        assert from.children == from.children[..i + 1] + from.children[i + 1..];
        CutPut(from.children[..i + 1], from.children[i + 1..], from.height);
        children := from.children[i + 1..];
      }
      Close(from.height);
    }

    /** and the other drops it. */
    method CutTail(i: nat)
      requires Valid() && Shaped() && i < |items|
      modifies this`items, this`children, this`repr, this`tree, this`height
      ensures Valid() && height == old(height) && tree == BTreeNodes.Split(old(tree), i).0
      ensures repr == {this} + if old(children) == [] then {} else old(Below(children[..i + 1]))
    {
      hide Parts, Below, Trees;
      NoKids(height);
      items := items[..i];
      if |children| > 0 {
        assert children == children[..i + 1] + children[i + 1..];
        CutPut(children[..i + 1], children[i + 1..], height);
        children := children[..i + 1];
      }
      Close(height);
    }

    method MoveTail(i: nat, next: Node)
      requires Valid() && Shaped() && i < |items| && next !in repr && next.items == [] && next.children == []
      modifies this`items, this`children, this`repr, this`tree, this`height
      modifies next`items, next`children, next`repr, next`tree, next`height
      ensures Valid() && next.Valid() && height == next.height == old(height)
      ensures (tree, old(items[i]), next.tree) == BTreeNodes.Split(old(tree), i)
      ensures repr <= old(repr) && next.repr <= old(repr) + {next} - {this} && repr !! next.repr
    {
      hide Parts, Below, Trees;
      if |children| > 0 {
        assert children == children[..i + 1] + children[i + 1..];
        CutPut(children[..i + 1], children[i + 1..], height);
      }
      next.TakeTail(this, i);
      CutTail(i);
    }

    method Split(i: nat) returns (item: Item, next: Node)
      requires cow != null && Writable(cow) && Shaped() && i < |items|
      modifies this`items, this`children, this`repr, this`tree, this`height, cow.freeList, cow.freeList.nodes
      ensures Writable(cow) && next.Writable(cow) && height == next.height == old(height)
      ensures (tree, item, next.tree) == BTreeNodes.Split(old(tree), i)
      ensures repr <= old(repr) && next.repr <= old(repr) + {next} && repr !! next.repr
      ensures next in old(cow.freeList.nodes) || fresh(next)
      ensures cow.freeList.nodes <= old(cow.freeList.nodes)
    {
      item := items[i];
      next := cow.NewNode();
      MoveTail(i, next);
    }

    /** A node split off child i becomes child i+1. */
    method InsertChild(i: nat, item: Item, second: Node)
      requires |children| == |items| + 1 && i < |children| && height > 0
      requires Parts(children, height) && second.Valid() && second.height == height - 1
      requires second.repr !! Below(children) && this !in Below(children) + second.repr
      modifies this`items, this`children, this`repr, this`tree, this`height
      ensures Valid() && height == old(height) && repr == {this} + old(Below(children)) + old(second.repr)
      ensures tree == Tree(InsertAt(old(items), i, item), InsertAt(old(Trees(children)), i + 1, old(second.tree)))
    {
      hide Parts, Below, Trees;
      ghost var l, r := children[..i + 1], children[i + 1..];
      assert children == l + r;
      CutPut(l, r, height);
      Among(l, second, r, height);
      Inside(children, height);
      items := InsertAt(items, i, item);
      children := InsertAt(children, i + 1, second);
      Close(height);
    }

    /** Child i is split; the new node does not hang in the tree yet. */
    method SplitOff(i: nat, first: Node, at: nat) returns (item: Item, second: Node)
      requires cow != null && Writable(cow) && i < |children| && first == children[i] && first.Writable(cow)
      requires first.Shaped() && at < |first.items| && first.tree == tree.kids[i]
      modifies first`items, first`children, first`repr, first`tree, first`height, cow.freeList, cow.freeList.nodes
      ensures Parts(children, height) && Below(children) + second.repr <= repr - {this} + {second} &&
              second.repr !! Below(children)
      ensures second.Writable(cow) && second.height == height - 1 &&
              (second in old(cow.freeList.nodes) || fresh(second))
      ensures (first.tree, item, second.tree) == BTreeNodes.Split(old(first.tree), at)
      ensures Trees(children) == tree.kids[i := first.tree] && cow.freeList.nodes <= old(cow.freeList.nodes)
    {
      hide Parts, Below, Trees, BTreeNodes.Split;
      Around(children, i, height);
      ghost var l, r := children[..i], children[i + 1..];
      ghost var others, trees := Below(l) + Below(r), (Trees(l), Trees(r));
      item, second := first.Split(at);
      assert Below(l) + Below(r) == others;
      assert (Trees(l), Trees(r)) == trees;
      assert Parts(l, height) && Parts(r, height);
      Among(l, first, r, height);
    }

    method SplitKid(i: nat, first: Node, d: Degree)
      requires cow != null && Writable(cow) && i < |children| == |items| + 1 && first == children[i] &&
               first.Writable(cow)
      requires first.Shaped() && |first.items| == 2 * d - 1 && first.tree == tree.kids[i]
      modifies this`items, this`children, this`repr, this`tree, this`height
      modifies first`items, first`children, first`repr, first`tree, first`height, cow.freeList, cow.freeList.nodes
      ensures Writable(cow) && Drawn(cow) && height == old(height)
      ensures tree == SplitChild(old(tree), i, d)
    {
      hide Parts, Below, Trees;
      var item, second := SplitOff(i, first, (2 * d - 1) / 2);
      InsertChild(i, item, second);
      DrawnWith({second});
    }

    lemma ChildAt(i: nat)
      requires Valid() && i < |children|
      ensures var c := children[i];
              && c != null && c.Valid() && c.height == height - 1 && c.tree == tree.kids[i]
              && c.items == tree.kids[i].items && |c.children| == |tree.kids[i].kids| && c.repr <= repr - {this}
    {
      hide Parts, Below, Trees;
      Around(children, i, height);
    }

    /** maybeSplitChild: a full child is split at its middle item. */
    method MaybeSplitChild(i: nat, d: Degree) returns (split: bool)
      requires cow != null && Writable(cow) && height > 0 && Fits(tree, height, 0, d) && |items| < 2 * d - 1 &&
               i <= |items|
      requires Fits(tree.kids[i], height - 1, d - 1, d)
      modifies Mine(cow)
      ensures cow == old(cow) && Writable(cow) && Drawn(cow) && height == old(height)
      ensures split == (|old(tree).kids[i].items| == 2 * d - 1)
      ensures tree == if split then SplitChild(old(tree), i, d) else old(tree)
    {
      ChildAt(i);
      split := false;
      if |children[i].items| >= 2 * d - 1 {
        split := true;
        var first := MutableChild(i);
        ChildAt(i);
        SplitKid(i, first, d);
      }
    }

    method SetItem(i: nat, x: Item)
      requires cow != null && Writable(cow) && i < |items|
      modifies this`items, this`repr, this`tree, this`height
      ensures Writable(cow) && height == old(height) && repr <= old(repr)
      ensures tree == old(tree).(items := old(tree).items[i := x])
    {
      hide Parts, Below, Trees;
      items := items[i := x];
      Close(height);
    }

    method InsertItem(i: nat, x: Item)
      requires cow != null && Writable(cow) && i <= |items|
      modifies this`items, this`repr, this`tree, this`height
      ensures Writable(cow) && height == old(height) && repr <= old(repr)
      ensures tree == Tree(InsertAt(old(tree).items, i, x), old(tree).kids)
    {
      hide Parts, Below, Trees;
      items := InsertAt(items, i, x);
      Close(height);
    }

    ghost function Others(i: nat): set<Node>
      requires i < |children|
      reads this, children
    {
      Below(children[..i]) + Below(children[i + 1..])
    }

    /** A call on child i has come back: it changed nothing else, and the children still hang together. */
    twostate predicate CalledBack(i: nat)
      reads *
    {
      && unchanged(this) && cow != null && i < |children| == |tree.kids| && children[i] != null
      && Parts(children, height) && this !in Below(children) && Trees(children) == tree.kids[i := children[i].tree]
      && Below(children) == Others(i) + children[i].repr
      && Others(i) + {this} <= old(repr - children[i].repr) && (forall m | m in Others(i) :: unchanged(m))
      && children[i].Writable(cow) && children[i].Drawn(cow)
    }

    /** Once the ghost fields have followed, the whole tree is drawn from the same nodes, and writable. */
    twostate lemma ChildSettled(i: nat)
      requires cow != null && unchanged(this`cow) && unchanged(this`children) && i < |children| && children[i] != null
      requires repr == {this} + Others(i) + children[i].repr
      requires Others(i) + {this} <= old(repr - children[i].repr) && forall m | m in Others(i) :: unchanged(m)
      requires old(children[i].repr) <= old(repr) && old(Apart(cow)) && children[i].Drawn(cow) && children[i].Apart(cow)
      requires cow.copiesChildren ||
               ((forall m | m in old(repr) :: old(m.cow) == cow) && forall m | m in children[i].repr :: m.cow == cow)
      ensures Drawn(cow) && Apart(cow) && (cow.copiesChildren || forall m | m in repr :: m.cow == cow)
    {
      hide Below;
      var child := children[i];
      forall o: object | o in Mine(cow) ensures o in old(Mine(cow)) || !old(allocated(o)) {
        assert o in child.Mine(cow) || o == this || o in Others(i);
      }
      forall m | m in cow.freeList.nodes ensures m !in repr {
        assert m in child.Mine(cow);
      }
    }

    /** After a call on child i the children left and right of it are what they were, and share no node with it. */
    twostate lemma Beside(i: nat)
      requires unchanged(this) && cow != null && i < |children| && children[i] != null
      requires old(Valid()) && children[i].Drawn(cow) && old(Apart(cow))
      requires forall m | m in old(repr - children[i].repr) :: unchanged(m)
      requires var l, r := children[..i], children[i + 1..];
               && old(Parts(l, height) && Parts(r, height))
               && old(Below(l) + Below(r)) + {this} == old(repr - children[i].repr)
               && (forall k | 0 <= k < |l| :: l[k] in old(Below(l))) && forall k | 0 <= k < |r| :: r[k] in old(Below(r))
      ensures var l, r := children[..i], children[i + 1..];
              && Parts(l, height) && Below(l) == old(Below(l)) && Trees(l) == old(Trees(l))
              && Parts(r, height) && Below(r) == old(Below(r)) && Trees(r) == old(Trees(r))
              && Below(l) + Below(r) + {this} !! children[i].repr
    {
      hide Parts, Below, Trees;
      var nodes := old(repr - children[i].repr);
      forall m | m in nodes ensures m !in children[i].repr {
        assert m in children[i].repr && m.cow == cow ==> m in children[i].Mine(cow);
      }
    }

    method CallInsert(i: nat, x: Item, d: Degree, ghost t: Tree, ghost h: nat) returns (out: Option<Item>)
      requires cow != null && Writable(cow) && i < |children| && children[i].Writable(cow) && height == h + 1
      requires t == tree.kids[i] && Fits(t, h, 0, d) && |t.items| < 2 * d - 1 && Sorted(Flat(t))
      modifies children[i].Mine(cow)
      ensures CalledBack(i) && (children[i].tree, out) == BTreeNodes.Insert(t, h, x, d)
      decreases height, 0
    {
      hide Parts, Below, Trees, Fits, Flat, Sorted, BTreeNodes.Insert;
      ChildAt(i);
      Around(children, i, height);
      ghost var l, r := children[..i], children[i + 1..];
      ghost var others, trees := Below(l) + Below(r), (Trees(l), Trees(r));
      out := children[i].Insert(x, d);
      Beside(i);
      Among(l, children[i], r, height);
      Replaced(trees.0, t, trees.1, children[i].tree);
    }

    method InsertBelow(i: nat, x: Item, d: Degree) returns (out: Option<Item>)
      requires cow != null && Writable(cow) && i < |children| && children[i].Writable(cow)
      requires Fits(tree, height, 0, d) && height > 0
      requires Fits(tree.kids[i], height - 1, d - 1, d) && |tree.kids[i].items| < 2 * d - 1 &&
               Sorted(Flat(tree.kids[i]))
      modifies Mine(cow)
      ensures cow == old(cow) && Writable(cow) && Drawn(cow) && height == old(height)
      ensures (tree, out) == BTreeNodes.InsertBelow(old(tree), height, i, x, d)
      decreases height, 1
    {
      hide Parts, Below, Trees, Fits, Flat, Sorted, BTreeNodes.Insert;
      ChildAt(i);
      FitsFromZero(tree.kids[i], height - 1, d - 1, d);
      out := CallInsert(i, x, d, tree.kids[i], height - 1);
      Close(height);
      ChildSettled(i);
    }

    method InsertMutable(i: nat, x: Item, d: Degree) returns (out: Option<Item>)
      requires cow != null && Writable(cow) && Fits(tree, height, 0, d) && height > 0 && i <= |items|
      requires Fits(tree.kids[i], height - 1, d - 1, d) && |tree.kids[i].items| < 2 * d - 1 &&
               Sorted(Flat(tree.kids[i]))
      modifies Mine(cow)
      ensures cow == old(cow) && Writable(cow) && Drawn(cow) && height == old(height)
      ensures (tree, out) == BTreeNodes.InsertBelow(old(tree), height, i, x, d)
      decreases height, 2
    {
      var child := MutableChild(i);
      out := InsertBelow(i, x, d);
    }

    method InsertInner(i: nat, x: Item, d: Degree) returns (out: Option<Item>)
      requires cow != null && Writable(cow) && Fits(tree, height, 0, d) && |items| < 2 * d - 1 && Sorted(Flat(tree))
      requires height > 0 && Find(items, x.key) == (i, false)
      modifies Mine(cow)
      ensures cow == old(cow) && Writable(cow) && Drawn(cow) && height == old(height)
      ensures (tree, out) == BTreeNodes.Insert(old(tree), height, x, d)
      decreases height, 3
    {
      hide Parts, Below, Trees, Flat, Sorted;
      InsertReady(tree, height, i, d);
      var split := MaybeSplitChild(i, d);
      var j := i;
      if split {
        if items[i].Less(x) {
          j := i + 1;
        } else if !x.Less(items[i]) {
          out := Some(items[i]);
          SetItem(i, x);
          return;
        }
      }
      out := InsertMutable(j, x, d);
    }

    /** insert, into a node that is not full. */
    method Insert(x: Item, d: Degree) returns (out: Option<Item>)
      requires cow != null && Writable(cow) && Fits(tree, height, 0, d) && |items| < 2 * d - 1 && Sorted(Flat(tree))
      modifies Mine(cow)
      ensures cow == old(cow) && Writable(cow) && Drawn(cow) && height == old(height)
      ensures (tree, out) == BTreeNodes.Insert(old(tree), height, x, d)
      decreases height, 4
    {
      RootSorted(tree);
      var i, found := FindBinary(items, x.key);
      if found {
        out := Some(items[i]);
        SetItem(i, x);
      } else if |children| == 0 {
        out := None;
        InsertItem(i, x);
      } else {
        out := InsertInner(i, x, d);
      }
    }

    // ----- removal -----

    /** The last item leaves, with the last child where there is one. */
    method PopLast() returns (item: Item, kid: seq<Node?>)
      requires Valid() && Shaped() && items != []
      modifies this`items, this`children, this`repr, this`tree, this`height
      ensures Valid() && height == old(height) && item == Last(old(items))
      ensures tree == Tree(ButLast(old(tree).items), if old(tree).kids == [] then [] else ButLast(old(tree).kids))
      ensures |kid| == |Trees(kid)| && Trees(kid) == if old(tree).kids == [] then [] else [Last(old(tree).kids)]
      ensures Parts(kid, height) && repr + Below(kid) <= old(repr) && Below(kid) !! repr && this !in Below(kid)
    {
      hide Parts, Below, Trees;
      NoKids(height);
      item, kid := Last(items), [];
      items := ButLast(items);
      if |children| > 0 {
        ghost var l, r := ButLast(children), [Last(children)];
        assert children == l + r;
        CutPut(l, r, height);
        kid := [Last(children)];
        children := ButLast(children);
      }
      Close(height);
    }

    method PopFirst() returns (item: Item, kid: seq<Node?>)
      requires Valid() && Shaped() && items != []
      modifies this`items, this`children, this`repr, this`tree, this`height
      ensures Valid() && height == old(height) && item == old(items)[0]
      ensures tree == Tree(old(tree).items[1..], if old(tree).kids == [] then [] else old(tree).kids[1..])
      ensures |kid| == |Trees(kid)| && Trees(kid) == if old(tree).kids == [] then [] else [old(tree).kids[0]]
      ensures Parts(kid, height) && repr + Below(kid) <= old(repr) && Below(kid) !! repr && this !in Below(kid)
    {
      hide Parts, Below, Trees;
      NoKids(height);
      item, kid := items[0], [];
      items := items[1..];
      if |children| > 0 {
        ghost var l, r := [children[0]], children[1..];
        assert children == l + r;
        CutPut(l, r, height);
        kid := [children[0]];
        children := children[1..];
      }
      Close(height);
    }

    method PushFirst(item: Item, kid: seq<Node?>)
      requires Valid() && Parts(kid, height) && Below(kid) !! repr
      modifies this`items, this`children, this`repr, this`tree, this`height
      ensures Valid() && height == old(height) && repr == old(repr) + old(Below(kid))
      ensures tree == Tree([item] + old(tree).items, old(Trees(kid)) + old(tree).kids)
    {
      hide Parts, Below, Trees;
      CutPut(kid, children, height);
      Inside(kid, height);
      items := [item] + items;
      children := kid + children;
      Close(height);
    }

    method PushLast(item: Item, kid: seq<Node?>)
      requires Valid() && Parts(kid, height) && Below(kid) !! repr
      modifies this`items, this`children, this`repr, this`tree, this`height
      ensures Valid() && height == old(height) && repr == old(repr) + old(Below(kid))
      ensures tree == Tree(old(tree).items + [item], old(tree).kids + old(Trees(kid)))
    {
      hide Parts, Below, Trees;
      CutPut(children, kid, height);
      Inside(kid, height);
      items := items + [item];
      children := children + kid;
      Close(height);
    }

    /** The last item of the left neighbour moves up, and the separator down to this node. */
    method TakeLast(sep: Item, from: Node) returns (stolen: Item)
      requires Valid() && from.Valid() && height == from.height && repr !! from.repr
      requires from.Shaped() && from.items != []
      modifies this`items, this`children, this`repr, this`tree, this`height
      modifies from`items, from`children, from`repr, from`tree, from`height
      ensures Valid() && from.Valid() && height == from.height == old(height)
      ensures (from.tree, stolen, tree) == RotateRight(old(from.tree), sep, old(tree))
      ensures repr !! from.repr && from.repr <= old(from.repr) && repr <= old(repr) + old(from.repr) - {from}
    {
      hide Parts, Below, Trees;
      var kid;
      stolen, kid := from.PopLast();
      PushFirst(sep, kid);
    }

    /** The first item of the right neighbour moves up, and the separator down to this node. */
    method TakeFirst(sep: Item, from: Node) returns (stolen: Item)
      requires Valid() && from.Valid() && height == from.height && repr !! from.repr
      requires from.Shaped() && from.items != []
      modifies this`items, this`children, this`repr, this`tree, this`height
      modifies from`items, from`children, from`repr, from`tree, from`height
      ensures Valid() && from.Valid() && height == from.height == old(height)
      ensures (tree, stolen, from.tree) == RotateLeft(old(tree), sep, old(from.tree))
      ensures repr !! from.repr && from.repr <= old(from.repr) && repr <= old(repr) + old(from.repr) - {from}
    {
      hide Parts, Below, Trees;
      var kid;
      stolen, kid := from.PopFirst();
      PushLast(sep, kid);
    }

    method RotateRightAt(i: nat, from: Node, child: Node)
      requires cow != null && Writable(cow) && i < |items| && |children| == |items| + 1
      requires from == children[i] && child == children[i + 1] && from.Shaped() && tree.kids[i].items != []
      modifies this`items, this`children, this`repr, this`tree, this`height
      modifies from`items, from`children, from`repr, from`tree, from`height
      modifies child`items, child`children, child`repr, child`tree, child`height
      ensures Writable(cow) && repr <= old(repr) && height == old(height)
      ensures tree == StealLeft(old(tree), i + 1)
    {
      hide Parts, Below, Trees;
      AroundPair(children, i, height);
      ghost var l, r := children[..i], children[i + 2..];
      ghost var others, trees := (Below(l), Below(r)), (Trees(l), Trees(r));
      var stolen := child.TakeLast(items[i], from);
      assert (Below(l), Below(r)) == others && (Trees(l), Trees(r)) == trees && Parts(l, height) && Parts(r, height);
      AmongPair(l, from, child, r, height);
      assert Trees(children) == tree.kids[i := children[i].tree][i + 1 := children[i + 1].tree];
      items := items[i := stolen];
      Close(height);
    }

    method RotateLeftAt(i: nat, child: Node, from: Node)
      requires cow != null && Writable(cow) && i < |items| && |children| == |items| + 1
      requires child == children[i] && from == children[i + 1] && from.Shaped() && tree.kids[i + 1].items != []
      modifies this`items, this`children, this`repr, this`tree, this`height
      modifies from`items, from`children, from`repr, from`tree, from`height
      modifies child`items, child`children, child`repr, child`tree, child`height
      ensures Writable(cow) && repr <= old(repr) && height == old(height)
      ensures tree == StealRight(old(tree), i)
    {
      hide Parts, Below, Trees;
      AroundPair(children, i, height);
      ghost var l, r := children[..i], children[i + 2..];
      ghost var others, trees := (Below(l), Below(r)), (Trees(l), Trees(r));
      var stolen := child.TakeFirst(items[i], from);
      assert (Below(l), Below(r)) == others && (Trees(l), Trees(r)) == trees && Parts(l, height) && Parts(r, height);
      AmongPair(l, child, from, r, height);
      assert Trees(children) == tree.kids[i := children[i].tree][i + 1 := children[i + 1].tree];
      items := items[i := stolen];
      Close(height);
    }

    /** The separator and everything in the right neighbour is appended to this node. */
    method Absorb(sep: Item, other: Node)
      requires Valid() && other.Valid() && height == other.height && repr !! other.repr
      modifies this`items, this`children, this`repr, this`tree, this`height
      ensures Valid() && height == old(height) && repr == old(repr) + other.repr - {other}
      ensures tree == Join(old(tree), sep, other.tree)
    {
      hide Parts, Below, Trees;
      CutPut(children, other.children, height);
      items := items + [sep] + other.items;
      children := children + other.children;
      Close(height);
    }

    /** Child i takes over child i+1 and the separator, which both leave. */
    method MergeAt(i: nat, child: Node) returns (gone: Node)
      requires cow != null && Writable(cow) && i < |items| && |children| == |items| + 1 && child == children[i]
      modifies this`items, this`children, this`repr, this`tree, this`height
      modifies child`items, child`children, child`repr, child`tree, child`height
      ensures Writable(cow) && height == old(height) && gone == old(children[i + 1]) && repr <= old(repr) - {gone}
      ensures tree == MergeKids(old(tree), i)
    {
      hide Parts, Below, Trees;
      AroundPair(children, i, height);
      ghost var l, r := children[..i], children[i + 2..];
      ghost var others, trees := (Below(l), Below(r)), (Trees(l), Trees(r));
      gone := children[i + 1];
      var sep := items[i];
      items, children := RemoveAt(items, i), RemoveAt(children, i + 1);
      child.Absorb(sep, gone);
      assert (Below(l), Below(r)) == others && (Trees(l), Trees(r)) == trees && Parts(l, height) && Parts(r, height);
      Among(l, child, r, height);
      assert children == l + [child] + r;
      assert Trees(children) == RemoveAt(tree.kids[i := child.tree], i + 1);
      Close(height);
    }

    method StealLeftOf(i: nat)
      requires cow != null && Writable(cow) && 0 < i <= |items| && |children| == |items| + 1
      requires tree.kids[i - 1].items != [] && |tree.kids[i - 1].kids| in {0, |tree.kids[i - 1].items| + 1}
      modifies Mine(cow)
      ensures cow == old(cow) && Writable(cow) && Drawn(cow) && height == old(height)
      ensures tree == StealLeft(old(tree), i)
    {
      hide Parts, Below, Trees;
      var child := MutableChild(i);
      assert child !in cow.freeList.nodes;
      var from := MutableChild(i - 1);
      ChildAt(i - 1);
      assert child == children[i] && child in repr && child.cow == cow;
      RotateRightAt(i - 1, from, child);
    }

    method StealRightOf(i: nat)
      requires cow != null && Writable(cow) && i < |items| && |children| == |items| + 1
      requires tree.kids[i + 1].items != [] && |tree.kids[i + 1].kids| in {0, |tree.kids[i + 1].items| + 1}
      modifies Mine(cow)
      ensures cow == old(cow) && Writable(cow) && Drawn(cow) && height == old(height)
      ensures tree == StealRight(old(tree), i)
    {
      hide Parts, Below, Trees;
      var child := MutableChild(i);
      assert child !in cow.freeList.nodes;
      var from := MutableChild(i + 1);
      ChildAt(i + 1);
      assert child == children[i] && child in repr && child.cow == cow;
      RotateLeftAt(i, child, from);
    }

    method MergeRightOf(i: nat)
      requires cow != null && Writable(cow) && i < |items| && |children| == |items| + 1
      modifies Mine(cow)
      ensures cow == old(cow) && Writable(cow) && Drawn(cow) && height == old(height)
      ensures tree == MergeKids(old(tree), i)
    {
      hide Parts, Below, Trees;
      var child := MutableChild(i);
      assert child in repr && child.cow == cow;
      var gone := MergeAt(i, child);
      var freed := cow.FreeNode(gone);
    }

    /** growChildAndRemove, up to its call of remove. */
    method GrowChild(i: nat, d: Degree)
      requires cow != null && Writable(cow) && height > 0 && Fits(tree, height, 1, d) && i <= |items|
      modifies Mine(cow)
      ensures cow == old(cow) && Writable(cow) && Drawn(cow) && height == old(height)
      ensures tree == Grow(old(tree), i, d)
    {
      forall j | 0 <= j < |children|
        ensures Fits(tree.kids[j], height - 1, d - 1, d) && children[j] != null &&
                children[j].items == tree.kids[j].items
      {
        ChildAt(j);
      }
      if i > 0 && |children[i - 1].items| > d - 1 {
        StealLeftOf(i);
      } else if i < |items| && |children[i + 1].items| > d - 1 {
        StealRightOf(i);
      } else {
        MergeRightOf(if i >= |items| then i - 1 else i);
      }
    }

    method CallRemove(i: nat, typ: ToRemove, d: Degree, ghost t: Tree, ghost h: nat)
      returns (out: Option<Item>, ghost c: Tree)
      requires cow != null && Writable(cow) && i < |children| && children[i].Writable(cow) && height == h + 1
      requires t == tree.kids[i] && Removable(t, h, d)
      modifies children[i].Mine(cow)
      ensures CalledBack(i) && children[i].tree == c && (c, out) == BTreeNodes.Remove(t, h, typ, d)
      decreases height, 0, 0
    {
      hide Parts, Below, Trees, Removable, BTreeNodes.Remove;
      ChildAt(i);
      Around(children, i, height);
      ghost var l, r := children[..i], children[i + 1..];
      ghost var others, trees := Below(l) + Below(r), (Trees(l), Trees(r));
      out := children[i].Remove(typ, d);
      c := children[i].tree;
      Beside(i);
      Among(l, children[i], r, height);
      Replaced(trees.0, t, trees.1, c);
    }

    method RemoveInChild(i: nat, typ: ToRemove, d: Degree) returns (out: Option<Item>, ghost c: Tree)
      requires cow != null && Writable(cow) && height > 0 && i < |children| && children[i].Writable(cow)
      requires Removable(tree.kids[i], height - 1, d)
      modifies Mine(cow)
      ensures cow == old(cow) && Writable(cow) && Drawn(cow) && height == old(height)
      ensures tree == WithKid(old(tree), i, c) &&
              (c, out) == BTreeNodes.Remove(old(tree.kids[i]), old(height) - 1, typ, d)
      decreases height, 0, 1
    {
      hide Parts, Below, Trees, Removable, BTreeNodes.Remove;
      ChildAt(i);
      out, c := CallRemove(i, typ, d, tree.kids[i], height - 1);
      Close(height);
      ChildSettled(i);
    }

    method RemoveMutable(i: nat, typ: ToRemove, d: Degree) returns (out: Option<Item>, ghost c: Tree)
      requires cow != null && Writable(cow) && height > 0 && i < |children|
      requires Removable(tree.kids[i], height - 1, d)
      modifies Mine(cow)
      ensures cow == old(cow) && Writable(cow) && Drawn(cow) && height == old(height)
      ensures tree == WithKid(old(tree), i, c) &&
              (c, out) == BTreeNodes.Remove(old(tree.kids[i]), old(height) - 1, typ, d)
      decreases height, 0, 2
    {
      var child := MutableChild(i);
      out, c := RemoveInChild(i, typ, d);
    }

    /** The predecessor of an item found in an inner node takes its place. */
    method RemoveFound(i: nat, d: Degree) returns (out: Option<Item>, ghost c: Tree, ghost x: Item)
      requires cow != null && Writable(cow) && height > 0 && i < |items| && |children| == |items| + 1
      requires Removable(tree.kids[i], height - 1, d)
      modifies Mine(cow)
      ensures cow == old(cow) && Writable(cow) && Drawn(cow) && height == old(height)
      ensures tree == Tree(old(tree).items[i := x], old(tree).kids[i := c]) && out == Some(old(items[i]))
      ensures (c, Some(x)) == BTreeNodes.Remove(old(tree.kids[i]), old(height) - 1, RemoveMax, d)
      decreases height, 0, 3
    {
      out := Some(items[i]);
      var replacement;
      replacement, c := RemoveMutable(i, RemoveMax, d);
      x := replacement.value;
      SetItem(i, replacement.value);
    }

    method RemoveBelow(typ: ToRemove, d: Degree) returns (out: Option<Item>)
      requires cow != null && Writable(cow) && height > 0 && Fits(tree, height, 0, d) && Sorted(Flat(tree))
      requires !ChosenMinimal(tree, typ, d)
      modifies Mine(cow)
      ensures cow == old(cow) && Writable(cow) && Drawn(cow) && height == old(height)
      ensures (tree, out) == BTreeNodes.RemoveBelow(old(tree), height, typ, d)
      decreases height, 0, 4
    {
      RootSorted(tree);
      var i, found := Position(typ);
      KidRemovable(tree, height, i, d);
      ghost var c;
      if found {
        ghost var x;
        out, c, x := RemoveFound(i, d);
      } else {
        out, c := RemoveMutable(i, typ, d);
      }
    }

    method Position(typ: ToRemove) returns (i: nat, found: bool)
      requires Sorted(items)
      ensures (i, found) == Choose(items, typ)
    {
      match typ
      case RemoveItem(key) => i, found := FindBinary(items, key);
      case RemoveMin => i, found := 0, false;
      case RemoveMax => i, found := |items|, false;
    }

    method RemoveInLeaf(typ: ToRemove) returns (out: Option<Item>)
      requires cow != null && Writable(cow) && tree.kids == [] && Sorted(items) && (items == [] ==> typ.RemoveItem?)
      modifies this`items, this`repr, this`tree, this`height
      ensures Writable(cow) && height == old(height) && repr <= old(repr)
      ensures (tree.items, out) == RemoveFromLeaf(old(tree).items, typ) && tree.kids == []
    {
      hide Parts, Below, Trees;
      NoKids(height);
      assert children == [];
      match typ {
        case RemoveMax => out, items := Some(Last(items)), ButLast(items);
        case RemoveMin => out, items := Some(items[0]), RemoveAt(items, 0);
        case RemoveItem(key) =>
          var i, found := FindBinary(items, key);
          out := None;
          if found {
            out, items := Some(items[i]), RemoveAt(items, i);
          }
      }
      assert old(items) != [] ==> RemoveAt(old(items), 0) == old(items)[1..];
      Close(height);
    }

    method GrowChildAndRemove(i: nat, typ: ToRemove, d: Degree) returns (out: Option<Item>)
      requires cow != null && Writable(cow) && height > 0 && Removable(tree, height, d)
      requires i == Choose(tree.items, typ).0 && ChosenMinimal(tree, typ, d)
      modifies Mine(cow)
      ensures cow == old(cow) && Writable(cow) && Drawn(cow) && height == old(height)
      ensures (tree, out) == BTreeNodes.Remove(old(tree), height, typ, d)
      decreases height, 1, 0
    {
      GrowChosenOk(tree, height, typ, d);
      GrowChild(i, d);
      out := Remove(typ, d);
    }

    /** remove: a minimal child is grown before the removal goes into it. */
    method Remove(typ: ToRemove, d: Degree) returns (out: Option<Item>)
      requires cow != null && Writable(cow) && Removable(tree, height, d)
      modifies Mine(cow)
      ensures cow == old(cow) && Writable(cow) && Drawn(cow) && height == old(height)
      ensures (tree, out) == BTreeNodes.Remove(old(tree), height, typ, d)
      decreases height, if ChosenMinimal(tree, typ, d) then 1 else 0, 5
    {
      RootSorted(tree);
      if |children| == 0 {
        out := RemoveInLeaf(typ);
      } else {
        var i, found := Position(typ);
        ChildAt(i);
        if |children[i].items| <= d - 1 {
          out := GrowChildAndRemove(i, typ, d);
        } else {
          out := RemoveBelow(typ, d);
        }
      }
    }

    /** An empty node becomes the parent of two trees. */
    method Hang(item: Item, left: Node, right: Node)
      requires items == [] && children == [] && left.Valid() && right.Valid() && left.height == right.height
      requires left.repr !! right.repr && this !in left.repr + right.repr
      modifies this`items, this`children, this`repr, this`tree, this`height
      ensures Valid() && height == left.height + 1 && tree == Tree([item], [left.tree, right.tree])
      ensures repr == {this} + left.repr + right.repr
    {
      hide Parts, Below, Trees;
      NoKids(left.height + 1);
      AmongPair([], left, right, [], left.height + 1);
      assert [] + [left] + [right] + [] == [left, right];
      items, children := [item], [left, right];
      Close(left.height + 1);
    }

    /** get, which descends without writing. */
    method Get(key: Key) returns (out: Option<Item>)
      requires Valid() && Sorted(Flat(tree)) && exists lo, d :: Fits(tree, height, lo, d)
      ensures out == BTreeWhole.Get(tree, key)
      decreases height
    {
      RootSorted(tree);
      var i, found := FindBinary(items, key);
      if found {
        out := Some(items[i]);
      } else if |children| > 0 {
        ghost var lo, d :| Fits(tree, height, lo, d);
        ChildAt(i);
        KidReady(tree, height, i, d);
        out := children[i].Get(key);
      } else {
        out := None;
      }
    }

    // ----- iteration -----

    ghost predicate Regular()
      reads this, repr
    {
      Valid() && Sorted(Flat(tree)) && exists lo, d :: Fits(tree, height, lo, d)
    }

    lemma RegularItems()
      requires Regular()
      ensures Sorted(items) && items == tree.items && |children| == |tree.kids|
      ensures children == [] || |children| == |items| + 1
    {
      RootSorted(tree);
    }

    lemma RegularChild(i: nat)
      requires Regular() && i < |children|
      ensures var c := children[i];
              && |children| == |items| + 1 == |tree.kids| && |items| == |tree.items| && Sorted(items)
              && c != null && c.Regular() && c.height < height && c.tree == tree.kids[i]
    {
      var lo, d :| Fits(tree, height, lo, d);
      RootSorted(tree);
      ChildAt(i);
      KidReady(tree, height, i, d);
    }

    method ThroughChild(i: nat, q: Query, last: bool, more: More, w: Walk) returns (r: Walk)
      requires Regular() && i <= |items| && w.ok
      ensures r == if i >= |tree.kids| then w
                   else if q.up then Up(tree.kids[i], q, last, more, w)
                   else Down(tree.kids[i], q, last, more, w)
      decreases height, 0
    {
      hide Up, Down;
      RegularItems();
      r := w;
      if |children| > 0 {
        RegularChild(i);
        if q.up {
          r := children[i].IterateUp(q, last, more, w);
        } else {
          r := children[i].IterateDown(q, last, more, w);
        }
      }
    }

    /** iterate, ascending. */
    method IterateUp(q: Query, last: bool, more: More, w: Walk) returns (r: Walk)
      requires Regular() && q.up && w.ok
      ensures r == Up(tree, q, last, more, w)
      decreases height, 1
    {
      hide Flat, Sorted, Fits, Parts, Below, Trees, Visit;
      RegularItems();
      var i := 0;
      if q.start.Some? {
        var found;
        i, found := FindBinary(items, q.start.value);
      }
      r := w;
      while i < |items|
        invariant i <= |items| && r.ok && UpFrom(tree, i, q, last, more, r) == Up(tree, q, last, more, w)
      {
        hide Up, Regular;
        r := ThroughChild(i, q, last, more, r);
        if !r.ok {
          return;
        }
        r := Visit(q, more, r, items[i]);
        if !r.ok {
          return;
        }
        i := i + 1;
      }
      r := ThroughChild(i, q, last, more, r);
      if r.ok {
        r := r.(ok := last);
      }
    }

    /** iterate, descending; n counts the items still to come. */
    method IterateDown(q: Query, last: bool, more: More, w: Walk) returns (r: Walk)
      requires Regular() && !q.up && w.ok
      ensures r == Down(tree, q, last, more, w)
      decreases height, 1
    {
      hide Flat, Sorted, Fits, Parts, Below, Trees, Skips, Give;
      RegularItems();
      var n: nat := |items|;
      if q.start.Some? {
        var i, found := FindBinary(items, q.start.value);
        n := if found then i + 1 else i;
      }
      r := w;
      while n > 0
        invariant n <= |items| && r.ok && DownFrom(tree, n, q, last, more, r) == Down(tree, q, last, more, w)
      {
        hide Down, Regular;
        if !Skips(q, r.hit, items[n - 1]) {
          r := ThroughChild(n, q, last, more, r);
          if !r.ok {
            return;
          }
          r := Give(q, more, r, items[n - 1]);
          if !r.ok {
            return;
          }
        }
        n := n - 1;
      }
      r := ThroughChild(0, q, last, more, r);
      if r.ok {
        r := r.(ok := last);
      }
    }
  }
}
