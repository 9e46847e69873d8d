/** The radix tree as nodes that are rewritten in place, proved against the trees of RouteTree. */
module RouteHeap {
  import opened RouteTree

  // ----- the children of a node, as a list of disjoint trees -----

  ghost function Below(kids: seq<Node>): set<Node>
    reads kids
  {
    if kids == [] then {} else kids[0].repr + Below(kids[1..])
  }

  ghost function Trees(kids: seq<Node>): (ts: seq<Tree>)
    reads kids
    ensures |ts| == |kids|
  {
    if kids == [] then [] else [kids[0].tree] + Trees(kids[1..])
  }

  ghost predicate Parts(kids: seq<Node>, rank: nat)
    reads kids, Below(kids)
    decreases rank, |kids|
  {
    kids == [] ||
    (kids[0].rank < rank && kids[0].Valid() && kids[0].repr !! Below(kids[1..]) && Parts(kids[1..], rank))
  }

  lemma {:induction false} Together(a: seq<Node>, b: seq<Node>)
    ensures Below(a + b) == Below(a) + Below(b) && Trees(a + b) == Trees(a) + Trees(b)
  {
    if a == [] {
      assert a + b == b;
    } else {
      assert (a + b)[1..] == a[1..] + b;
      Together(a[1..], b);
    }
  }

  /** Children can be cut in two, and two lists that share no node can be put together. */
  lemma {:induction false} CutPut(a: seq<Node>, b: seq<Node>, rank: nat)
    ensures Parts(a + b, rank) <==> Parts(a, rank) && Parts(b, rank) && Below(a) !! Below(b)
    ensures Below(a + b) == Below(a) + Below(b) && Trees(a + b) == Trees(a) + Trees(b)
  {
    Together(a, b);
    if a == [] {
      assert a + b == b;
    } else {
      assert (a + b)[1..] == a[1..] + b;
      CutPut(a[1..], b, rank);
      Together(a[1..], b);
    }
  }

  lemma NoKids(rank: nat)
    ensures Parts([], rank) && Below([]) == {} && Trees([]) == []
  {}

  lemma One(c: Node, rank: nat)
    ensures Parts([c], rank) <==> c.rank < rank && c.Valid()
    ensures Below([c]) == c.repr && Trees([c]) == [c.tree]
  {
    assert [c][1..] == [];
  }

  lemma {:induction false} Inside(kids: seq<Node>, rank: nat)
    requires Parts(kids, rank)
    ensures forall k | 0 <= k < |kids| :: kids[k] in Below(kids)
  {
    if kids != [] {
      Inside(kids[1..], rank);
    }
  }

  lemma {:induction false} Raise(kids: seq<Node>, rank: nat, more: nat)
    requires Parts(kids, rank) && rank <= more
    ensures Parts(kids, more)
  {
    if kids != [] {
      Raise(kids[1..], rank, more);
    }
  }

  /** A child between those left and right of it. */
  lemma Among(l: seq<Node>, c: Node, r: seq<Node>, rank: nat)
    ensures Parts(l + [c] + r, rank) <==>
              && Parts(l, rank) && Parts(r, rank) && c.rank < rank && c.Valid()
              && Below(l) !! c.repr && Below(r) !! c.repr && Below(l) !! Below(r)
    ensures Below(l + [c] + r) == Below(l) + c.repr + Below(r)
    ensures Trees(l + [c] + r) == Trees(l) + [c.tree] + Trees(r)
  {
    One(c, rank);
    CutPut(l, [c], rank);
    CutPut(l + [c], r, rank);
  }

  lemma Around(kids: seq<Node>, i: nat, rank: nat)
    requires Parts(kids, rank) && i < |kids|
    ensures var l, c, r := kids[..i], kids[i], kids[i + 1..];
            && kids == l + [c] + r && c.Valid() && c.rank < rank && Parts(l, rank) && Parts(r, rank)
            && Below(l) !! c.repr && Below(r) !! c.repr && Below(l) !! Below(r)
            && Below(kids) == Below(l) + c.repr + Below(r) && Trees(kids) == Trees(l) + [c.tree] + Trees(r)
            && (forall k | 0 <= k < |l| :: l[k] in Below(l)) && (forall k | 0 <= k < |r| :: r[k] in Below(r))
  {
    hide Below, Trees;
    var l, c, r := kids[..i], kids[i], kids[i + 1..];
    assert kids == l + [c] + r;
    Among(l, c, r, rank);
    Inside(l, rank);
    Inside(r, rank);
  }

  /** Children may be moved about. */
  lemma PartsMoved(kids: seq<Node>, from: nat, to: nat, rank: nat)
    requires Parts(kids, rank) && to <= from < |kids|
    ensures Parts(Moved(kids, from, to), rank) && Below(Moved(kids, from, to)) == Below(kids)
    ensures Trees(Moved(kids, from, to)) == Moved(Trees(kids), from, to)
  {
    hide Parts, Below, Trees;
    var a, b, c, d := kids[..to], kids[to..from], [kids[from]], kids[from + 1..];
    assert kids == a + (b + (c + d)) && Moved(kids, from, to) == a + (c + (b + d));
    CutPut(a, b + (c + d), rank);
    CutPut(b, c + d, rank);
    CutPut(c, d, rank);
    CutPut(b, d, rank);
    CutPut(c, b + d, rank);
    CutPut(a, c + (b + d), rank);
    One(kids[from], rank);
  }

  class Node {
    var path: string
    var indices: string
    var priority: nat
    var children: seq<Node>
    var handlers: Option<Handlers>
    var fullPath: string
    ghost var repr: set<Node>
    ghost var rank: nat
    ghost var tree: Tree

    ghost predicate Valid()
      reads this, repr
      decreases rank, |children| + 1
    {
      && (forall k | 0 <= k < |children| :: children[k] in repr && children[k] != this)
      && repr == {this} + Below(children) && this !in Below(children)
      && tree == Tree(path, indices, priority, Trees(children), handlers, fullPath)
      && Parts(children, rank)
    }

    constructor (path: string, indices: string, priority: nat, children: seq<Node>, handlers: Option<Handlers>,
                 fullPath: string)
      ensures this.path == path && this.indices == indices && this.priority == priority && this.children == children
      ensures this.handlers == handlers && this.fullPath == fullPath
    {
      this.path, this.indices, this.priority, this.children := path, indices, priority, children;
      this.handlers, this.fullPath := handlers, fullPath;
    }

    static method NewRoot() returns (n: Node)
      ensures n.Valid() && fresh(n.repr) && n.tree == NEW_ROOT
    {
      n := new Node("", "", 0, [], None, "/");
      NoKids(0);
      n.Close(0);
    }

    /** Recompute what the ghost fields say after an edit. */
    ghost method Close(r: nat)
      requires Parts(children, r) && this !in Below(children)
      modifies this`repr, this`rank, this`tree
      ensures Valid() && rank == r && repr == {this} + old(Below(children))
      ensures tree == Tree(path, indices, priority, old(Trees(children)), handlers, fullPath)
    {
      Inside(children, r);
      tree := Tree(path, indices, priority, Trees(children), handlers, fullPath);
      rank, repr := r, {this} + Below(children);
    }

    method Raised()
      requires Valid()
      modifies this`priority, this`tree
      ensures Valid() && tree == old(tree).(priority := old(tree).priority + 1)
    {
      priority := priority + 1;
      tree := tree.(priority := priority);
    }

    /** The swaps of incrementChildPrio: the child at pos moves up before those of lower priority. */
    method SwapUp(pos: nat) returns (newPos: nat)
      requires pos < |children| && forall c | c in children :: c != this
      modifies this`children
      ensures newPos <= pos && children == Moved(old(children), pos, newPos)
      ensures forall j | newPos <= j < pos :: old(children)[j].priority < old(children)[pos].priority
      ensures newPos > 0 ==> old(children)[newPos - 1].priority >= old(children)[pos].priority
    {
      newPos := pos;
      var prio := children[pos].priority;
      while newPos > 0 && children[newPos - 1].priority < prio
        invariant newPos <= pos && children == Moved(old(children), pos, newPos)
        invariant forall j | newPos <= j < pos :: old(children)[j].priority < prio
      {
        children := children[newPos - 1 := children[newPos]][newPos := children[newPos - 1]];
        newPos := newPos - 1;
      }
    }

    method BubbleUp(pos: nat) returns (newPos: nat)
      requires Valid() && pos < |children|
      modifies this`children, this`repr, this`rank, this`tree
      ensures Valid() && repr == old(repr) && rank == old(rank) && newPos <= pos
      ensures newPos == Place(old(tree).kids, pos, old(tree).kids[pos].priority)
      ensures children == Moved(old(children), pos, newPos)
      ensures tree == old(tree).(kids := Moved(old(tree).kids, pos, newPos))
    {
      hide Parts, Below, Trees, Moved, Place;
      ghost var kids, trees := children, tree.kids;
      forall j | 0 <= j < |kids| ensures kids[j].priority == trees[j].priority && kids[j] != this {
        KidAt(kids, j, rank);
      }
      newPos := SwapUp(pos);
      PlaceIs(trees, pos, trees[pos].priority, newPos);
      PartsMoved(kids, pos, newPos, rank);
      Close(rank);
    }

    method RaiseChild(pos: nat)
      requires Valid() && pos < |children|
      modifies repr
      ensures Valid() && repr == old(repr) && rank == old(rank) && children == old(children)
      ensures tree == old(tree).(kids :=
              old(tree).kids[pos := old(tree).kids[pos].(priority := old(tree).kids[pos].priority + 1)])
    {
      hide Parts, Below, Trees;
      Around(children, pos, rank);
      ghost var l, r := children[..pos], children[pos + 1..];
      children[pos].Raised();
      Among(l, children[pos], r, rank);
      assert Trees(children) == tree.kids[pos := children[pos].tree];
      Close(rank);
    }

    method MoveIndex(pos: nat, newPos: nat)
      requires Valid() && newPos <= pos < |indices|
      modifies this`indices, this`repr, this`rank, this`tree
      ensures Valid() && repr == old(repr) && rank == old(rank)
      ensures tree == old(tree).(indices := Moved(old(indices), pos, newPos))
    {
      hide Parts, Below, Trees, Moved;
      MovedNowhere(indices, pos);
      MovedIs(indices, pos, newPos);
      if newPos != pos {
        indices := indices[..newPos] + indices[pos..pos + 1] + indices[newPos..pos] + indices[pos + 1..];
      }
      Close(rank);
    }

    /** incrementChildPrio: one more route below a child. */
    method IncrementChildPrio(pos: nat) returns (newPos: nat)
      requires Valid() && pos < |children| == |indices|
      modifies repr
      ensures Valid() && repr == old(repr) && rank == old(rank)
      ensures (tree, newPos) == Bump(old(tree), pos) && newPos < |children|
    {
      hide Parts, Below, Trees, Place, Moved;
      RaiseChild(pos);
      newPos := BubbleUp(pos);
      MoveIndex(pos, newPos);
    }

    /** insertChild for a path without wildcards. */
    method InsertChild(path: string, fullPath: string, h: Handlers)
      requires Valid()
      modifies this
      ensures Valid() && repr == old(repr) && rank == old(rank) &&
              tree == old(tree).(path := path, handlers := Some(h), fullPath := fullPath)
    {
      hide Parts, Below, Trees;
      this.path, handlers, this.fullPath := path, Some(h), fullPath;
      Close(rank);
    }

    /** The edge to this node is cut at byte i. */
    method CutEdge(i: nat, fullPath: string)
      requires Valid() && i < |path|
      modifies this
      ensures Valid() && tree == Cut(old(tree), i, fullPath) && fresh(repr - old(repr))
    {
      hide Parts, Below, Trees;
      var child := new Node(path[i..], indices, priority, children, handlers, this.fullPath);
      child.Close(rank);
      One(child, rank + 1);
      children := [child];
      indices := [path[i]];
      path := path[..i];
      handlers := None;
      this.fullPath := fullPath;
      Close(rank + 1);
    }

    /** The search of the walk through the indices. */
    method FindIndex(c: char) returns (i: nat)
      ensures i == IndexOf(indices, c)
    {
      i := 0;
      while i < |indices| && indices[i] != c
        invariant i <= |indices| && forall j | 0 <= j < i :: indices[j] != c
      {
        i := i + 1;
      }
      FirstIndex(indices, c, i);
    }

    static method NewLeaf(path: string, fullPath: string, h: Handlers) returns (leaf: Node)
      ensures leaf.Valid() && fresh(leaf.repr) && leaf.rank == 0 && leaf.tree == Leaf(path, fullPath, h)
    {
      leaf := new Node("", "", 0, [], None, fullPath);
      NoKids(0);
      leaf.Close(0);
      leaf.InsertChild(path, fullPath, h);
    }

    /** A child for the rest of the path. The source calls insertChild on it after the child has moved up;
        here it comes first, which makes no difference to the result. */
    method HangLeaf(rest: string, fullPath: string, h: Handlers)
      requires Valid() && |indices| == |children| && rest != ""
      modifies this
      ensures Valid() && tree == WithLeaf(old(tree), Leaf(rest, fullPath, h)) && fresh(repr - old(repr))
    {
      hide Parts, Below, Trees;
      var child := NewLeaf(rest, fullPath, h);
      Raise(children, rank, rank + 1);
      One(child, rank + 1);
      CutPut(children, [child], rank + 1);
      indices := indices + [rest[0]];
      children := children + [child];
      Close(rank + 1);
    }

    method AddLeaf(rest: string, fullPath: string, h: Handlers)
      requires Valid() && |indices| == |children| && rest != ""
      modifies repr
      ensures Valid() && tree == Bump(WithLeaf(old(tree), Leaf(rest, fullPath, h)), |old(tree).kids|).0 &&
              fresh(repr - old(repr))
    {
      hide Parts, Below, Trees, Bump;
      HangLeaf(rest, fullPath, h);
      var pos := IncrementChildPrio(|indices| - 1);
    }

    method SetHandlers(fullPath: string, h: Handlers)
      requires Valid()
      modifies this
      ensures Valid() && repr == old(repr) && tree == old(tree).(handlers := Some(h), fullPath := fullPath)
    {
      hide Parts, Below, Trees;
      handlers, this.fullPath := Some(h), fullPath;
      Close(rank);
    }

    /** The walk goes on at a child. */
    method WalkChild(p: nat, rest: string, fullPath: string, at: nat, h: Handlers) returns (panicked: bool)
      requires Valid() && p < |children| && Sound(tree.kids[p]) && at + |rest| <= |fullPath|
      requires tree.kids[p].path != "" && rest != ""
      modifies repr
      ensures Valid() && fresh(repr - old(repr))
      ensures var (kid, bad) := Insert(old(tree).kids[p], rest, fullPath, at, h);
              tree == old(tree).(kids := old(tree).kids[p := kid]) && panicked == bad
      decreases |rest|, 0, 2
    {
      hide Parts, Below, Trees, Insert, Sound;
      Around(children, p, rank);
      ghost var l, r, was := children[..p], children[p + 1..], tree.kids[p];
      ghost var others, trees := Below(l) + Below(r), (Trees(l), Trees(r));
      panicked := children[p].Walk(rest, fullPath, at, h);
      assert Below(l) + Below(r) == others && (Trees(l), Trees(r)) == trees && Parts(l, rank) && Parts(r, rank);
      ghost var more := rank + children[p].rank + 1;
      Raise(l, rank, more);
      Raise(r, rank, more);
      Among(l, children[p], r, more);
      assert Trees(children) == tree.kids[p := children[p].tree];
      Close(more);
    }

    /** The child counts the route before the walk goes on at it. */
    method WalkOn(k: nat, rest: string, fullPath: string, at: nat, h: Handlers) returns (panicked: bool)
      requires Valid() && Sound(tree) && k < |children| && at + |rest| <= |fullPath|
      requires rest != "" && tree.indices[k] == rest[0]
      modifies repr
      ensures Valid() && fresh(repr - old(repr))
      ensures var (u, p) := Bump(old(tree), k);
              && Sound(u) && u.indices[p] == rest[0]
              && var (kid, bad) := Insert(u.kids[p], rest, fullPath, at, h);
                 tree == u.(kids := u.kids[p := kid]) && panicked == bad
      decreases |rest|, 0, 3
    {
      hide Parts, Below, Trees, Insert, Bump, Sound;
      KidSound(tree, k);
      BumpSound(tree, k);
      var p := IncrementChildPrio(k);
      SoundIs(tree);
      panicked := WalkChild(p, rest, fullPath, at, h);
    }

    /** The walk of addRoute; true stands for the panic about a path that has handlers. */
    method Walk(path: string, fullPath: string, at: nat, h: Handlers) returns (panicked: bool)
      requires Valid() && Sound(tree) && at + |path| <= |fullPath|
      modifies repr
      ensures Valid() && fresh(repr - old(repr))
      ensures (tree, panicked) == Insert(old(tree), path, fullPath, at, h)
      decreases |path|, Idle(tree, path), 1
    {
      panicked := false;
      var i := LongestCommonPrefix(path, this.path);
      if i < |this.path| {
        CutKeeps(tree, i, fullPath[..at + i], "");
        CutEdge(i, fullPath[..at + i]);
      }
      panicked := WalkBelow(path, fullPath, at, h);
    }

    /** The path runs through this node. */
    method WalkBelow(path: string, fullPath: string, at: nat, h: Handlers) returns (panicked: bool)
      requires Valid() && Sound(tree) && at + |path| <= |fullPath| && this.path <= path
      modifies repr
      ensures Valid() && fresh(repr - old(repr))
      ensures (tree, panicked) == InsertBelow(old(tree), path, fullPath, at, h)
      decreases |path|, Idle(tree, path), 0
    {
      hide Parts, Below, Trees, Insert, Bump;
      panicked := false;
      if |this.path| < |path| {
        var rest := path[|this.path|..];
        var k := FindIndex(rest[0]);
        if k < |indices| {
          panicked := WalkOn(k, rest, fullPath, at + |this.path|, h);
        } else {
          AddLeaf(rest, fullPath, h);
        }
      } else if handlers.Some? {
        panicked := true;
      } else {
        SetHandlers(fullPath, h);
      }
    }

    /** addRoute on a root. */
    method AddRoute(path: string, h: Handlers) returns (panicked: bool)
      requires Valid() && RootOk(tree) && path != ""
      modifies repr
      ensures Valid() && fresh(repr - old(repr))
      ensures (tree, panicked) == RouteTree.AddRoute(old(tree), path, h)
      ensures RootOk(tree) && Adds(old(tree), path, h, (tree, panicked))
    {
      hide Parts, Below, Trees, Insert;
      AddRouteAdds(tree, path, h);
      Raised();
      if |this.path| == 0 && |children| == 0 {
        InsertChild(path, path, h);
        panicked := false;
      } else {
        PriorityFree(old(tree), tree.priority);
        panicked := Walk(path, path, 0, h);
      }
    }
  }

  lemma MovedIs(s: string, from: nat, to: nat)
    requires to <= from < |s|
    ensures s[..to] + s[from..from + 1] + s[to..from] + s[from + 1..] == Moved(s, from, to)
  {
    assert s[from..from + 1] == [s[from]];
  }

  lemma MovedNowhere(s: string, pos: nat)
    requires pos < |s|
    ensures Moved(s, pos, pos) == s
  {}

  lemma FirstIndex(s: string, c: char, i: nat)
    requires i <= |s| && (forall j | 0 <= j < i :: s[j] != c) && (i < |s| ==> s[i] == c)
    ensures IndexOf(s, c) == i
  {}

  lemma KidAt(kids: seq<Node>, i: nat, rank: nat)
    requires Parts(kids, rank) && i < |kids|
    ensures kids[i].Valid() && kids[i].tree == Trees(kids)[i] && kids[i].tree.priority == kids[i].priority
    ensures kids[i].repr <= Below(kids)
  {
    Around(kids, i, rank);
  }

  lemma PlaceIs(kids: seq<Tree>, k: nat, priority: nat, p: nat)
    requires p <= k < |kids| && (forall j | p <= j < k :: kids[j].priority < priority)
    requires p > 0 ==> kids[p - 1].priority >= priority
    ensures Place(kids, k, priority) == p
  {}
}
