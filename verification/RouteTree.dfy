/** The radix tree of gin's routes, for paths without wildcards. Where the repository lacks insertChild,
    its static case is taken to set path, handlers and fullPath; the loop of incrementChildPrio is read
    as counting down. */
module RouteTree {

  datatype Option<T> = None | Some(value: T)

  type Handlers = nat

  datatype Tree = Tree(path: string, indices: string, priority: nat, kids: seq<Tree>,
                       handlers: Option<Handlers>, fullPath: string)

  function Min(a: int, b: int): int { if a <= b then a else b }

  method LongestCommonPrefix(a: string, b: string) returns (i: nat)
    ensures i == Common(a, b)
  {
    i := 0;
    var max := Min(|a|, |b|);
    while i < max && a[i] == b[i]
      invariant i <= max && a[..i] == b[..i]
    {
      i := i + 1;
    }
    CommonIs(a, b, i);
  }

  function Common(a: string, b: string): (i: nat)
    ensures i <= |a| && i <= |b| && a[..i] == b[..i]
    ensures i < |a| && i < |b| ==> a[i] != b[i]
  {
    if a == [] || b == [] || a[0] != b[0] then 0
    else
      var n := Common(a[1..], b[1..]);
      assert a[..n + 1] == [a[0]] + a[1..][..n] && b[..n + 1] == [b[0]] + b[1..][..n];
      n + 1
  }

  lemma {:induction false} CommonIs(a: string, b: string, i: nat)
    requires i <= |a| && i <= |b| && a[..i] == b[..i] && (i < |a| && i < |b| ==> a[i] != b[i])
    ensures Common(a, b) == i
  {
    var n := Common(a, b);
    assert forall k | 0 <= k < i :: a[..i][k] == b[..i][k] && a[..i][k] == a[k] && b[..i][k] == b[k];
    assert forall k | 0 <= k < n :: a[..n][k] == b[..n][k] && a[..n][k] == a[k] && b[..n][k] == b[k];
  }

  // ----- what a tree means -----

  /** Some node of the tree, reached by spelling its path, has these handlers. */
  ghost predicate Denotes(t: Tree, path: string, h: Handlers)
    decreases t
  {
    || (path == t.path && t.handlers == Some(h))
    || (t.path <= path && exists i | 0 <= i < |t.kids| :: Denotes(t.kids[i], path[|t.path|..], h))
  }

  /** Where a byte stands in a string, or its length. */
  function IndexOf(s: string, c: char): (i: nat)
    ensures i <= |s| && (i < |s| ==> s[i] == c) && forall j | 0 <= j < i :: s[j] != c
  {
    if s == [] || s[0] == c then 0 else 1 + IndexOf(s[1..], c)
  }

  /** The child the indices point to for a byte. */
  function Child(t: Tree, c: char): (r: Option<Tree>)
    ensures r.Some? ==> r.value in t.kids
  {
    var i := IndexOf(t.indices, c);
    if i < |t.indices| && i < |t.kids| then Some(t.kids[i]) else None
  }

  /** The same found by going down one child at each step. */
  function Lookup(t: Tree, path: string): Option<Handlers>
    decreases t
  {
    if path == t.path then t.handlers
    else if t.path < path && Child(t, path[|t.path|]).Some? then
      Lookup(Child(t, path[|t.path|]).value, path[|t.path|..])
    else None
  }

  predicate Ordered(kids: seq<Tree>) { forall i, j | 0 <= i < j < |kids| :: kids[i].priority >= kids[j].priority }

  predicate Distinct(s: string) { forall i, j | 0 <= i < j < |s| :: s[i] != s[j] }

  /** The indices are the distinct first bytes of the children, which stand in order of priority. */
  predicate Sound(t: Tree)
    decreases t
  {
    && |t.indices| == |t.kids| && Distinct(t.indices)
    && (forall i | 0 <= i < |t.kids| :: t.kids[i].path != "" && t.kids[i].path[0] == t.indices[i] && Sound(t.kids[i]))
    && Ordered(t.kids)
  }

  lemma {:induction false} DenotesNeedsPrefix(t: Tree, path: string, h: Handlers)
    requires Denotes(t, path, h)
    ensures t.path <= path
  {}

  lemma {:induction false} LookupIsDenotation(t: Tree, path: string, h: Handlers)
    requires Sound(t)
    ensures Denotes(t, path, h) <==> Lookup(t, path) == Some(h)
    decreases t
  {
    if t.path <= path {
      var rest := path[|t.path|..];
      forall i | 0 <= i < |t.kids|
        ensures Denotes(t.kids[i], rest, h) <==>
                rest != "" && IndexOf(t.indices, rest[0]) == i && Lookup(t.kids[i], rest) == Some(h)
      {
        LookupIsDenotation(t.kids[i], rest, h);
        if Denotes(t.kids[i], rest, h) {
          DenotesNeedsPrefix(t.kids[i], rest, h);
          assert t.kids[i].path[0] == t.indices[i];
        }
      }
      assert path == t.path <==> rest == "";
    }
  }

  // ----- incrementChildPrio -----

  /** Where the child at position k comes to stand. */
  function Place(kids: seq<Tree>, k: nat, priority: nat): (p: nat)
    requires k < |kids|
    ensures p <= k && (forall j | p <= j < k :: kids[j].priority < priority) &&
            (p > 0 ==> kids[p - 1].priority >= priority)
  {
    if k > 0 && kids[k - 1].priority < priority then Place(kids, k - 1, priority) else k
  }

  /** What stands at position j afterwards stood here. */
  function Source(j: nat, from: nat, to: nat): nat {
    if j == to then from else if to < j <= from then j - 1 else j
  }

  /** Element `from` moves to position `to`, before those that stand there. */
  function Moved<T>(s: seq<T>, from: nat, to: nat): (r: seq<T>)
    requires to <= from < |s|
    ensures |r| == |s|
    ensures forall j | 0 <= j < |s| :: r[j] == s[Source(j, from, to)]
  {
    s[..to] + [s[from]] + s[to..from] + s[from + 1..]
  }

  function Bump(t: Tree, k: nat): (r: (Tree, nat))
    requires |t.indices| == |t.kids| && k < |t.kids|
    ensures r.1 < |r.0.kids| == |r.0.indices| == |t.kids|
    ensures r.0.path == t.path && r.0.handlers == t.handlers && r.0.priority == t.priority
  {
    var priority := t.kids[k].priority + 1;
    var kids := t.kids[k := t.kids[k].(priority := priority)];
    var p := Place(kids, k, priority);
    (t.(kids := Moved(kids, k, p), indices := Moved(t.indices, k, p)), p)
  }

  lemma IndexIs(s: string, c: char, i: nat)
    requires Distinct(s) && i < |s| && s[i] == c
    ensures IndexOf(s, c) == i
  {}

  lemma MovedDistinct(s: string, from: nat, to: nat)
    requires Distinct(s) && to <= from < |s|
    ensures Distinct(Moved(s, from, to))
  {
    hide Moved;
  }

  lemma MovedOrdered(kids: seq<Tree>, k: nat, kid: Tree)
    requires Ordered(kids) && k < |kids| && kid.priority == kids[k].priority + 1
    ensures Ordered(Moved(kids[k := kid], k, Place(kids[k := kid], k, kid.priority)))
  {
    hide Moved, Place;
    var up := kids[k := kid];
    var p := Place(up, k, kid.priority);
    forall i, j | 0 <= i < j < |kids| ensures Moved(up, k, p)[i].priority >= Moved(up, k, p)[j].priority {
      var a, b := Source(i, k, p), Source(j, k, p);
      if j == p {
        assert kids[i].priority >= kids[p - 1].priority >= kid.priority;
      } else if i != p {
        assert a < b && a != k && b != k;
      }
    }
  }

  lemma SoundParts(t: Tree)
    requires Sound(t)
    ensures |t.indices| == |t.kids| && Distinct(t.indices)
  {}

  lemma PriorityFree(t: Tree, priority: nat)
    ensures Sound(t.(priority := priority)) == Sound(t)
  {}

  /** The children are found by their bytes as before; only the priority of one has changed. */
  lemma BumpKeepsChildren(t: Tree, k: nat, c: char)
    requires Sound(t) && k < |t.kids|
    ensures Child(Bump(t, k).0, c) ==
            if c == t.indices[k] then Some(t.kids[k].(priority := t.kids[k].priority + 1)) else Child(t, c)
  {
    hide Moved, Place, Sound;
    SoundParts(t);
    var (u, p) := Bump(t, k);
    MovedDistinct(t.indices, k, p);
    var i := IndexOf(t.indices, c);
    if i < |t.indices| {
      var j := if i == k then p else if p <= i < k then i + 1 else i;
      assert Source(j, k, p) == i;
      IndexIs(u.indices, c, j);
      if c == t.indices[k] {
        IndexIs(t.indices, c, k);
      }
    } else {
      assert forall j | 0 <= j < |u.indices| :: u.indices[j] == t.indices[Source(j, k, p)];
    }
  }

  ghost predicate Aligned(indices: string, kids: seq<Tree>) {
    |indices| == |kids| && forall i | 0 <= i < |kids| ::
      kids[i].path != "" && kids[i].path[0] == indices[i] && Sound(kids[i])
  }

  lemma SoundIs(t: Tree)
    ensures Sound(t) <==> Distinct(t.indices) && Aligned(t.indices, t.kids) && Ordered(t.kids)
  {}

  lemma MovedAligned(indices: string, kids: seq<Tree>, from: nat, to: nat)
    requires Aligned(indices, kids) && to <= from < |kids|
    ensures Aligned(Moved(indices, from, to), Moved(kids, from, to))
  {
    hide Moved, Sound;
    var r, s := Moved(kids, from, to), Moved(indices, from, to);
    forall i | 0 <= i < |r| ensures r[i].path != "" && r[i].path[0] == s[i] && Sound(r[i]) {
      assert r[i] == kids[Source(i, from, to)] && s[i] == indices[Source(i, from, to)];
    }
  }

  lemma KidSound(t: Tree, k: nat)
    requires Sound(t)
    ensures |t.indices| == |t.kids|
    ensures k < |t.kids| ==> Sound(t.kids[k]) && t.kids[k].path != "" && t.kids[k].path[0] == t.indices[k]
  {}

  lemma RaisedAligned(indices: string, kids: seq<Tree>, k: nat, kid: Tree)
    requires Aligned(indices, kids) && k < |kids| && kid.path == kids[k].path && Sound(kid)
    ensures Aligned(indices, kids[k := kid])
  {
    hide Sound;
  }

  lemma BumpSound(t: Tree, k: nat)
    requires Sound(t) && k < |t.kids|
    ensures Sound(Bump(t, k).0) && Bump(t, k).0.indices[Bump(t, k).1] == t.indices[k]
  {
    hide Moved, Place, Sound, Aligned, Ordered, Distinct;
    KidSound(t, k);
    SoundIs(t);
    var (u, p) := Bump(t, k);
    var kid := t.kids[k].(priority := t.kids[k].priority + 1);
    PriorityFree(t.kids[k], kid.priority);
    RaisedAligned(t.indices, t.kids, k, kid);
    MovedDistinct(t.indices, k, p);
    MovedOrdered(t.kids, k, kid);
    MovedAligned(t.indices, t.kids[k := kid], k, p);
    SoundIs(u);
  }

  // ----- addRoute -----

  /** The edge to a node is cut: what is left of its path keeps only the way to the rest. */
  function Cut(t: Tree, i: nat, fullPath: string): Tree
    requires i < |t.path|
  {
    Tree(t.path[..i], [t.path[i]], t.priority, [t.(path := t.path[i..])], None, fullPath)
  }

  lemma CutKeeps(t: Tree, i: nat, fullPath: string, q: string)
    requires Sound(t) && i < |t.path|
    ensures Sound(Cut(t, i, fullPath)) && Lookup(Cut(t, i, fullPath), q) == Lookup(t, q)
  {
    var rest := t.(path := t.path[i..]);
    assert Sound(rest);
    if t.path[..i] < q {
      var below := q[i..];
      assert q == t.path[..i] + below && t.path == t.path[..i] + t.path[i..];
      if below[0] == t.path[i] {
        assert q == t.path <==> below == rest.path;
        assert t.path <= q <==> rest.path <= below;
        assert t.path < q ==> q[|t.path|..] == below[|rest.path|..];
      }
    }
  }

  function Leaf(path: string, fullPath: string, h: Handlers): Tree {
    Tree(path, "", 0, [], Some(h), fullPath)
  }

  function WithLeaf(t: Tree, leaf: Tree): Tree
    requires leaf.path != ""
  {
    t.(indices := t.indices + [leaf.path[0]], kids := t.kids + [leaf])
  }

  lemma IndexAppend(s: string, c: char, x: char)
    ensures var i := IndexOf(s, c);
            IndexOf(s + [x], c) == if i < |s| then i else if x != c then |s| + 1 else |s|
  {
    if s == "" {
      assert s + [x] == [x] && [x][1..] == "";
    } else {
      assert (s + [x])[1..] == s[1..] + [x];
      IndexAppend(s[1..], c, x);
    }
  }

  lemma WithLeafSound(t: Tree, leaf: Tree)
    requires Sound(t) && leaf.path != "" && leaf.kids == [] && leaf.indices == "" && leaf.priority == 0
    requires IndexOf(t.indices, leaf.path[0]) == |t.indices|
    ensures Sound(WithLeaf(t, leaf))
  {
    assert Sound(leaf);
  }

  lemma WithLeafKeeps(t: Tree, leaf: Tree, q: string)
    requires Sound(t) && leaf.path != "" && leaf.kids == [] && leaf.indices == "" && leaf.priority == 0
    requires IndexOf(t.indices, leaf.path[0]) == |t.indices|
    ensures Sound(WithLeaf(t, leaf))
    ensures Lookup(WithLeaf(t, leaf), q) == if q == t.path + leaf.path then leaf.handlers else Lookup(t, q)
  {
    WithLeafSound(t, leaf);
    KidSound(t, 0);
    hide Sound;
    if t.path < q {
      var below := q[|t.path|..];
      assert q == t.path + below;
      IndexAppend(t.indices, below[0], leaf.path[0]);
    }
  }

  /** One for a root without a path of its own, from which the walk goes on with the same path. */
  function Idle(t: Tree, path: string): nat {
    if t.path == "" && path != "" && IndexOf(t.indices, path[0]) < |t.indices| then 1 else 0
  }

  /** The walk of addRoute from a node whose priority already counts the route. True stands for the
      panic about a path that has handlers. */
  function Insert(t: Tree, path: string, fullPath: string, at: nat, h: Handlers): (r: (Tree, bool))
    requires Sound(t) && at + |path| <= |fullPath|
    ensures r.0.priority == t.priority && r.0.path <= t.path
    ensures path != "" && t.path != "" && path[0] == t.path[0] ==> r.0.path != "" && r.0.path[0] == path[0]
    decreases |path|, Idle(t, path), 1
  {
    var i := Common(path, t.path);
    if i < |t.path| then
      CutKeeps(t, i, fullPath[..at + i], "");
      InsertBelow(Cut(t, i, fullPath[..at + i]), path, fullPath, at, h)
    else InsertBelow(t, path, fullPath, at, h)
  }

  /** The path runs through this node. */
  function InsertBelow(t: Tree, path: string, fullPath: string, at: nat, h: Handlers): (r: (Tree, bool))
    requires Sound(t) && at + |path| <= |fullPath| && t.path <= path
    ensures r.0.priority == t.priority && r.0.path == t.path
    decreases |path|, Idle(t, path), 0
  {
    if path == t.path then
      if t.handlers.Some? then (t, true) else (t.(handlers := Some(h), fullPath := fullPath), false)
    else
      var rest := path[|t.path|..];
      var k := IndexOf(t.indices, rest[0]);
      if k < |t.indices| then
        BumpSound(t, k);
        var (u, p) := Bump(t, k);
        var (kid, bad) := Insert(u.kids[p], rest, fullPath, at + |t.path|, h);
        (u.(kids := u.kids[p := kid]), bad)
      else
        (Bump(WithLeaf(t, Leaf(rest, fullPath, h)), |t.kids|).0, false)
  }

  /** The route is added, all others stay, and the tree stays sound; a path that has handlers keeps them. */
  ghost predicate Adds(t: Tree, path: string, h: Handlers, r: (Tree, bool)) {
    && Sound(r.0)
    && (r.1 <==> Lookup(t, path).Some?)
    && forall q :: Lookup(r.0, q) == if q == path && !r.1 then Some(h) else Lookup(t, q)
  }

  lemma LookupPriority(t: Tree, priority: nat, q: string)
    ensures Lookup(t.(priority := priority), q) == Lookup(t, q)
  {}

  lemma BumpKeepsRoutes(t: Tree, k: nat, q: string)
    requires Sound(t) && k < |t.kids|
    ensures Lookup(Bump(t, k).0, q) == Lookup(t, q)
  {
    hide Sound, Moved, Place;
    SoundIs(t);
    if t.path < q {
      var c := q[|t.path|];
      BumpKeepsChildren(t, k, c);
      if c == t.indices[k] {
        IndexIs(t.indices, c, k);
        LookupPriority(t.kids[k], t.kids[k].priority + 1, q[|t.path|..]);
      }
    }
  }

  lemma {:induction false} InsertAdds(t: Tree, path: string, fullPath: string, at: nat, h: Handlers)
    requires Sound(t) && at + |path| <= |fullPath|
    ensures Adds(t, path, h, Insert(t, path, fullPath, at, h))
    decreases |path|, Idle(t, path), 1
  {
    hide Sound, Lookup, InsertBelow;
    var i := Common(path, t.path);
    if i < |t.path| {
      var cut := Cut(t, i, fullPath[..at + i]);
      forall q ensures Lookup(cut, q) == Lookup(t, q) {
        CutKeeps(t, i, fullPath[..at + i], q);
      }
      CutKeeps(t, i, fullPath[..at + i], "");
      InsertBelowAdds(cut, path, fullPath, at, h);
    } else {
      InsertBelowAdds(t, path, fullPath, at, h);
    }
  }

  lemma ReplaceChild(t: Tree, p: nat, kid: Tree)
    requires Sound(t) && p < |t.kids| && Sound(kid) && kid.priority == t.kids[p].priority
    requires kid.path != "" && kid.path[0] == t.indices[p]
    ensures Sound(t.(kids := t.kids[p := kid]))
    ensures forall q :: Lookup(t.(kids := t.kids[p := kid]), q) ==
                        if t.path < q && q[|t.path|] == t.indices[p] then Lookup(kid, q[|t.path|..]) else Lookup(t, q)
  {
    var u := t.(kids := t.kids[p := kid]);
    IndexIs(t.indices, t.indices[p], p);
    forall q
      ensures Lookup(u, q) == if t.path < q && q[|t.path|] == t.indices[p] then Lookup(kid, q[|t.path|..])
                              else Lookup(t, q)
    {
      if t.path < q {
        assert IndexOf(t.indices, q[|t.path|]) == p <==> q[|t.path|] == t.indices[p];
      }
    }
  }

  lemma NotAbove(t: Tree, path: string)
    requires t.path < path && IndexOf(t.indices, path[|t.path|]) == |t.indices|
    ensures Lookup(t, path) == None
  {}

  lemma NewLeafAdds(t: Tree, path: string, rest: string, fullPath: string, h: Handlers)
    requires Sound(t) && t.path < path && rest == path[|t.path|..] && IndexOf(t.indices, rest[0]) == |t.indices|
    ensures Adds(t, path, h, (Bump(WithLeaf(t, Leaf(rest, fullPath, h)), |t.kids|).0, false))
  {
    hide Bump, Sound, Lookup;
    var leaf := Leaf(rest, fullPath, h);
    var g := WithLeaf(t, leaf);
    SoundIs(t);
    NotAbove(t, path);
    WithLeafKeeps(t, leaf, "");
    BumpSound(g, |t.kids|);
    assert path == t.path + rest;
    forall q ensures Lookup(Bump(g, |t.kids|).0, q) == if q == path then Some(h) else Lookup(t, q) {
      WithLeafKeeps(t, leaf, q);
      BumpKeepsRoutes(g, |t.kids|, q);
    }
  }

  lemma {:induction false} InsertBelowAdds(t: Tree, path: string, fullPath: string, at: nat, h: Handlers)
    requires Sound(t) && at + |path| <= |fullPath| && t.path <= path
    ensures Adds(t, path, h, InsertBelow(t, path, fullPath, at, h))
    decreases |path|, Idle(t, path), 0, 1
  {
    hide Bump, Insert;
    if path == t.path {
      forall q ensures Lookup(InsertBelow(t, path, fullPath, at, h).0, q) ==
                       if q == path && t.handlers == None then Some(h) else Lookup(t, q) {}
    } else {
      var rest := path[|t.path|..];
      var k := IndexOf(t.indices, rest[0]);
      if k < |t.indices| {
        InsertDeeperAdds(t, path, rest, k, fullPath, at, h);
      } else {
        NewLeafAdds(t, path, rest, fullPath, h);
      }
    }
  }

  lemma DeeperRoutes(t: Tree, k: nat, path: string, rest: string, r: Tree, kid: Tree, bad: bool, h: Handlers, q: string)
    requires Sound(t) && k < |t.kids| && t.path < path && rest == path[|t.path|..] && rest[0] == t.indices[k]
    requires var (u, p) := Bump(t, k);
             && Sound(u) && u.indices[p] == t.indices[k] && (bad <==> Lookup(u.kids[p], rest).Some?)
             && (forall q :: Lookup(kid, q) == if q == rest && !bad then Some(h) else Lookup(u.kids[p], q))
             && (forall q :: Lookup(r, q) ==
                   if t.path < q && q[|t.path|] == u.indices[p] then Lookup(kid, q[|t.path|..]) else Lookup(u, q))
    ensures bad <==> Lookup(t, path).Some?
    ensures Lookup(r, q) == if q == path && !bad then Some(h) else Lookup(t, q)
  {
    hide Bump, Sound;
    KidSound(t, k);
    var (u, p) := Bump(t, k);
    SoundIs(u);
    IndexIs(u.indices, rest[0], p);
    BumpKeepsRoutes(t, k, path);
    BumpKeepsRoutes(t, k, q);
    assert path == t.path + rest;
    if t.path < q {
      assert q == t.path + q[|t.path|..];
    }
  }

  lemma {:induction false} InsertDeeperAdds(t: Tree, path: string, rest: string, k: nat, fullPath: string,
                                            at: nat, h: Handlers)
    requires Sound(t) && at + |path| <= |fullPath| && t.path < path && rest == path[|t.path|..]
    requires k == IndexOf(t.indices, rest[0]) < |t.indices|
    ensures Adds(t, path, h, InsertBelow(t, path, fullPath, at, h))
    decreases |path|, Idle(t, path), 0, 0
  {
    hide Sound, Bump, Insert, Lookup;
    KidSound(t, 0);
    BumpSound(t, k);
    var (u, p) := Bump(t, k);
    SoundIs(u);
    var (kid, bad) := Insert(u.kids[p], rest, fullPath, at + |t.path|, h);
    InsertAdds(u.kids[p], rest, fullPath, at + |t.path|, h);
    ReplaceChild(u, p, kid);
    var r := u.(kids := u.kids[p := kid]);
    forall q ensures Lookup(r, q) == if q == path && !bad then Some(h) else Lookup(t, q) {
      DeeperRoutes(t, k, path, rest, r, kid, bad, h, q);
    }
    DeeperRoutes(t, k, path, rest, r, kid, bad, h, path);
  }

  // ----- whole trees -----

  /** What a method's tree starts from. */
  const NEW_ROOT := Tree("", "", 0, [], None, "/")

  /** A root without a path has no handlers: registered paths are not empty. */
  predicate RootOk(t: Tree) { Sound(t) && (t.path == "" ==> t.handlers == None) }

  function AddRoute(root: Tree, path: string, h: Handlers): (Tree, bool)
    requires Sound(root)
  {
    var t := root.(priority := root.priority + 1);
    if t.path == "" && t.kids == [] then (t.(path := path, handlers := Some(h), fullPath := path), false)
    else
      PriorityFree(root, t.priority);
      Insert(t, path, path, 0, h)
  }

  lemma InsertKeepsRoot(t: Tree, path: string, fullPath: string, at: nat, h: Handlers)
    requires RootOk(t) && at + |path| <= |fullPath| && path != ""
    ensures Insert(t, path, fullPath, at, h).0.path == "" ==> Insert(t, path, fullPath, at, h).0.handlers == None
  {
    hide Moved, Place, Sound;
  }

  lemma FirstRouteAdds(t: Tree, path: string, h: Handlers)
    requires RootOk(t) && t.path == "" && t.kids == [] && path != ""
    ensures Adds(t, path, h, (t.(path := path, handlers := Some(h), fullPath := path), false))
  {
    forall q ensures Lookup(t, q) == None {}
  }

  lemma AddRouteAdds(root: Tree, path: string, h: Handlers)
    requires RootOk(root) && path != ""
    ensures Adds(root, path, h, AddRoute(root, path, h)) && RootOk(AddRoute(root, path, h).0)
  {
    hide Lookup, Insert;
    var t := root.(priority := root.priority + 1);
    PriorityFree(root, t.priority);
    forall q ensures Lookup(t, q) == Lookup(root, q) {
      LookupPriority(root, t.priority, q);
    }
    if t.path == "" && t.kids == [] {
      FirstRouteAdds(t, path, h);
    } else {
      InsertAdds(t, path, path, 0, h);
      InsertKeepsRoot(t, path, path, 0, h);
    }
  }

  /** The tree after registering routes one after the other, whatever panics are recovered from. */
  function Register(routes: seq<(string, Handlers)>): (t: Tree)
    requires forall r | r in routes :: r.0 != ""
    ensures RootOk(t)
  {
    if routes == [] then NEW_ROOT
    else
      var before, (path, h) := Register(routes[..|routes| - 1]), routes[|routes| - 1];
      AddRouteAdds(before, path, h);
      AddRoute(before, path, h).0
  }

  /** The handlers first registered for a path. */
  function FirstFor(routes: seq<(string, Handlers)>, path: string): Option<Handlers> {
    if routes == [] then None
    else if routes[0].0 == path then Some(routes[0].1)
    else FirstFor(routes[1..], path)
  }

  lemma {:induction false} FirstForLast(routes: seq<(string, Handlers)>, last: (string, Handlers), path: string)
    ensures FirstFor(routes + [last], path) ==
            if FirstFor(routes, path) == None && last.0 == path then Some(last.1) else FirstFor(routes, path)
  {
    if routes == [] {
      assert routes + [last] == [last] && [last][1..] == [];
    } else {
      assert (routes + [last])[1..] == routes[1..] + [last];
      FirstForLast(routes[1..], last, path);
    }
  }

  /** However many routes are registered, in whatever order: a tree knows each path with the handlers first
      registered for it, and no other path. */
  lemma {:induction false} RegisterIsFirst(routes: seq<(string, Handlers)>, q: string)
    requires forall r | r in routes :: r.0 != ""
    ensures Sound(Register(routes)) && Lookup(Register(routes), q) == FirstFor(routes, q)
  {
    if routes != [] {
      var before, last := routes[..|routes| - 1], routes[|routes| - 1];
      RegisterIsFirst(before, q);
      RegisterIsFirst(before, last.0);
      AddRouteAdds(Register(before), last.0, last.1);
      FirstForLast(before, last, q);
      assert before + [last] == routes;
    }
  }

  // ----- full paths -----

  /** Every node knows the path that leads to it. */
  predicate Named(t: Tree, prefix: string)
    decreases t
  {
    t.fullPath == prefix + t.path && forall i | 0 <= i < |t.kids| :: Named(t.kids[i], prefix + t.path)
  }

  lemma BumpNamed(t: Tree, k: nat, prefix: string)
    requires |t.indices| == |t.kids| && k < |t.kids| && Named(t, prefix)
    ensures Named(Bump(t, k).0, prefix)
  {
    hide Moved, Place;
    var (u, p) := Bump(t, k);
    forall i | 0 <= i < |u.kids| ensures Named(u.kids[i], prefix + t.path) {
      var j := Source(i, k, p);
      assert Named(t.kids[j], prefix + t.path);
    }
  }

  lemma {:induction false} InsertNamed(t: Tree, path: string, fullPath: string, prefix: string, h: Handlers)
    requires Sound(t) && Named(t, prefix) && fullPath == prefix + path
    ensures Named(Insert(t, path, fullPath, |prefix|, h).0, prefix)
    decreases |path|, Idle(t, path), 1
  {
    var i := Common(path, t.path);
    if i < |t.path| {
      var name := fullPath[..|prefix| + i];
      var cut := Cut(t, i, name);
      CutKeeps(t, i, name, "");
      assert name == prefix + t.path[..i] && prefix + t.path[..i] + t.path[i..] == prefix + t.path;
      assert Named(cut.kids[0], prefix + cut.path);
      InsertBelowNamed(cut, path, fullPath, prefix, h);
    } else {
      InsertBelowNamed(t, path, fullPath, prefix, h);
    }
  }

  lemma {:induction false} InsertBelowNamed(t: Tree, path: string, fullPath: string, prefix: string, h: Handlers)
    requires Sound(t) && Named(t, prefix) && fullPath == prefix + path && t.path <= path
    ensures Named(InsertBelow(t, path, fullPath, |prefix|, h).0, prefix)
    decreases |path|, Idle(t, path), 0
  {
    hide Moved, Place;
    if path != t.path {
      var rest := path[|t.path|..];
      assert fullPath == prefix + t.path + rest;
      var k := IndexOf(t.indices, rest[0]);
      if k < |t.indices| {
        BumpSound(t, k);
        BumpNamed(t, k, prefix);
        var (u, p) := Bump(t, k);
        InsertNamed(u.kids[p], rest, fullPath, prefix + t.path, h);
      } else {
        BumpNamed(WithLeaf(t, Leaf(rest, fullPath, h)), |t.kids|, prefix);
      }
    }
  }

  lemma {:induction false} RegisterNames(routes: seq<(string, Handlers)>)
    requires routes != [] && forall r | r in routes :: r.0 != ""
    ensures Named(Register(routes), "")
  {
    var before, last := routes[..|routes| - 1], routes[|routes| - 1];
    if before != [] {
      RegisterNames(before);
      var t := Register(before).(priority := Register(before).priority + 1);
      PriorityFree(Register(before), t.priority);
      if !(t.path == "" && t.kids == []) {
        assert "" + last.0 == last.0;
        InsertNamed(t, last.0, last.0, "", last.1);
      }
    }
  }

  // ----- priorities -----

  /** How many paths have handlers at or below a node. */
  function Routes(t: Tree): nat
    decreases t
  {
    (if t.handlers.Some? then 1 else 0) + RoutesIn(t.kids)
  }

  function RoutesIn(kids: seq<Tree>): nat
    decreases kids
  {
    if kids == [] then 0 else Routes(kids[0]) + RoutesIn(kids[1..])
  }

  lemma {:induction false} RoutesTogether(a: seq<Tree>, b: seq<Tree>)
    ensures RoutesIn(a + b) == RoutesIn(a) + RoutesIn(b)
  {
    if a == [] {
      assert a + b == b;
    } else {
      assert (a + b)[1..] == a[1..] + b;
      RoutesTogether(a[1..], b);
    }
  }

  lemma RoutesOne(t: Tree)
    ensures RoutesIn([t]) == Routes(t)
  {
    assert [t][1..] == [];
  }

  lemma RoutesAround(kids: seq<Tree>, k: nat, kid: Tree)
    requires k < |kids|
    ensures RoutesIn(kids[k := kid]) == RoutesIn(kids[..k]) + Routes(kid) + RoutesIn(kids[k + 1..])
  {
    assert kids[k := kid] == kids[..k] + ([kid] + kids[k + 1..]);
    RoutesTogether(kids[..k], [kid] + kids[k + 1..]);
    RoutesTogether([kid], kids[k + 1..]);
    RoutesOne(kid);
  }

  lemma RoutesSet(kids: seq<Tree>, k: nat, kid: Tree)
    requires k < |kids|
    ensures RoutesIn(kids[k := kid]) - Routes(kid) == RoutesIn(kids) - Routes(kids[k])
  {
    RoutesAround(kids, k, kid);
    RoutesAround(kids, k, kids[k]);
    assert kids[k := kids[k]] == kids;
  }

  lemma MovedParts<T>(s: seq<T>, from: nat, to: nat)
    requires to <= from < |s|
    ensures var a, b, c, d := s[..to], s[to..from], [s[from]], s[from + 1..];
            s == a + (b + (c + d)) && Moved(s, from, to) == a + (c + (b + d))
  {}

  lemma RoutesMoved(kids: seq<Tree>, from: nat, to: nat)
    requires to <= from < |kids|
    ensures RoutesIn(Moved(kids, from, to)) == RoutesIn(kids)
  {
    hide RoutesIn, Moved;
    var a, b, c, d := kids[..to], kids[to..from], [kids[from]], kids[from + 1..];
    MovedParts(kids, from, to);
    RoutesTogether(a, b + (c + d));
    RoutesTogether(b, c + d);
    RoutesTogether(c, d);
    RoutesTogether(a, c + (b + d));
    RoutesTogether(c, b + d);
    RoutesTogether(b, d);
  }

  /** A priority is at least the number of routes at or below the node, and at most that of its parent. */
  ghost predicate Weighed(t: Tree)
    decreases t
  {
    Routes(t) <= t.priority && KidsWeighed(t.kids, t.priority)
  }

  ghost predicate KidsWeighed(kids: seq<Tree>, most: int)
    decreases kids
  {
    forall i | 0 <= i < |kids| :: kids[i].priority <= most && Weighed(kids[i])
  }

  /** incrementChildPrio raises the priority of that child by one, and changes no other child. */
  lemma BumpRaises(t: Tree, k: nat)
    requires |t.indices| == |t.kids| && k < |t.kids|
    ensures var (u, p) := Bump(t, k);
            && u.kids[p] == t.kids[k].(priority := t.kids[k].priority + 1) && u.indices[p] == t.indices[k]
            && u.kids[..p] + u.kids[p + 1..] == t.kids[..k] + t.kids[k + 1..]
            && u.indices[..p] + u.indices[p + 1..] == t.indices[..k] + t.indices[k + 1..]
  {
    hide Place;
    var (u, p) := Bump(t, k);
    var up := t.kids[k := t.kids[k].(priority := t.kids[k].priority + 1)];
    assert up[..k] == t.kids[..k] && up[k + 1..] == t.kids[k + 1..];
    assert u.kids == Moved(up, k, p);
    hide Bump;
    OthersStay(up, k, p);
    OthersStay(t.indices, k, p);
  }

  lemma OthersStay<T>(s: seq<T>, from: nat, to: nat)
    requires to <= from < |s|
    ensures var r := Moved(s, from, to);
            r[to] == s[from] && r[..to] + r[to + 1..] == s[..from] + s[from + 1..]
  {
    var r := Moved(s, from, to);
    assert r[..to] == s[..to] && r[to + 1..] == s[to..from] + s[from + 1..] && s[..from] == s[..to] + s[to..from];
  }

  lemma BumpWeighed(t: Tree, k: nat)
    requires |t.indices| == |t.kids| && k < |t.kids|
    requires KidsWeighed(t.kids, t.priority) && t.kids[k].priority < t.priority
    ensures KidsWeighed(Bump(t, k).0.kids, t.priority) && RoutesIn(Bump(t, k).0.kids) == RoutesIn(t.kids)
  {
    var (u, p) := Bump(t, k);
    var kid := t.kids[k].(priority := t.kids[k].priority + 1);
    RaisedWeighed(t.kids[k]);
    assert Routes(kid) == Routes(t.kids[k]);
    hide Moved, Place, Weighed, RoutesIn, Routes;
    RoutesSet(t.kids, k, kid);
    AllWeighed(t.kids[k := kid], u.kids, t.priority, k, p);
  }

  /** The child the rest of a path leads to does not count that path yet. */
  ghost predicate Room(t: Tree, path: string) {
    t.priority > 0 && KidsWeighed(t.kids, t.priority) &&
    (t.path < path ==>
       var k := IndexOf(t.indices, path[|t.path|]); k < |t.kids| ==> t.kids[k].priority < t.priority)
  }

  lemma {:induction false} InsertWeighed(t: Tree, path: string, fullPath: string, at: nat, h: Handlers)
    requires Sound(t) && at + |path| <= |fullPath| && KidsWeighed(t.kids, t.priority - 1) && t.priority > Routes(t)
    ensures var (r, bad) := Insert(t, path, fullPath, at, h);
            Weighed(r) && Routes(r) == Routes(t) + if bad then 0 else 1
    decreases |path|, Idle(t, path), 1
  {
    var i := Common(path, t.path);
    if i < |t.path| {
      var name := fullPath[..at + i];
      var u := Cut(t, i, name);
      CutKeeps(t, i, name, "");
      CutWeighed(t, i, name);
      assert IndexOf([t.path[i]], if i < |path| then path[i] else t.path[i]) == if i < |path| then 1 else 0;
      InsertBelowWeighed(u, path, fullPath, at, h);
    } else {
      InsertBelowWeighed(t, path, fullPath, at, h);
    }
  }

  lemma CutWeighed(t: Tree, i: nat, name: string)
    requires i < |t.path| && KidsWeighed(t.kids, t.priority - 1) && t.priority > Routes(t)
    ensures var u := Cut(t, i, name);
            Routes(u) == Routes(t) && KidsWeighed(u.kids, u.priority) && u.priority == t.priority
  {
    var rest := t.(path := t.path[i..]);
    RoutesOne(rest);
    assert Weighed(rest);
  }

  lemma {:induction false} InsertBelowWeighed(t: Tree, path: string, fullPath: string, at: nat, h: Handlers)
    requires Sound(t) && at + |path| <= |fullPath| && t.path <= path && Room(t, path) && t.priority > Routes(t)
    ensures var (r, bad) := InsertBelow(t, path, fullPath, at, h);
            Weighed(r) && Routes(r) == Routes(t) + if bad then 0 else 1
    decreases |path|, Idle(t, path), 0
  {
    hide Moved, Place, Sound, Weighed, Bump, Routes;
    if path != t.path {
      var rest := path[|t.path|..];
      var k := IndexOf(t.indices, rest[0]);
      KidSound(t, k);
      if k < |t.indices| {
        StepWeighed(t, path, fullPath, at, h, k);
      } else {
        LeafWeighed(t, Leaf(rest, fullPath, h));
      }
    } else {
      HandlersWeighed(t, h, fullPath);
    }
  }

  lemma HandlersWeighed(t: Tree, h: Handlers, fullPath: string)
    requires KidsWeighed(t.kids, t.priority) && t.priority > Routes(t)
    ensures Weighed(t)
    ensures t.handlers.None? ==>
              var u := t.(handlers := Some(h), fullPath := fullPath); Weighed(u) && Routes(u) == Routes(t) + 1
  {}

  lemma AllWeighed(kids: seq<Tree>, more: seq<Tree>, most: int, from: nat, to: nat)
    requires KidsWeighed(kids, most) && to <= from < |kids| && more == Moved(kids, from, to)
    ensures KidsWeighed(more, most) && RoutesIn(more) == RoutesIn(kids)
  {
    RoutesMoved(kids, from, to);
    hide Moved, RoutesIn, Weighed;
    forall i | 0 <= i < |more| ensures more[i].priority <= most && Weighed(more[i]) {
      assert more[i] == kids[Source(i, from, to)];
    }
  }

  lemma LeafPlaced(t: Tree, leaf: Tree)
    requires |t.indices| == |t.kids| && leaf.path != "" && leaf.priority == 0
    ensures var (r, p) := Bump(WithLeaf(t, leaf), |t.kids|);
            && r.kids == Moved(t.kids + [leaf.(priority := 1)], |t.kids|, p)
            && r.handlers == t.handlers && r.priority == t.priority
  {
    hide Moved, Place;
    var u := WithLeaf(t, leaf);
    assert u.kids[|t.kids| := leaf.(priority := 1)] == t.kids + [leaf.(priority := 1)];
  }

  lemma OneWeighed(leaf: Tree)
    requires leaf.kids == [] && leaf.handlers.Some? && leaf.priority == 1
    ensures Weighed(leaf) && Routes(leaf) == 1
  {}

  lemma AppendWeighed(kids: seq<Tree>, kid: Tree, most: int)
    requires KidsWeighed(kids, most) && kid.priority <= most && Weighed(kid)
    ensures KidsWeighed(kids + [kid], most)
  {}

  lemma RoutesHere(t: Tree)
    ensures Routes(t) == (if t.handlers.Some? then 1 else 0) + RoutesIn(t.kids)
  {}

  lemma LeafWeighed(t: Tree, leaf: Tree)
    requires |t.indices| == |t.kids| && KidsWeighed(t.kids, t.priority) && t.priority > Routes(t)
    requires leaf.path != "" && leaf.kids == [] && leaf.handlers.Some? && leaf.priority == 0
    ensures var r := Bump(WithLeaf(t, leaf), |t.kids|).0; Weighed(r) && Routes(r) == Routes(t) + 1
  {
    var one, k := leaf.(priority := 1), |t.kids|;
    var (r, p) := Bump(WithLeaf(t, leaf), k);
    hide Moved, Place, Weighed, KidsWeighed, RoutesIn, Routes, Bump;
    LeafPlaced(t, leaf);
    OneWeighed(one);
    AppendWeighed(t.kids, one, t.priority);
    RoutesHere(t);
    RoutesHere(r);
    RoutesTogether(t.kids, [one]);
    RoutesOne(one);
    AllWeighed(t.kids + [one], r.kids, t.priority, k, p);
    WeighedIs(r);
  }

  lemma WeighedIs(t: Tree)
    ensures Weighed(t) <==> Routes(t) <= t.priority && KidsWeighed(t.kids, t.priority)
  {}

  lemma SetWeighed(kids: seq<Tree>, k: nat, kid: Tree, most: int)
    requires k < |kids| && KidsWeighed(kids, most) && kid.priority <= most && Weighed(kid)
    ensures KidsWeighed(kids[k := kid], most)
  {}

  lemma StepIs(t: Tree, path: string, fullPath: string, at: nat, h: Handlers, k: nat)
    requires Sound(t) && at + |path| <= |fullPath| && t.path < path
    requires k == IndexOf(t.indices, path[|t.path|]) && k < |t.indices| == |t.kids|
    requires Sound(Bump(t, k).0.kids[Bump(t, k).1])
    ensures var (u, p) := Bump(t, k);
            var (kid, bad) := Insert(u.kids[p], path[|t.path|..], fullPath, at + |t.path|, h);
            InsertBelow(t, path, fullPath, at, h) == (u.(kids := u.kids[p := kid]), bad)
  {
    hide Moved, Place, Sound, Bump, Insert;
  }

  lemma {:induction false} StepWeighed(t: Tree, path: string, fullPath: string, at: nat, h: Handlers, k: nat)
    requires Sound(t) && at + |path| <= |fullPath| && t.path < path && Room(t, path) && t.priority > Routes(t)
    requires k == IndexOf(t.indices, path[|t.path|]) && k < |t.indices| == |t.kids|
    ensures var (r, bad) := InsertBelow(t, path, fullPath, at, h);
            Weighed(r) && Routes(r) == Routes(t) + if bad then 0 else 1
    decreases |path|, Idle(t, path), 0, 0
  {
    hide Moved, Place, Sound, Weighed, RoutesIn, Routes, InsertBelow, Insert;
    var rest := path[|t.path|..];
    var (u, p) := Bump(t, k);
    BumpSound(t, k);
    BumpRaises(t, k);
    BumpWeighed(t, k);
    KidSound(u, p);
    RaisedWeighed(t.kids[k]);
    InsertWeighed(u.kids[p], rest, fullPath, at + |t.path|, h);
    var (kid, bad) := Insert(u.kids[p], rest, fullPath, at + |t.path|, h);
    RoutesSet(u.kids, p, kid);
    SetWeighed(u.kids, p, kid, t.priority);
    var r := u.(kids := u.kids[p := kid]);
    StepIs(t, path, fullPath, at, h, k);
    RoutesHere(t);
    RoutesHere(r);
    WeighedIs(r);
  }

  lemma RaisedWeighed(kid: Tree)
    requires Weighed(kid)
    ensures var up := kid.(priority := kid.priority + 1);
            KidsWeighed(up.kids, up.priority - 1) && up.priority > Routes(up) && Weighed(up)
  {}

  /** Where a path leaves an edge: the lower part keeps everything, its raised priority included, and comes
      before the new leaf; a path that ends there gives its handlers to the upper part. */
  lemma InsertCuts(t: Tree, path: string, fullPath: string, at: nat, h: Handlers)
    requires Sound(t) && at + |path| <= |fullPath| && t.priority > 0 && Common(path, t.path) < |t.path|
    ensures var (r, bad) := Insert(t, path, fullPath, at, h);
            var i := Common(path, t.path);
            var lower := t.(path := t.path[i..]);
            if path == t.path[..i] then
              !bad && r == Tree(path, [t.path[i]], t.priority, [lower], Some(h), fullPath)
            else
              var leaf := Tree(path[i..], "", 1, [], Some(h), fullPath);
              !bad && r == Tree(t.path[..i], [t.path[i], path[i]], t.priority, [lower, leaf], None, fullPath[..at + i])
  {
    var i := Common(path, t.path);
    var name := fullPath[..at + i];
    var cut := Cut(t, i, name);
    CutKeeps(t, i, name, "");
    hide Sound;
    if path != t.path[..i] {
      assert IndexOf(cut.indices, path[i]) == 1;
      LeafStays(cut, Leaf(path[i..], fullPath, h));
    }
  }

  lemma LeafStays(t: Tree, leaf: Tree)
    requires |t.indices| == |t.kids| == 1 && t.kids[0].priority > 0 && leaf.path != "" && leaf.priority == 0
    ensures Bump(WithLeaf(t, leaf), 1).0 ==
            t.(indices := t.indices + [leaf.path[0]], kids := t.kids + [leaf.(priority := 1)])
  {
    var u := WithLeaf(t, leaf);
    var up := u.kids[1 := leaf.(priority := 1)];
    assert Place(up, 1, 1) == 1;
    assert up == t.kids + [leaf.(priority := 1)];
    assert Moved(up, 1, 1) == up && Moved(u.indices, 1, 1) == u.indices;
  }

  /** However many routes are registered: the priority of a tree is the number of registrations, and below it a
      priority is at least the number of routes at or below its node and at most that of its parent. */
  lemma {:induction false} RegisterWeighs(routes: seq<(string, Handlers)>)
    requires forall r | r in routes :: r.0 != ""
    ensures Weighed(Register(routes)) && Register(routes).priority == |routes|
  {
    if routes == [] {
    } else {
      var before, last := Register(routes[..|routes| - 1]), routes[|routes| - 1];
      var (path, h) := last;
      RegisterWeighs(routes[..|routes| - 1]);
      AddRouteAdds(before, path, h);
      var t := before.(priority := before.priority + 1);
      RaisedWeighed(before);
      PriorityFree(before, t.priority);
      if t.path == "" && t.kids == [] {
        assert Weighed(t.(path := path, handlers := Some(h), fullPath := path));
      } else {
        InsertWeighed(t, path, path, 0, h);
      }
    }
  }
}
