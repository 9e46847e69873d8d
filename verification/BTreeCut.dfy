/** What becomes of a clone of a tree with inner nodes. mutableFor makes room for the children of a copy but does
    not copy them, so the first write to the clone leaves it with the items of its root, and nil below them. */
module BTreeCut {
  import opened BTreeItems
  import opened BTreeNodes
  import opened BTreeWhole

  // ----- as values -----

  /** What is left of the tree: one node over nil children, or two such nodes under a new root, or one of
      them under a root that has lost its last item. */
  datatype Stump =
    | Bare(items: seq<Item>)
    | Parted(left: seq<Item>, mid: Item, right: seq<Item>)
    | Fallen(items: seq<Item>)
  {
    function Items(): seq<Item> {
      match this
      case Bare(s) => s
      case Parted(l, m, r) => l + [m] + r
      case Fallen(s) => s
    }

    ghost predicate Ok(d: Degree) {
      && Sorted(Items())
      && match this
         case Bare(s) => 1 <= |s| <= 2 * d - 1
         case Parted(l, _, r) => |l| == |r| == d - 1
         case Fallen(s) => |s| == 2 * d - 1
    }
  }

  function Cleaved(items: seq<Item>, d: Degree): Stump
    requires |items| == 2 * d - 1
  {
    Parted(items[..d - 1], items[d - 1], items[d..])
  }

  /** Insertion first splits the root, or the only child of a root without items, when it is full. */
  ghost function Opened(b: Stump, d: Degree): Stump
    requires b.Ok(d)
  {
    match b
    case Bare(s) => if |s| >= 2 * d - 1 then Cleaved(s, d) else b
    case Parted(_, _, _) => b
    case Fallen(s) => Cleaved(s, d)
  }

  /** An item found in one node is replaced; going on to a child meets nil. */
  function Swapped(s: seq<Item>, x: Item): (seq<Item>, Outcome) {
    var (i, found) := Find(s, x.key);
    if found then (s[i := x], Returned(Some(s[i]))) else (s, Outcome.Panicked)
  }

  function SetOpened(b: Stump, x: Item): (Stump, Outcome) {
    match b
    case Bare(s) => var (s', out) := Swapped(s, x); (Bare(s'), out)
    case Fallen(s) => var (s', out) := Swapped(s, x); (Fallen(s'), out)
    case Parted(l, m, r) =>
      if x.Less(m) then var (s', out) := Swapped(l, x); (Parted(s', m, r), out)
      else if m.Less(x) then var (s', out) := Swapped(r, x); (Parted(l, m, s'), out)
      else (Parted(l, x, r), Returned(Some(m)))
  }

  ghost function SetStump(b: Stump, x: Item, d: Degree): (Stump, Outcome)
    requires b.Ok(d)
  {
    SetOpened(Opened(b, d), x)
  }

  /** Deletion merges two minimal nodes before it meets nil; from a root without items it returns nothing. */
  function DeleteStump(b: Stump): (Stump, Outcome) {
    match b
    case Bare(_) => (b, Outcome.Panicked)
    case Parted(l, m, r) => (Fallen(l + [m] + r), Outcome.Panicked)
    case Fallen(_) => (b, Returned(None))
  }

  lemma OpenedOk(b: Stump, d: Degree)
    requires b.Ok(d)
    ensures Opened(b, d).Ok(d) && Opened(b, d).Items() == b.Items() && !Opened(b, d).Fallen?
  {
    var s := b.Items();
    if |s| == 2 * d - 1 {
      assert s[..d - 1] + [s[d - 1]] + s[d..] == s;
    }
  }

  /** What insertion makes of the items: it panics exactly when the key is not among them, and else replaces. */
  ghost predicate Replaces(s: seq<Item>, x: Item, s': seq<Item>, out: Outcome) {
    match Lookup(s, x.key)
    case None => s' == s && out == Outcome.Panicked
    case Some(y) => s' == Put(s, x) && out == Returned(Some(y))
  }

  lemma OpenedTwice(b: Stump, d: Degree)
    requires b.Ok(d)
    ensures Opened(b, d).Ok(d) && Opened(Opened(b, d), d) == Opened(b, d)
  {
    OpenedOk(b, d);
  }

  lemma PartedSorted(b: Stump)
    requires b.Parted? && Sorted(b.Items())
    ensures Sorted(b.left) && Sorted(b.right)
  {
    assert b.Items() == [] + b.left + ([b.mid] + b.right) == (b.left + [b.mid]) + b.right + [];
    SortedMiddle([], b.left, [b.mid] + b.right);
    SortedMiddle(b.left + [b.mid], b.right, []);
  }

  lemma SwappedOk(s: seq<Item>, x: Item)
    requires Sorted(s)
    ensures var (s', out) := Swapped(s, x); Replaces(s, x, s', out)
  {}

  lemma MiddleReplaces(b: seq<Item>, m: seq<Item>, a: seq<Item>, x: Item)
    requires Sorted(b + m + a) && Between(b, x.key, a)
    ensures var (m', out) := Swapped(m, x); |m'| == |m| && Replaces(b + m + a, x, b + m' + a, out)
  {
    SortedMiddle(b, m, a);
    SwappedOk(m, x);
    InMiddle(b, m, a, x);
  }

  /** Of a cut tree only the items of the copied root are left, for good: inserting replaces one of them, and
      panics exactly when the key is not among them. */
  lemma SetStumpOk(b: Stump, x: Item, d: Degree)
    requires b.Ok(d)
    ensures var (b', out) := SetStump(b, x, d); b'.Ok(d) && Replaces(b.Items(), x, b'.Items(), out)
  {
    OpenedOk(b, d);
    PutSorted(b.Items(), x);
    var s := b.Items();
    match Opened(b, d)
    case Bare(s) =>
      assert [] + s + [] == s && [] + Swapped(s, x).0 + [] == Swapped(s, x).0;
      MiddleReplaces([], s, [], x);
    case Parted(l, m, r) =>
      PartedReplaces(l, m, r, x);
  }

  lemma AroundMiddle(l: seq<Item>, m: Item, r: seq<Item>)
    requires Sorted(l + [m] + r)
    ensures (forall j | 0 <= j < |l| :: l[j].key < m.key) && (forall j | 0 <= j < |r| :: m.key < r[j].key)
  {
    var s := l + [m] + r;
    assert s[|l|] == m && (forall j | 0 <= j < |l| :: s[j] == l[j]) &&
           forall j | 0 <= j < |r| :: s[|l| + 1 + j] == r[j];
  }

  lemma PartedReplaces(l: seq<Item>, m: Item, r: seq<Item>, x: Item)
    requires Sorted(l + [m] + r)
    ensures var (b', out) := SetOpened(Parted(l, m, r), x);
            b'.Parted? && |b'.left| == |l| && |b'.right| == |r| && Replaces(l + [m] + r, x, b'.Items(), out)
  {
    hide Replaces, Swapped, Sorted;
    AroundMiddle(l, m, r);
    var s := l + [m] + r;
    if x.Less(m) {
      var s' := Swapped(l, x).0;
      assert [] + l + ([m] + r) == s && [] + s' + ([m] + r) == s' + [m] + r;
      MiddleReplaces([], l, [m] + r, x);
    } else if m.Less(x) {
      var s' := Swapped(r, x).0;
      assert (l + [m]) + r + [] == s && (l + [m]) + s' + [] == l + [m] + s';
      MiddleReplaces(l + [m], r, [], x);
    } else {
      MiddleFound(l, m, r, x);
    }
  }

  lemma MiddleFound(l: seq<Item>, m: Item, r: seq<Item>, x: Item)
    requires Sorted(l + [m] + r) && x.key == m.key
    ensures Replaces(l + [m] + r, x, l + [x] + r, Returned(Some(m)))
  {
    var s := l + [m] + r;
    PositionIsFind(s, x.key, |l|, true);
    assert s[|l| := x] == l + [x] + r;
  }

  lemma DeleteStumpOk(b: Stump, d: Degree)
    requires b.Ok(d)
    ensures var (b', out) := DeleteStump(b);
            && b'.Ok(d) && b'.Items() == b.Items()
            && out == if b.Fallen? then Returned(None) else Outcome.Panicked
  {}

  // ----- a tree as its callers see it -----

  /** An intact tree, which may share its root with a clone, or a cut one. */
  datatype View = Intact(state: State, shared: bool) | Cut(stump: Stump, length: int) {
    ghost predicate Ok(d: Degree) {
      match this
      case Intact(s, _) => BTreeWhole.Ok(s, d)
      case Cut(b, _) => b.Ok(d)
    }

    ghost function Items(): seq<Item> {
      match this
      case Intact(s, _) => Listing(s)
      case Cut(b, _) => b.Items()
    }

    /** The next write copies an inner root. */
    predicate Endangered() {
      Intact? && shared && state.root.Some? && state.root.value.height > 0
    }
  }

  ghost function StepStump(b: Stump, length: int, call: Call, d: Degree): (View, Outcome)
    requires b.Ok(d)
  {
    var (b', out) := match call
                     case Set(x) => SetStump(b, x, d)
                     case Delete(_) => DeleteStump(b);
    (Cut(b', length), out)
  }

  ghost function StepView(v: View, call: Call, d: Degree): (View, Outcome)
    requires v.Ok(d)
  {
    match v
    case Cut(b, length) => StepStump(b, length, call, d)
    case Intact(s, _) =>
      if v.Endangered() then
        CopyOk(s, d);
        StepStump(Bare(s.root.value.tree.items), s.length, call, d)
      else
        match call
        case Set(x) => (Intact(ReplaceOrInsert(s, x, d).0, false), Returned(ReplaceOrInsert(s, x, d).1))
        case Delete(typ) => (Intact(DeleteItem(s, typ, d).0, false), DeleteItem(s, typ, d).1)
  }

  /** What a write to a tree that meets nil children finds. */
  ghost function Remaining(v: View): Stump
    requires v.Cut? || v.Endangered()
  {
    if v.Cut? then v.stump else Bare(v.state.root.value.tree.items)
  }

  lemma CopyOk(s: State, d: Degree)
    requires BTreeWhole.Ok(s, d) && s.root.Some? && s.root.value.height > 0
    ensures Bare(s.root.value.tree.items).Ok(d)
  {
    RootSorted(s.root.value.tree);
  }

  lemma StepViewOk(v: View, call: Call, d: Degree)
    requires v.Ok(d)
    ensures StepView(v, call, d).0.Ok(d)
  {
    if v.Cut? || v.Endangered() {
      var b := Remaining(v);
      if v.Intact? {
        CopyOk(v.state, d);
      }
      match call
      case Set(x) => SetStumpOk(b, x, d);
      case Delete(_) => DeleteStumpOk(b, d);
    } else {
      StepOk(v.state, call, d);
    }
  }

  ghost function ExecView(start: View, calls: seq<Call>, d: Degree): (v: View)
    requires start.Ok(d)
    ensures v.Ok(d)
  {
    if calls == [] then start
    else
      StepViewOk(ExecView(start, ButLast(calls), d), Last(calls), d);
      StepView(ExecView(start, ButLast(calls), d), Last(calls), d).0
  }

  /** A tree that is not in danger goes on as if it had never been cloned. */
  lemma {:induction false} IntactRuns(v: View, calls: seq<Call>, d: Degree)
    requires v.Ok(d) && v.Intact? && !v.Endangered()
    ensures var v' := ExecView(v, calls, d); v'.Intact? && !v'.Endangered() && v'.state == Exec(v.state, calls, d)
  {
    if calls != [] {
      IntactRuns(v, ButLast(calls), d);
    }
  }

  lemma InnerHoldsMore(t: Tree, h: nat, d: Degree)
    requires h > 0 && Fits(t, h, 1, d) && Sorted(Flat(t))
    ensures |Flat(t)| >= |t.items| + 2
  {
    assert Fits(t.kids[0], h - 1, d - 1, d) && Fits(t.kids[1], h - 1, d - 1, d);
    FlatAt(t, 0);
    FlatAtPair(t, 0);
    ItemsWoven(t.kids[1..], t.items[1..]);
    RootItemListed(t.kids[0], 0);
  }

  lemma {:induction false} ItemsWoven(kids: seq<Tree>, items: seq<Item>)
    requires |kids| == |items| + 1
    ensures |Weave(kids, items)| >= |items| + |Flat(kids[|items|])|
  {
    if items != [] {
      ItemsWoven(kids[1..], items[1..]);
    }
  }

  lemma ReplacesSize(s: seq<Item>, x: Item, s': seq<Item>, out: Outcome)
    requires Replaces(s, x, s', out)
    ensures |s'| == |s|
  {}

  lemma StepSize(s: State, call: Call, d: Degree)
    requires BTreeWhole.Ok(s, d)
    ensures |Listing(Step(s, call, d))| >= |Listing(s)| - 1
  {
    match call
    case Set(x) => ReplaceOrInsertOk(s, x, d);
    case Delete(typ) =>
      DeleteItemOk(s, typ, d);
      RemovedLength(Listing(s), typ);
  }

  /** The first write to a clone does what it should exactly when the clone has no inner nodes. */
  lemma FirstWriteExactly(v: View, call: Call, d: Degree)
    requires v.Ok(d) && v.Intact?
    ensures StepView(v, call, d).0.Items() == Listing(Step(v.state, call, d)) <==> !v.Endangered()
  {
    hide BTreeWhole.Ok, Sorted, Flat, SetStump, DeleteStump, ReplaceOrInsert, DeleteItem, Replaces;
    if v.Endangered() {
      var t, h := v.state.root.value.tree, v.state.root.value.height;
      CopyOk(v.state, d);
      InnerRoot(v.state, d);
      InnerHoldsMore(t, h, d);
      StepSize(v.state, call, d);
      match call {
        case Set(x) =>
          SetStumpOk(Bare(t.items), x, d);
          ReplacesSize(t.items, x, SetStump(Bare(t.items), x, d).0.Items(), SetStump(Bare(t.items), x, d).1);
        case Delete(typ) => DeleteStumpOk(Bare(t.items), d);
      }
    }
  }

  lemma InnerRoot(s: State, d: Degree)
    requires BTreeWhole.Ok(s, d) && s.root.Some? && s.root.value.height > 0
    ensures Fits(s.root.value.tree, s.root.value.height, 1, d) && Sorted(Flat(s.root.value.tree))
    ensures Listing(s) == Flat(s.root.value.tree)
  {}

  /** A cut tree never gains a key, and never loses one, whatever is called. */
  lemma {:induction false} CutKeepsKeys(v: View, calls: seq<Call>, key: Key, d: Degree)
    requires v.Ok(d) && v.Cut?
    ensures var v' := ExecView(v, calls, d);
            v'.Cut? && v'.length == v.length && (Lookup(v'.Items(), key).Some? <==> Lookup(v.Items(), key).Some?)
  {
    if calls != [] {
      CutKeepsKeys(v, ButLast(calls), key, d);
      var b := ExecView(v, ButLast(calls), d).stump;
      match Last(calls) {
        case Set(x) =>
          SetStumpOk(b, x, d);
          PutLooksUp(b.Items(), x, key);
        case Delete(_) => DeleteStumpOk(b, d);
      }
    }
  }
}
