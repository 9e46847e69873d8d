/** What the two lock models share: int32 arithmetic, and counting goroutines by their role. */
module Goroutines {

  /** Two's complement truncation to an int32. */
  function Int32(x: int): (r: int)
    ensures -0x8000_0000 <= r < 0x8000_0000
  {
    if -0x8000_0000 <= x < 0x8000_0000 then x else Wrap(x)
  }

  function Wrap(x: int): (r: int)
    ensures -0x8000_0000 <= r < 0x8000_0000
  {
    (x + 0x8000_0000) % 0x1_0000_0000 - 0x8000_0000
  }

  type Tid = nat

  function One(b: bool): nat { if b then 1 else 0 }

  /** The goroutines whose program counter gives them role r. */
  function InRole<P, R(==)>(procs: map<Tid, P>, roleOf: P -> R, r: R): set<Tid> {
    set t | t in procs && roleOf(procs[t]) == r
  }

  function Cnt<P, R(==)>(procs: map<Tid, P>, roleOf: P -> R, r: R): nat {
    |InRole(procs, roleOf, r)|
  }

  lemma {:induction false} SubsetSize(x: set<Tid>, y: set<Tid>)
    requires x <= y
    ensures |x| <= |y|
  {
    if x != {} {
      var e :| e in x;
      SubsetSize(x - {e}, y - {e});
    }
  }

  lemma CntSplit<P, R>(procs: map<Tid, P>, roleOf: P -> R, t: Tid, r: R)
    requires t in procs
    ensures Cnt(procs, roleOf, r) == Cnt(procs - {t}, roleOf, r) + One(roleOf(procs[t]) == r)
  {
    var rest := InRole(procs - {t}, roleOf, r);
    assert InRole(procs, roleOf, r) == if roleOf(procs[t]) == r then rest + {t} else rest;
  }

  /** Four roles together hold no more goroutines than there are. */
  lemma CntBound<P, R>(procs: map<Tid, P>, roleOf: P -> R, a: R, b: R, c: R, d: R)
    requires a != b && a != c && a != d && b != c && b != d && c != d
    ensures Cnt(procs, roleOf, a) + Cnt(procs, roleOf, b) + Cnt(procs, roleOf, c) + Cnt(procs, roleOf, d) <= |procs|
  {
    var x := InRole(procs, roleOf, a) + InRole(procs, roleOf, b);
    var y := InRole(procs, roleOf, c) + InRole(procs, roleOf, d);
    assert |x| == |InRole(procs, roleOf, a)| + |InRole(procs, roleOf, b)|;
    assert |y| == |InRole(procs, roleOf, c)| + |InRole(procs, roleOf, d)|;
    assert |x + y| == |x| + |y|;
    SubsetSize(x + y, procs.Keys);
  }

  lemma NoneIn<P, R>(procs: map<Tid, P>, roleOf: P -> R, r: R)
    requires forall t | t in procs :: roleOf(procs[t]) != r
    ensures Cnt(procs, roleOf, r) == 0
  {
    assert InRole(procs, roleOf, r) == {};
  }

  lemma SomeoneIn<P, R>(procs: map<Tid, P>, roleOf: P -> R, r: R) returns (t: Tid)
    requires Cnt(procs, roleOf, r) > 0
    ensures t in procs && roleOf(procs[t]) == r
  {
    t :| t in InRole(procs, roleOf, r);
  }

  lemma AloneIn<P, R>(procs: map<Tid, P>, roleOf: P -> R, t: Tid, u: Tid)
    requires t in procs && u in procs && roleOf(procs[t]) == roleOf(procs[u])
    requires Cnt(procs, roleOf, roleOf(procs[t])) <= 1
    ensures t == u
  {
    if t != u {
      SubsetSize({t, u}, InRole(procs, roleOf, roleOf(procs[t])));
    }
  }

  // ----- what goroutines have left to do, added up -----

  ghost function Sum<P>(procs: map<Tid, P>, weight: P -> nat): nat {
    if procs == map[] then 0
    else
      var t :| t in procs;
      weight(procs[t]) + Sum(procs - {t}, weight)
  }

  lemma {:induction false} SumSplit<P>(procs: map<Tid, P>, weight: P -> nat, t: Tid)
    requires t in procs
    ensures Sum(procs, weight) == weight(procs[t]) + Sum(procs - {t}, weight)
    decreases |procs|
  {
    var u :| u in procs && Sum(procs, weight) == weight(procs[u]) + Sum(procs - {u}, weight);
    if u != t {
      SumSplit(procs - {u}, weight, t);
      SumSplit(procs - {t}, weight, u);
      assert procs - {u} - {t} == procs - {t} - {u};
    }
  }

  lemma {:induction false} SumVaries<P>(procs: map<Tid, P>, weight: P -> nat, weight': P -> nat, more: nat)
    requires forall t | t in procs :: weight'(procs[t]) <= weight(procs[t]) + more
    ensures Sum(procs, weight') <= Sum(procs, weight) + |procs| * more
    decreases |procs|
  {
    if procs != map[] {
      var t :| t in procs;
      SumSplit(procs, weight, t);
      SumSplit(procs, weight', t);
      SumVaries(procs - {t}, weight, weight', more);
      OneMore(|procs| - 1, more);
    }
  }

  lemma {:induction false} SumBound<P>(procs: map<Tid, P>, weight: P -> nat, most: nat)
    requires forall t | t in procs :: weight(procs[t]) <= most
    ensures Sum(procs, weight) <= |procs| * most
    decreases |procs|
  {
    if procs != map[] {
      var t :| t in procs;
      SumSplit(procs, weight, t);
      SumBound(procs - {t}, weight, most);
      OneMore(|procs| - 1, most);
    }
  }

  lemma OneMore(n: nat, most: nat)
    ensures (n + 1) * most == n * most + most
  {}
}
