/** Sorted runs of items: what the slices of one B-tree node hold, and what a whole tree lists.
    Item.Less is the order of the keys; items with equal keys may differ in their value. */
module BTreeItems {

  datatype Option<T> = None | Some(value: T)

  /** Every countable strict total order embeds in the reals. */
  type Key = real

  datatype Item = Item(key: Key, value: int) {
    predicate Less(than: Item) { key < than.key }
  }

  ghost predicate Sorted(s: seq<Item>) {
    forall i, j | 0 <= i < j < |s| :: s[i].key < s[j].key
  }

  /** The first index whose item is greater than the key. */
  function Upper(s: seq<Item>, key: Key): (i: nat)
    ensures i <= |s|
    ensures i < |s| ==> key < s[i].key
    ensures forall j | 0 <= j < i :: s[j].key <= key
  {
    if s == [] || key < s[0].key then 0 else 1 + Upper(s[1..], key)
  }

  /** items.find: where the key is, or where it would be inserted. */
  function Find(s: seq<Item>, key: Key): (r: (nat, bool))
    ensures r.0 <= |s| && (r.1 ==> r.0 < |s|)
  {
    var i := Upper(s, key);
    if i > 0 && !(s[i - 1].key < key) then (i - 1, true) else (i, false)
  }

  /** What Find promises on a sorted slice; it has only one answer. */
  ghost predicate IsPosition(s: seq<Item>, key: Key, i: int, found: bool) {
    && 0 <= i <= |s|
    && (found ==> i < |s| && s[i].key == key)
    && (forall j | 0 <= j < i :: s[j].key < key)
    && (forall j | i <= j < |s| && !(found && j == i) :: key < s[j].key)
  }

  lemma FindIsPosition(s: seq<Item>, key: Key)
    requires Sorted(s)
    ensures IsPosition(s, key, Find(s, key).0, Find(s, key).1)
  {}

  lemma PositionIsFind(s: seq<Item>, key: Key, i: int, found: bool)
    requires Sorted(s) && IsPosition(s, key, i, found)
    ensures Find(s, key) == (i, found)
  {
    FindIsPosition(s, key);
  }

  /** sort.Search narrows [low, high) down to the first index whose item is greater. */
  method FindBinary(s: seq<Item>, key: Key) returns (index: nat, found: bool)
    requires Sorted(s)
    ensures (index, found) == Find(s, key)
  {
    var low, high := 0, |s|;
    while low < high
      invariant 0 <= low <= high <= |s|
      invariant forall j | 0 <= j < low :: s[j].key <= key
      invariant forall j | high <= j < |s| :: key < s[j].key
    {
      var mid := (low + high) / 2;
      if key < s[mid].key {
        high := mid;
      } else {
        low := mid + 1;
      }
    }
    index, found := low, false;
    if low > 0 && !(s[low - 1].key < key) {
      index, found := low - 1, true;
    }
    PositionIsFind(s, key, index, found);
  }

  // ----- the map a sorted run stands for -----

  function Lookup(s: seq<Item>, key: Key): Option<Item> {
    var (i, found) := Find(s, key);
    if found then Some(s[i]) else None
  }

  function InsertAt<T>(s: seq<T>, i: nat, x: T): seq<T>
    requires i <= |s|
  {
    s[..i] + [x] + s[i..]
  }

  function RemoveAt<T>(s: seq<T>, i: nat): seq<T>
    requires i < |s|
  {
    s[..i] + s[i + 1..]
  }

  function Put(s: seq<Item>, x: Item): seq<Item> {
    var (i, found) := Find(s, x.key);
    if found then s[i := x] else InsertAt(s, i, x)
  }

  function Drop(s: seq<Item>, key: Key): seq<Item> {
    var (i, found) := Find(s, key);
    if found then RemoveAt(s, i) else s
  }

  function AsMap(s: seq<Item>): map<Key, Item> {
    if s == [] then map[] else AsMap(s[..|s| - 1])[s[|s| - 1].key := s[|s| - 1]]
  }

  function MapGet(m: map<Key, Item>, key: Key): Option<Item> {
    if key in m then Some(m[key]) else None
  }

  lemma {:induction false} AsMapLooksUp(s: seq<Item>, key: Key)
    requires Sorted(s)
    ensures MapGet(AsMap(s), key) == Lookup(s, key)
  {
    if s != [] {
      var n := |s| - 1;
      AsMapLooksUp(s[..n], key);
      FindIsPosition(s[..n], key);
      var (i, found) := Find(s[..n], key);
      if s[n].key == key {
        PositionIsFind(s, key, n, true);
      } else {
        PositionIsFind(s, key, if s[n].key < key then n + 1 else i, found);
      }
    }
  }

  lemma SameLookups(m: map<Key, Item>, m': map<Key, Item>)
    requires forall key :: MapGet(m, key) == MapGet(m', key)
    ensures m == m'
  {
    forall key ensures key in m <==> key in m' && (key in m ==> m[key] == m'[key]) {
      assert MapGet(m, key) == MapGet(m', key);
    }
  }

  lemma PutSorted(s: seq<Item>, x: Item)
    requires Sorted(s)
    ensures Sorted(Put(s, x))
  {
    FindIsPosition(s, x.key);
  }

  lemma InsertMoves(s: seq<Item>, i: nat, x: Item, key: Key, j: nat, there: bool)
    requires IsPosition(s, x.key, i, false) && IsPosition(s, key, j, there) && key != x.key
    ensures IsPosition(InsertAt(s, i, x), key, if key < x.key then j else j + 1, there)
  {
    var r := InsertAt(s, i, x);
    assert forall k | 0 <= k < |r| :: r[k] == if k < i then s[k] else if k == i then x else s[k - 1];
    assert j > i ==> s[i].key < key;
    assert i > j ==> s[j].key < x.key;
    assert i < |s| ==> x.key < s[i].key;
  }

  lemma SetMoves(s: seq<Item>, i: nat, x: Item, key: Key, j: nat, there: bool)
    requires IsPosition(s, x.key, i, true) && IsPosition(s, key, j, there) && key != x.key
    ensures IsPosition(s[i := x], key, j, there)
  {
    var r := s[i := x];
    assert forall k | 0 <= k < |r| :: r[k].key == s[k].key;
  }

  lemma PutMoves(s: seq<Item>, x: Item, key: Key)
    requires Sorted(s) && key != x.key
    ensures var (i, found), (j, there) := Find(s, x.key), Find(s, key);
            Find(Put(s, x), key) == (if found || key < x.key then j else j + 1, there)
  {
    hide IsPosition;
    PutSorted(s, x);
    FindIsPosition(s, x.key);
    FindIsPosition(s, key);
    var (i, found) := Find(s, x.key);
    var (j, there) := Find(s, key);
    if found {
      SetMoves(s, i, x, key, j, there);
      PositionIsFind(s[i := x], key, j, there);
    } else {
      InsertMoves(s, i, x, key, j, there);
      PositionIsFind(InsertAt(s, i, x), key, if key < x.key then j else j + 1, there);
    }
  }

  lemma PutLooksUp(s: seq<Item>, x: Item, key: Key)
    requires Sorted(s)
    ensures Lookup(Put(s, x), key) == if key == x.key then Some(x) else Lookup(s, key)
  {
    hide Upper;
    FindIsPosition(s, x.key);
    if key == x.key {
      PutSorted(s, x);
      PositionIsFind(Put(s, x), key, Find(s, key).0, true);
    } else {
      PutMoves(s, x, key);
      FindIsPosition(s, key);
    }
  }

  lemma DropSorted(s: seq<Item>, gone: Key)
    requires Sorted(s)
    ensures Sorted(Drop(s, gone))
  {}

  lemma DropLooksUp(s: seq<Item>, gone: Key, key: Key)
    requires Sorted(s)
    ensures Lookup(Drop(s, gone), key) == if key == gone then None else Lookup(s, key)
  {
    hide Upper;
    DropSorted(s, gone);
    FindIsPosition(s, gone);
    FindIsPosition(s, key);
    var (i, found) := Find(s, gone);
    var (j, there) := Find(s, key);
    var r := Drop(s, gone);
    if key == gone {
      PositionIsFind(r, key, i, false);
    } else {
      PositionIsFind(r, key, if found && key > gone then j - 1 else j, there);
    }
  }

  /** Put is map update. */
  lemma PutIsUpdate(s: seq<Item>, x: Item)
    requires Sorted(s)
    ensures Sorted(Put(s, x)) && AsMap(Put(s, x)) == AsMap(s)[x.key := x]
  {
    PutSorted(s, x);
    forall key ensures MapGet(AsMap(Put(s, x)), key) == MapGet(AsMap(s)[x.key := x], key) {
      PutLooksUp(s, x, key);
      AsMapLooksUp(s, key);
      AsMapLooksUp(Put(s, x), key);
    }
    SameLookups(AsMap(Put(s, x)), AsMap(s)[x.key := x]);
  }

  /** Drop is map removal. */
  lemma DropIsRemoval(s: seq<Item>, gone: Key)
    requires Sorted(s)
    ensures Sorted(Drop(s, gone)) && AsMap(Drop(s, gone)) == AsMap(s) - {gone}
  {
    DropSorted(s, gone);
    forall key ensures MapGet(AsMap(Drop(s, gone)), key) == MapGet(AsMap(s) - {gone}, key) {
      DropLooksUp(s, gone, key);
      AsMapLooksUp(s, key);
      AsMapLooksUp(Drop(s, gone), key);
    }
    SameLookups(AsMap(Drop(s, gone)), AsMap(s) - {gone});
  }

  // ----- looking into the middle of a sorted run -----

  /** The key belongs strictly between what stands before and after the middle. */
  ghost predicate Between(before: seq<Item>, key: Key, after: seq<Item>) {
    (forall j | 0 <= j < |before| :: before[j].key < key) && (forall j | 0 <= j < |after| :: key < after[j].key)
  }

  lemma SortedMiddle(before: seq<Item>, middle: seq<Item>, after: seq<Item>)
    requires Sorted(before + middle + after)
    ensures Sorted(middle)
  {
    var s := before + middle + after;
    forall i, j | 0 <= i < j < |middle| ensures middle[i].key < middle[j].key {
      assert s[|before| + i] == middle[i] && s[|before| + j] == middle[j];
    }
  }

  lemma FindInMiddle(before: seq<Item>, middle: seq<Item>, after: seq<Item>, key: Key)
    requires Sorted(before + middle + after) && Between(before, key, after)
    ensures Find(before + middle + after, key) == (|before| + Find(middle, key).0, Find(middle, key).1)
  {
    SortedMiddle(before, middle, after);
    FindIsPosition(middle, key);
    PositionIsFind(before + middle + after, key, |before| + Find(middle, key).0, Find(middle, key).1);
  }

  lemma EditMiddle<T>(before: seq<T>, middle: seq<T>, after: seq<T>, i: nat, x: T)
    requires i <= |middle|
    ensures InsertAt(before + middle + after, |before| + i, x) == before + InsertAt(middle, i, x) + after
    ensures i < |middle| ==> (before + middle + after)[|before| + i := x] == before + middle[i := x] + after
    ensures i < |middle| ==> RemoveAt(before + middle + after, |before| + i) == before + RemoveAt(middle, i) + after
  {
    var s, n := before + middle + after, |before| + i;
    assert s[..n] == before + middle[..i] && s[n..] == middle[i..] + after;
    if i < |middle| {
      assert s[n + 1..] == middle[i + 1..] + after;
    }
  }

  /** Looking up, putting and dropping a key touch only the middle it belongs to. */
  lemma InMiddle(before: seq<Item>, middle: seq<Item>, after: seq<Item>, x: Item)
    requires Sorted(before + middle + after) && Between(before, x.key, after)
    ensures Lookup(before + middle + after, x.key) == Lookup(middle, x.key)
    ensures Put(before + middle + after, x) == before + Put(middle, x) + after
    ensures Drop(before + middle + after, x.key) == before + Drop(middle, x.key) + after
  {
    hide Sorted, Find;
    FindInMiddle(before, middle, after, x.key);
    EditMiddle(before, middle, after, Find(middle, x.key).0, x);
  }
}
