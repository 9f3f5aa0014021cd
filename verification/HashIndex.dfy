// The open-addressing hash index: linear probing over three parallel arrays,
// deletion by re-inserting the rest of the cluster.

module HashIndex {
  type Key = k: int | 0 <= k < 0x1_0000_0000_0000_0000
  type Row = v: int | -0x8000_0000 <= v < 0x8000_0000

  datatype Option<+T> = None | Some(value: T)
  datatype Slot = Free | Entry(key: Key, row: Row)

  // ----- Positions: the mask arithmetic -------------------------------------

  /** Bitwise conjunction of two non-negative numbers. */
  function And(x: nat, y: nat): nat {
    if x == 0 || y == 0 then 0 else (x % 2) * (y % 2) + 2 * And(x / 2, y / 2)
  }

  predicate IsPow2(c: nat) {
    c > 0 && (c == 1 || (c % 2 == 0 && IsPow2(c / 2)))
  }

  lemma {:induction false} MaskIsRemainder(x: nat, c: nat)
    requires IsPow2(c)
    ensures And(x, c - 1) == x % c
    decreases c
  {
    if c == 1 {
    } else {
      MaskIsRemainder(x / 2, c / 2);
      assert (c - 1) % 2 == 1 && (c - 1) / 2 == c / 2 - 1;
      HalfRemainder(x, c / 2);
    }
  }

  lemma HalfRemainder(x: nat, h: nat)
    requires h > 0
    ensures x % (2 * h) == x % 2 + 2 * ((x / 2) % h)
  {
    var q, r := (x / 2) / h, (x / 2) % h;
    assert x / 2 == q * h + r;
    assert x == 2 * (x / 2) + x % 2;
    assert x == q * (2 * h) + (2 * r + x % 2) by {
      assert 2 * (q * h) == q * (2 * h);
    }
    RemainderIs(x, 2 * h, q, 2 * r + x % 2);
  }

  lemma AtLeastOnce(d: int, c: nat)
    requires d >= 1
    ensures d * c >= c
  {
    assert d * c == (d - 1) * c + c;
  }

  lemma RemainderIs(x: nat, c: nat, q: nat, r: nat)
    requires c > 0 && r < c && x == q * c + r
    ensures x % c == r
  {
    var q', r' := x / c, x % c;
    assert x == q' * c + r';
    if q > q' {
      assert (q - q') * c == q * c - q' * c;
      AtLeastOnce(q - q', c);
    } else if q < q' {
      assert (q' - q) * c == q' * c - q * c;
      AtLeastOnce(q' - q, c);
    }
  }

  // ----- Probe sequences over the slots ------------------------------------

  type Table = s: seq<Slot> | |s| > 0 witness [Free]

  function Home(k: Key, n: nat): nat
    requires n > 0
  {
    k % n
  }

  function Next(i: nat, n: nat): nat {
    if i + 1 == n then 0 else i + 1
  }

  /** How many probe steps lead from slot `a` to slot `b`. */
  function Dist(a: nat, b: nat, n: nat): int {
    if a <= b then b - a else b - a + n
  }

  predicate Stops(s: Table, k: Key, i: nat)
    requires i < |s|
  {
    s[i].Free? || s[i].key == k
  }

  /** Slot `j` is probed before slot `i` when looking for `k`. */
  predicate Before(s: Table, k: Key, j: nat, i: nat) {
    Dist(Home(k, |s|), j, |s|) < Dist(Home(k, |s|), i, |s|)
  }

  /** The probe for `k` ends at slot `p`. */
  ghost predicate EndsAt(s: Table, k: Key, p: nat) {
    p < |s| && Stops(s, k, p) && Passed(s, k, p)
  }

  /** The probe for `k` does not end before slot `p`. */
  ghost predicate Passed(s: Table, k: Key, p: nat) {
    p < |s| && forall j: nat | j < |s| && Before(s, k, j, p) :: !Stops(s, k, j)
  }

  ghost predicate Terminates(s: Table, k: Key) {
    exists i: nat :: i < |s| && Stops(s, k, i)
  }

  ghost predicate Distinct(s: seq<Slot>) {
    forall i: nat, j: nat | i < |s| && j < |s| && s[i].Entry? && s[j].Entry? && s[i].key == s[j].key :: i == j
  }

  /** Every slot from a key's home to its position is occupied. */
  ghost predicate Chained(s: Table) {
    forall i: nat, j: nat | i < |s| && j < |s| && s[i].Entry? && Before(s, s[i].key, j, i) :: s[j].Entry?
  }

  ghost predicate Well(s: Table) {
    Distinct(s) && Chained(s)
  }

  ghost function Keys(s: seq<Slot>): set<Key> {
    set i: nat | i < |s| && s[i].Entry? :: s[i].key
  }

  ghost function RowOf(s: seq<Slot>, k: Key): Row
    requires k in Keys(s)
  {
    var i: nat :| i < |s| && s[i].Entry? && s[i].key == k;
    s[i].row
  }

  /** The finite map that the table stands for. */
  ghost function Contents(s: seq<Slot>): map<Key, Row> {
    map k | k in Keys(s) :: RowOf(s, k)
  }

  lemma Holds(s: Table, i: nat)
    requires Distinct(s) && i < |s| && s[i].Entry?
    ensures s[i].key in Contents(s) && Contents(s)[s[i].key] == s[i].row
  {}

  /** A probe that ends decides membership and finds the row. */
  lemma ProbeDecides(s: Table, k: Key, p: nat)
    requires Well(s) && EndsAt(s, k, p)
    ensures k in Contents(s) <==> s[p].Entry?
    ensures s[p].Entry? ==> Contents(s)[k] == s[p].row
  {
    if s[p].Entry? {
      Holds(s, p);
    } else if k in Contents(s) {
      var i: nat :| i < |s| && s[i].Entry? && s[i].key == k && Stops(s, k, i);
    }
  }

  lemma Find(s: Table, k: Key) returns (i: nat)
    requires k in Contents(s)
    ensures i < |s| && s[i].Entry? && s[i].key == k && Contents(s)[k] == s[i].row
  {
    i :| i < |s| && s[i].Entry? && s[i].key == k && s[i].row == RowOf(s, k);
  }

  lemma PutDistinct(s: Table, p: nat, k: Key, v: Row)
    requires Distinct(s) && p < |s| && (s[p].Entry? ==> s[p].key == k)
    requires s[p].Free? ==> k !in Contents(s)
    ensures Distinct(s[p := Entry(k, v)])
  {
    assert forall i: nat | i < |s| && s[i].Entry? :: s[i].key in Keys(s);
  }

  lemma PutContents(s: Table, p: nat, k: Key, v: Row)
    requires Distinct(s) && p < |s| && (s[p].Entry? ==> s[p].key == k)
    requires s[p].Free? ==> k !in Contents(s)
    ensures Distinct(s[p := Entry(k, v)])
    ensures Contents(s[p := Entry(k, v)]) == Contents(s)[k := v]
  {
    PutDistinct(s, p, k, v);
    var s' := s[p := Entry(k, v)];
    Holds(s', p);
    hide Keys, RowOf, Contents, Distinct;
    forall x | x in Contents(s) && x != k ensures x in Contents(s') && Contents(s')[x] == Contents(s)[x] {
      var i := Find(s, x);
      assert s'[i] == s[i];
      Holds(s', i);
    }
    forall x | x in Contents(s') && x != k ensures x in Contents(s) {
      var i := Find(s', x);
      assert s'[i] == s[i];
      Holds(s, i);
    }
  }

  lemma FreeDistinct(s: Table, p: nat)
    requires Distinct(s) && p < |s|
    ensures Distinct(s[p := Free])
  {}

  lemma FreeKeeps(s: Table, p: nat, k: Key)
    requires Distinct(s) && p < |s| && s[p].Entry? && k in Contents(s) && k != s[p].key
    ensures k in Contents(s[p := Free]) && Contents(s[p := Free])[k] == Contents(s)[k]
  {
    FreeDistinct(s, p);
    var i := Find(s, k);
    hide Keys, RowOf, Contents, Distinct;
    assert s[p := Free][i] == s[i];
    Holds(s[p := Free], i);
  }

  lemma FreeAdds(s: Table, p: nat, k: Key)
    requires Distinct(s) && p < |s| && s[p].Entry? && k in Contents(s[p := Free])
    ensures k in Contents(s) && k != s[p].key
  {
    var i := Find(s[p := Free], k);
    assert s[p := Free][i] == s[i] && i != p;
    Holds(s, i);
  }

  lemma FreeContents(s: Table, p: nat)
    requires Distinct(s) && p < |s| && s[p].Entry?
    ensures Distinct(s[p := Free])
    ensures Contents(s[p := Free]) == Contents(s) - {s[p].key}
  {
    FreeDistinct(s, p);
    hide Keys, RowOf, Contents, Distinct;
    var was, now := Contents(s), Contents(s[p := Free]);
    forall k | k in was && k != s[p].key ensures k in now && now[k] == was[k] { FreeKeeps(s, p, k); }
    forall k | k in now ensures k in was && k != s[p].key { FreeAdds(s, p, k); }
  }

  lemma PutKeepsChains(s: Table, p: nat, k: Key, v: Row)
    requires Well(s) && EndsAt(s, k, p)
    ensures Well(s[p := Entry(k, v)])
    ensures Contents(s[p := Entry(k, v)]) == Contents(s)[k := v]
  {
    ProbeDecides(s, k, p);
    PutContents(s, p, k, v);
    var s' := s[p := Entry(k, v)];
    forall i: nat, j: nat | i < |s| && j < |s| && s'[i].Entry? && Before(s', s'[i].key, j, i) ensures s'[j].Entry? {
      if i == p {
        assert Before(s, k, j, p);
        assert !Stops(s, k, j);
      } else {
        assert Before(s, s[i].key, j, i);
      }
    }
  }

  // ----- Deletion: one hole, chased round the table --------------------------

  /** The deletion loop's invariant.  `q` is the one slot that probe chains may
      wrongly cross; the `gap` - 1 slots after it have been re-inserted since
      the hole came to `q`, and none of their chains crosses it. */
  ghost predicate Holed(s: Table, q: nat, gap: nat) {
    && q < |s| && s[q].Free? && 1 <= gap <= |s|
    && Distinct(s)
    && (forall i: nat, j: nat | i < |s| && j < |s| && s[i].Entry? && Before(s, s[i].key, j, i) && j != q :: s[j].Entry?)
    && (forall i: nat | i < |s| && 0 < Dist(q, i, |s|) < gap :: s[i].Entry? && !Before(s, s[i].key, q, i))
  }

  /** The slot `gap` steps after `q`. */
  function Ahead(q: nat, gap: nat, n: nat): nat
    requires q < n && gap <= n
  {
    if q + gap < n then q + gap else q + gap - n
  }

  lemma AheadNext(q: nat, gap: nat, n: nat)
    requires q < n && gap < n
    ensures Next(Ahead(q, gap, n), n) == Ahead(q, gap + 1, n)
    ensures Ahead(q, 0, n) == q
  {}

  lemma StartHole(s: Table, q: nat)
    requires Well(s) && q < |s| && s[q].Entry?
    ensures Holed(s[q := Free], q, 1)
    ensures Contents(s[q := Free]) == Contents(s) - {s[q].key}
  {
    FreeContents(s, q);
  }

  /** When the next slot is free, the whole table is in order again. */
  lemma CloseHole(s: Table, q: nat, gap: nat)
    requires Holed(s, q, gap) && s[Ahead(q, gap, |s|)].Free?
    ensures Well(s)
  {
    var e := Ahead(q, gap, |s|);
    forall i: nat | i < |s| && s[i].Entry? ensures !Before(s, s[i].key, q, i) {
      if e != q && Dist(q, i, |s|) >= gap {
        assert Before(s, s[i].key, q, i) ==> Before(s, s[i].key, e, i);
      }
    }
  }

  /** Re-inserting the entry at `p` puts it back, or moves it into the hole. */
  lemma Reinserted(s: Table, q: nat, gap: nat, p: nat, to: nat)
    requires Holed(s, q, gap) && p == Ahead(q, gap, |s|) && s[p].Entry?
    requires EndsAt(s[p := Free], s[p].key, to)
    ensures to == p || to == q
    ensures s[p := Free][to].Free?
  {
    var k := s[p].key;
    assert Stops(s[p := Free], k, p) && !Before(s[p := Free], k, p, to);
    if to != p && to != q {
      assert Before(s, k, to, p);
    }
  }

  lemma PutBack(s: Table, q: nat, gap: nat, p: nat)
    requires Holed(s, q, gap) && p == Ahead(q, gap, |s|) && s[p].Entry?
    requires EndsAt(s[p := Free], s[p].key, p)
    ensures gap < |s| && Holed(s, q, gap + 1)
  {
    assert !Before(s, s[p].key, q, p) by {
      assert Stops(s[p := Free], s[p].key, q);
    }
    assert Dist(q, p, |s|) == gap;
  }

  lemma MoveHole(s: Table, q: nat, gap: nat, p: nat, s': Table)
    requires Holed(s, q, gap) && p == Ahead(q, gap, |s|) && s[p].Entry?
    requires EndsAt(s[p := Free], s[p].key, q) && s' == s[p := Free][q := s[p]]
    ensures Holed(s', p, 1)
    ensures Dist(Home(s[p].key, |s|), q, |s|) < Dist(Home(s[p].key, |s|), p, |s|)
  {
    var k := s[p].key;
    FreeContents(s, p);
    PutDistinct(s[p := Free], q, k, s[p].row);
    assert Stops(s[p := Free], k, p) && !Before(s[p := Free], k, p, q);
    forall i: nat, j: nat | i < |s| && j < |s| && s'[i].Entry? && Before(s', s'[i].key, j, i) && j != p
      ensures s'[j].Entry?
    {
      if i == q {
        assert Before(s[p := Free], k, j, q);
        assert Before(s, k, j, p);
      } else {
        assert Before(s, s[i].key, j, i);
      }
    }
  }

  lemma MoveContents(s: Table, q: nat, p: nat)
    requires Distinct(s) && q < |s| && p < |s| && q != p && s[q].Free? && s[p].Entry?
    ensures Contents(s[p := Free][q := s[p]]) == Contents(s)
  {
    Holds(s, p);
    FreeContents(s, p);
    PutContents(s[p := Free], q, s[p].key, s[p].row);
  }

  // ----- Termination of deletion: displacements shrink ----------------------

  function Weight(x: Slot, i: nat, n: nat): nat
    requires i < n
  {
    if x.Free? then 0 else Dist(Home(x.key, n), i, n)
  }

  /** Total distance of the first `m` slots' entries from their homes. */
  ghost function Displacement(s: Table, m: nat): nat
    requires m <= |s|
  {
    if m == 0 then 0 else Displacement(s, m - 1) + Weight(s[m - 1], m - 1, |s|)
  }

  lemma {:induction false} DisplacementAfter(s: Table, i: nat, x: Slot, m: nat)
    requires i < |s| && m <= |s|
    ensures Displacement(s[i := x], m) ==
            Displacement(s, m) + (if i < m then Weight(x, i, |s|) - Weight(s[i], i, |s|) else 0)
  {
    if m > 0 {
      DisplacementAfter(s, i, x, m - 1);
    }
  }

  lemma MoveShrinks(s: Table, q: nat, p: nat)
    requires q < |s| && p < |s| && q != p && s[q].Free? && s[p].Entry?
    requires Dist(Home(s[p].key, |s|), q, |s|) < Dist(Home(s[p].key, |s|), p, |s|)
    ensures Displacement(s[p := Free][q := s[p]], |s|) < Displacement(s, |s|)
  {
    DisplacementAfter(s, p, Free, |s|);
    DisplacementAfter(s[p := Free], q, s[p], |s|);
  }

  // ----- Size and free slots -------------------------------------------------

  ghost function Count(s: seq<Slot>): nat {
    if s == [] then 0 else Count(s[..|s| - 1]) + (if s[|s| - 1].Entry? then 1 else 0)
  }

  lemma KeysOfPrefix(s: seq<Slot>)
    requires Distinct(s) && s != []
    ensures var pre, last := s[..|s| - 1], s[|s| - 1];
            && Distinct(pre)
            && (last.Entry? ==> last.key !in Keys(pre))
            && Keys(s) == Keys(pre) + (if last.Entry? then {last.key} else {})
  {
    var pre, last := s[..|s| - 1], s[|s| - 1];
    forall k | k in Keys(s) ensures k in Keys(pre) || (last.Entry? && k == last.key) {
      var i: nat :| i < |s| && s[i].Entry? && s[i].key == k;
      assert i < |pre| ==> pre[i] == s[i];
    }
    forall k | k in Keys(pre) ensures k in Keys(s) {
      var i: nat :| i < |pre| && pre[i].Entry? && pre[i].key == k;
      assert s[i] == pre[i];
    }
    if last.Entry? {
      assert s[|s| - 1].key in Keys(s);
    }
  }

  lemma {:induction false} KeysCount(s: seq<Slot>)
    requires Distinct(s)
    ensures |Keys(s)| == Count(s)
    decreases |s|
  {
    if s != [] {
      KeysOfPrefix(s);
      KeysCount(s[..|s| - 1]);
    }
  }

  lemma {:induction false} FullCount(s: seq<Slot>)
    ensures Count(s) == |s| <==> forall i: nat | i < |s| :: s[i].Entry?
    ensures Count(s) <= |s|
    decreases |s|
  {
    if s != [] {
      FullCount(s[..|s| - 1]);
      assert forall i: nat | i < |s| - 1 :: s[..|s| - 1][i] == s[i];
    }
  }

  /** The map has at most as many keys as the table has slots, and a probe for
      `k` ends exactly when a slot is free or `k` is present. */
  lemma ProbeTerminatesExactly(s: Table, k: Key)
    requires Distinct(s)
    ensures |Contents(s)| <= |s|
    ensures Terminates(s, k) <==> |Contents(s)| < |s| || k in Contents(s)
  {
    KeysCount(s);
    FullCount(s);
    assert Contents(s).Keys == Keys(s);
    assert |Contents(s)| == |Contents(s).Keys|;
    if k in Contents(s) {
      var i := Find(s, k);
      assert Stops(s, k, i);
    }
    if |Contents(s)| < |s| {
      var i: nat :| i < |s| && s[i].Free?;
      assert Stops(s, k, i);
    }
  }

  lemma NextIs(i: nat, c: nat)
    requires IsPow2(c) && i < c
    ensures And(i + 1, c - 1) == Next(i, c)
  {
    MaskIsRemainder(i + 1, c);
    if i + 1 < c {
      RemainderIs(i + 1, c, 0, i + 1);
    } else {
      RemainderIs(c, c, 1, 0);
    }
  }

  lemma ProbeStarts(s: Table, k: Key)
    ensures Passed(s, k, Home(k, |s|))
  {}

  /** One more probe step brings the probe closer to where it will end. */
  lemma ProbeSteps(s: Table, k: Key, i: nat, stop: nat)
    requires Passed(s, k, i) && !Stops(s, k, i) && stop < |s| && Stops(s, k, stop)
    ensures Passed(s, k, Next(i, |s|))
    ensures Dist(Next(i, |s|), stop, |s|) < Dist(i, stop, |s|)
  {
    assert stop != i && !Before(s, k, stop, i);
  }

  lemma DropSize(m: map<Key, Row>, k: Key)
    requires k in m
    ensures |m - {k}| == |m| - 1
  {
    assert (m - {k}).Keys == m.Keys - {k};
    assert |m - {k}| == |(m - {k}).Keys| && |m| == |m.Keys|;
  }

  // ----- The index object ------------------------------------------------------

  class Index {
    var capacity: nat
    var mask: nat
    var keys: array<Key>
    var values: array<Row>
    var occupied: array<bool>
    var size: int

    ghost predicate Shape()
      reads this
    {
      && IsPow2(capacity) && mask == capacity - 1
      && keys.Length == values.Length == occupied.Length == capacity
      && keys as object != values as object && keys as object != occupied as object && values as object != occupied as object
    }

    ghost function Slots(): Table
      requires Shape()
      reads this, keys, values, occupied
    {
      seq(capacity, i requires 0 <= i < capacity reads this, keys, values, occupied
                    requires keys.Length == values.Length == occupied.Length == capacity
                    => if occupied[i] then Entry(keys[i], values[i]) else Free)
    }

    ghost predicate Valid()
      reads this, keys, values, occupied
    {
      Shape() && Well(Slots()) && size == |Contents(Slots())|
    }

    ghost function Map(): map<Key, Row>
      requires Shape()
      reads this, keys, values, occupied
    {
      Contents(Slots())
    }

    /** A probe for `k` ends: a slot is free, or `k` is there. */
    ghost predicate CanProbe(k: Key)
      requires Shape()
      reads this, keys, values, occupied
    {
      |Map()| < capacity || k in Map()
    }

    constructor (wanted: nat)
      ensures Valid() && Map() == map[] && fresh(keys) && fresh(values) && fresh(occupied)
      ensures wanted <= capacity && (capacity == 1 || capacity < 2 * wanted)
    {
      var c := 1;
      while c < wanted
        invariant IsPow2(c) && (c == 1 || c < 2 * wanted)
        decreases wanted - c
      {
        c := c * 2;
      }
      capacity, mask, size := c, c - 1, 0;
      keys := new Key[c](_ => 0);
      values := new Row[c](_ => 0);
      occupied := new bool[c](_ => false);
      new;
      assert forall i: nat | i < |Slots()| :: Slots()[i].Free?;
      assert Map() == map[];
    }

    /** The loop that `get`, `insert` and `delete` all start with: from the
        key's home to the first slot that is free or holds the key. */
    method Probe(k: Key) returns (idx: nat)
      requires Shape() && Terminates(Slots(), k)
      ensures EndsAt(Slots(), k, idx)
    {
      ghost var s := Slots();
      ghost var stop: nat :| stop < |s| && Stops(s, k, stop);
      MaskIsRemainder(k, capacity);
      ProbeStarts(s, k);
      idx := And(k, mask);
      while occupied[idx] && keys[idx] != k
        invariant Passed(s, k, idx)
        decreases Dist(idx, stop, capacity)
      {
        ProbeSteps(s, k, idx, stop);
        NextIs(idx, capacity);
        idx := And(idx + 1, mask);
      }
    }

    method Get(k: Key) returns (r: Option<Row>)
      requires Valid() && CanProbe(k)
      ensures r == if k in Map() then Some(Map()[k]) else None
    {
      ProbeTerminatesExactly(Slots(), k);
      var idx := Probe(k);
      ProbeDecides(Slots(), k, idx);
      if occupied[idx] {
        return Some(values[idx]);
      }
      return None;
    }

    method Fill(idx: nat, k: Key, v: Row)
      requires Shape() && idx < capacity
      modifies keys, values, occupied
      ensures Shape() && Slots() == old(Slots())[idx := Entry(k, v)]
    {
      ghost var s := Slots();
      keys[idx] := k;
      values[idx] := v;
      occupied[idx] := true;
      assert forall i: nat | i < capacity && i != idx :: Slots()[i] == s[i];
    }

    method Clear(idx: nat)
      requires Shape() && idx < capacity
      modifies this`size, occupied
      ensures Shape() && Slots() == old(Slots())[idx := Free] && size == old(size) - 1
    {
      ghost var s := Slots();
      occupied[idx] := false;
      size := size - 1;
      assert forall i: nat | i < capacity && i != idx :: Slots()[i] == s[i];
    }

    /** The probe loop and the store, for any table in which the probe ends:
        deletion calls this while the probe chains are broken. */
    method Put(k: Key, v: Row) returns (ghost p: nat)
      requires Shape() && Terminates(Slots(), k)
      modifies this`size, keys, values, occupied
      ensures Shape() && EndsAt(old(Slots()), k, p)
      ensures Slots() == old(Slots())[p := Entry(k, v)]
      ensures size == old(size) + (if old(Slots())[p].Free? then 1 else 0)
    {
      var idx := Probe(k);
      p := idx;
      if !occupied[idx] {
        size := size + 1;
      }
      Fill(idx, k, v);
    }

    method Insert(k: Key, v: Row)
      requires Valid() && CanProbe(k)
      modifies this`size, keys, values, occupied
      ensures Valid() && Map() == old(Map())[k := v]
    {
      ghost var s := Slots();
      ProbeTerminatesExactly(s, k);
      ghost var p := Put(k, v);
      PutKeepsChains(s, p, k, v);
      ProbeDecides(s, k, p);
    }

    /** One turn of the rehash loop: re-inserts the entry at `at`, which stays
        or fills the hole, and goes on to the next slot. */
    method Reinsert(at: nat, ghost q: nat, ghost gap: nat) returns (next: nat, ghost q': nat, ghost gap': nat)
      requires Shape() && at < capacity && occupied[at]
      requires Holed(Slots(), q, gap) && at == Ahead(q, gap, capacity)
      modifies this`size, keys, values, occupied
      ensures Shape() && Map() == old(Map()) && size == old(size)
      ensures Holed(Slots(), q', gap') && next == Ahead(q', gap', capacity)
      ensures || Displacement(Slots(), capacity) < Displacement(old(Slots()), capacity)
              || (Displacement(Slots(), capacity) == Displacement(old(Slots()), capacity) && gap < gap')
    {
      ghost var s := Slots();
      var k, v := keys[at], values[at];
      Clear(at);
      assert Stops(Slots(), k, at);
      ghost var to := Put(k, v);
      Reinserted(s, q, gap, at, to);
      if to != at {
        MoveHole(s, q, gap, at, Slots());
        MoveContents(s, q, at);
        MoveShrinks(s, q, at);
        AheadNext(at, 0, capacity);
        q', gap' := at, 1;
      } else {
        assert Slots() == s;
        PutBack(s, q, gap, at);
        AheadNext(q, gap, capacity);
        q', gap' := q, gap + 1;
      }
      NextIs(at, capacity);
      next := And(at + 1, mask);
    }

    /** The rest of the cluster after the slot before `start` has been cleared. */
    method Rehash(start: nat, ghost hole: nat)
      requires Shape() && Holed(Slots(), hole, 1) && start == Ahead(hole, 1, capacity) && size == |Map()|
      modifies this`size, keys, values, occupied
      ensures Valid() && Map() == old(Map())
    {
      hide Contents, Before, IsPow2, And, Displacement, Weight;
      var next := start;
      ghost var q, gap := hole, 1;
      while occupied[next]
        invariant Shape() && Holed(Slots(), q, gap) && next == Ahead(q, gap, capacity)
        invariant Map() == old(Map()) && size == old(size)
        decreases Displacement(Slots(), capacity), capacity - gap
      {
        next, q, gap := Reinsert(next, q, gap);
      }
      CloseHole(Slots(), q, gap);
    }

    /** Takes the entry at `idx` out and puts the probe chains back in order. */
    method RemoveAt(idx: nat)
      requires Valid() && idx < capacity && occupied[idx]
      modifies this`size, keys, values, occupied
      ensures Valid() && Map() == old(Map()) - {old(keys[idx])}
    {
      Holds(Slots(), idx);
      StartHole(Slots(), idx);
      DropSize(Map(), keys[idx]);
      Clear(idx);
      NextIs(idx, capacity);
      AheadNext(idx, 0, capacity);
      Rehash(And(idx + 1, mask), idx);
    }

    method Delete(k: Key) returns (found: bool)
      requires Valid() && CanProbe(k)
      modifies this`size, keys, values, occupied
      ensures Valid() && found == (k in old(Map())) && Map() == old(Map()) - {k}
    {
      ProbeTerminatesExactly(Slots(), k);
      var idx := Probe(k);
      ProbeDecides(Slots(), k, idx);
      found := occupied[idx];
      if found {
        RemoveAt(idx);
      }
    }
  }
}
