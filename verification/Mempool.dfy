// The mempool: tickets in order of arrival, an index by transaction id, and a
// validator whose state includes the effect of everything accepted so far.

module Mempool {
  datatype Option<+T> = None | Some(value: T)

  type Id = nat
  type Bytes = seq<nat>

  /** The validator protocol: its errors for a transaction, and the effect of one. */
  datatype Validator<!S> = Validator(errors: (S, Bytes, int) -> seq<string>, apply: (S, Bytes, int) -> S)

  datatype ValidatedTx = ValidatedTx(cbor: Bytes, id: Id, size: nat)

  datatype Ticket = Ticket(tx: ValidatedTx, no: nat)

  datatype AddResult =
    | Added(tx: ValidatedTx)
    | Duplicate(id: Id)
    | Full(needed: int, available: int)
    | Invalid(id: Id, errors: seq<string>)

  function Size(tickets: seq<Ticket>): nat {
    if tickets == [] then 0 else Size(tickets[..|tickets| - 1]) + tickets[|tickets| - 1].tx.size
  }

  lemma {:induction false} SizeConcat(a: seq<Ticket>, b: seq<Ticket>)
    ensures Size(a + b) == Size(a) + Size(b)
    decreases |b|
  {
    if b == [] {
      assert a + b == a;
    } else {
      var n := |b| - 1;
      SizeConcat(a, b[..n]);
      assert (a + b)[..|a| + n] == a + b[..n];
    }
  }

  lemma SizePrefix(tickets: seq<Ticket>, m: nat, n: nat)
    requires m <= n <= |tickets|
    ensures Size(tickets[..m]) <= Size(tickets[..n])
  {
    assert tickets[..n] == tickets[..m] + tickets[m..n];
    SizeConcat(tickets[..m], tickets[m..n]);
  }

  // ----- Replaying tickets against the validator ------------------------------------------

  /** The state after all tickets in order, if each is valid when its turn comes. */
  ghost function Replay<S>(v: Validator<S>, base: S, tickets: seq<Ticket>, slot: int): Option<S> {
    if tickets == [] then Some(base)
    else
      var n := |tickets| - 1;
      var before := Replay(v, base, tickets[..n], slot);
      if before.None? || v.errors(before.value, tickets[n].tx.cbor, slot) != [] then None
      else Some(v.apply(before.value, tickets[n].tx.cbor, slot))
  }

  /** Keeping every ticket that is valid after those kept before it. */
  ghost function Greedy<S>(v: Validator<S>, base: S, tickets: seq<Ticket>, slot: int): (S, seq<Ticket>, seq<Id>) {
    if tickets == [] then (base, [], [])
    else
      var n := |tickets| - 1;
      var (s, kept, removed) := Greedy(v, base, tickets[..n], slot);
      if v.errors(s, tickets[n].tx.cbor, slot) != [] then (s, kept, removed + [tickets[n].tx.id])
      else (v.apply(s, tickets[n].tx.cbor, slot), kept + [tickets[n]], removed)
  }

  lemma ReplayMore<S>(v: Validator<S>, base: S, tickets: seq<Ticket>, slot: int, t: Ticket)
    ensures Replay(v, base, tickets + [t], slot)
            == var before := Replay(v, base, tickets, slot);
               if before.None? || v.errors(before.value, t.tx.cbor, slot) != [] then None
               else Some(v.apply(before.value, t.tx.cbor, slot))
  {
    assert (tickets + [t])[..|tickets|] == tickets;
  }

  /** What greedy keeps replays from the base, to the state greedy ends in. */
  lemma {:induction false} GreedyReplays<S>(v: Validator<S>, base: S, tickets: seq<Ticket>, slot: int)
    ensures Replay(v, base, Greedy(v, base, tickets, slot).1, slot) == Some(Greedy(v, base, tickets, slot).0)
    decreases |tickets|
  {
    if tickets != [] {
      var n := |tickets| - 1;
      GreedyReplays(v, base, tickets[..n], slot);
      ReplayMore(v, base, Greedy(v, base, tickets[..n], slot).1, slot, tickets[n]);
    }
  }

  /** Greedy removes nothing exactly when the tickets replay as they stand. */
  lemma {:induction false} GreedyKeepsAllExactly<S>(v: Validator<S>, base: S, tickets: seq<Ticket>, slot: int)
    ensures Greedy(v, base, tickets, slot).1 == tickets <==> Replay(v, base, tickets, slot).Some?
    ensures Greedy(v, base, tickets, slot).2 == [] <==> Replay(v, base, tickets, slot).Some?
    ensures |Greedy(v, base, tickets, slot).1| + |Greedy(v, base, tickets, slot).2| == |tickets|
    decreases |tickets|
  {
    if tickets != [] {
      var n := |tickets| - 1;
      GreedyKeepsAllExactly(v, base, tickets[..n], slot);
      GreedyReplays(v, base, tickets[..n], slot);
      assert tickets == tickets[..n] + [tickets[n]];
    }
  }

  /** A ticket survives exactly when it is valid after the survivors before it. */
  lemma {:induction false} GreedyDecides<S>(v: Validator<S>, base: S, tickets: seq<Ticket>, slot: int, i: nat)
    requires i < |tickets| && Ascending(tickets)
    ensures tickets[i] in Greedy(v, base, tickets, slot).1
            <==> v.errors(Greedy(v, base, tickets[..i], slot).0, tickets[i].tx.cbor, slot) == []
    decreases |tickets|
  {
    var n := |tickets| - 1;
    if i < n {
      GreedyDecides(v, base, tickets[..n], slot, i);
      assert tickets[..n][..i] == tickets[..i];
    } else {
      GreedySubset(v, base, tickets[..n], slot);
    }
  }

  lemma {:induction false} GreedySubset<S>(v: Validator<S>, base: S, tickets: seq<Ticket>, slot: int)
    ensures forall t :: t in Greedy(v, base, tickets, slot).1 ==> t in tickets
    ensures forall id :: id in Greedy(v, base, tickets, slot).2 ==> exists t :: t in tickets && t.tx.id == id
    decreases |tickets|
  {
    if tickets != [] {
      var n := |tickets| - 1;
      GreedySubset(v, base, tickets[..n], slot);
      assert tickets[n] in tickets;
      assert forall t :: t in tickets[..n] ==> t in tickets;
    }
  }

  /** Reported as removed are the ids of exactly the tickets that are not kept. */
  lemma {:induction false} GreedyReports<S>(v: Validator<S>, base: S, tickets: seq<Ticket>, slot: int, id: Id)
    requires Ascending(tickets)
    ensures id in Greedy(v, base, tickets, slot).2
            <==> exists t :: t in tickets && t !in Greedy(v, base, tickets, slot).1 && t.tx.id == id
    decreases |tickets|
  {
    if tickets != [] {
      var n := |tickets| - 1;
      var before, all := Greedy(v, base, tickets[..n], slot), Greedy(v, base, tickets, slot);
      GreedyReports(v, base, tickets[..n], slot, id);
      GreedySubset(v, base, tickets[..n], slot);
      assert forall t :: t in tickets <==> t in tickets[..n] || t == tickets[n];
      if id in before.2 {
        var t :| t in tickets[..n] && t !in before.1 && t.tx.id == id;
        assert t in tickets && t !in all.1;
      }
      if t :| t in tickets && t !in all.1 && t.tx.id == id {
        assert t in tickets[..n] ==> t !in before.1;
      }
      if tickets[n] !in all.1 && tickets[n].tx.id == id {
        assert tickets[n] in tickets;
      }
    }
  }

  // ----- The representation ------------------------------------------------------------------

  /** Ticket numbers are strictly increasing. */
  ghost predicate Ascending(tickets: seq<Ticket>) {
    forall i, j :: 0 <= i < j < |tickets| ==> tickets[i].no < tickets[j].no
  }

  ghost predicate DistinctIds(tickets: seq<Ticket>) {
    forall i, j :: 0 <= i < j < |tickets| ==> tickets[i].tx.id != tickets[j].tx.id
  }

  /** The index lists exactly the tickets, under their ids. */
  ghost predicate Indexed(tickets: seq<Ticket>, index: map<Id, Ticket>) {
    && (forall t <- tickets :: t.tx.id in index && index[t.tx.id] == t)
    && (forall id <- index :: index[id] in tickets && index[id].tx.id == id)
  }

  /** Sizes and ids are those of the bytes. */
  ghost predicate Measured(tickets: seq<Ticket>, txId: Bytes -> Id) {
    forall t <- tickets :: t.tx.id == txId(t.tx.cbor) && t.tx.size == |t.tx.cbor|
  }

  ghost predicate Below(tickets: seq<Ticket>, next: nat) {
    forall t <- tickets :: t.no < next
  }

  /** The tickets that stay when some ids are taken out. */
  function Without(tickets: seq<Ticket>, ids: set<Id>): seq<Ticket> {
    if tickets == [] then []
    else
      var n := |tickets| - 1;
      Without(tickets[..n], ids) + if tickets[n].tx.id in ids then [] else [tickets[n]]
  }

  /** The listed ids, in ticket order. */
  function Listed(tickets: seq<Ticket>, ids: set<Id>): seq<Id> {
    if tickets == [] then []
    else
      var n := |tickets| - 1;
      Listed(tickets[..n], ids) + if tickets[n].tx.id in ids then [tickets[n].tx.id] else []
  }

  lemma {:induction false} ListedCounts(tickets: seq<Ticket>, ids: set<Id>)
    ensures |Listed(tickets, ids)| + |Without(tickets, ids)| == |tickets|
  {
    if tickets != [] {
      ListedCounts(tickets[..|tickets| - 1], ids);
    }
  }

  lemma {:induction false} NothingTaken(tickets: seq<Ticket>)
    ensures Without(tickets, {}) == tickets && Listed(tickets, {}) == []
  {
    if tickets != [] {
      NothingTaken(tickets[..|tickets| - 1]);
      assert tickets == tickets[..|tickets| - 1] + [tickets[|tickets| - 1]];
    }
  }

  lemma NothingGone(ids: set<Id>)
    ensures Without([], ids) == [] && Listed([], ids) == [] && Gone([], ids) == {} && Size([]) == 0
  {}

  /** The ids of the tickets inserted at least `timeout` slots before. */
  function Expired(tickets: seq<Ticket>, addedAt: map<Id, int>, slot: int, timeout: int): set<Id> {
    set t <- tickets | slot - (if t.tx.id in addedAt then addedAt[t.tx.id] else 0) >= timeout :: t.tx.id
  }

  lemma ExpiredStep(tickets: seq<Ticket>, addedAt: map<Id, int>, slot: int, timeout: int, i: nat)
    requires i < |tickets|
    ensures var id := tickets[i].tx.id;
            Expired(tickets[..i + 1], addedAt, slot, timeout)
            == Expired(tickets[..i], addedAt, slot, timeout)
               + (if slot - (if id in addedAt then addedAt[id] else 0) >= timeout then {id} else {})
  {
    assert tickets[..i + 1] == tickets[..i] + [tickets[i]];
  }

  /** One more ticket looked at. */
  lemma TakeStep(tickets: seq<Ticket>, i: nat, ids: set<Id>)
    requires i < |tickets|
    ensures var t, before, next := tickets[i], tickets[..i], tickets[..i + 1];
            && Size(next) == Size(before) + t.tx.size
            && Without(next, ids) == (if t.tx.id in ids then Without(before, ids) else Without(before, ids) + [t])
            && Listed(next, ids) == (if t.tx.id in ids then Listed(before, ids) + [t.tx.id] else Listed(before, ids))
            && Gone(next, ids) == (if t.tx.id in ids then Gone(before, ids) + {t.tx.id} else Gone(before, ids))
            && Size(Without(before, ids) + [t]) == Size(Without(before, ids)) + t.tx.size
  {
    var t, before := tickets[i], tickets[..i];
    assert tickets[..i + 1] == before + [t];
    assert Without(before, ids) + [] == Without(before, ids) && Listed(before, ids) + [] == Listed(before, ids);
  }

  lemma MinusNothing<V>(m: map<Id, V>)
    ensures m - {} == m
  {}

  lemma MinusMore<V>(m: map<Id, V>, gone: set<Id>, id: Id)
    ensures m - gone - {id} == m - (gone + {id})
  {}

  function Gone(tickets: seq<Ticket>, ids: set<Id>): set<Id> {
    set t <- tickets | t.tx.id in ids :: t.tx.id
  }

  lemma {:induction false} WithoutHolds(tickets: seq<Ticket>, ids: set<Id>)
    ensures forall t :: t in Without(tickets, ids) <==> t in tickets && t.tx.id !in ids
  {
    if tickets != [] {
      var n := |tickets| - 1;
      WithoutHolds(tickets[..n], ids);
      assert forall t :: t in tickets <==> t in tickets[..n] || t == tickets[n];
    }
  }

  lemma {:induction false} ListedHolds(tickets: seq<Ticket>, ids: set<Id>)
    ensures forall id :: id in Listed(tickets, ids) <==> id in ids && exists t :: t in tickets && t.tx.id == id
  {
    if tickets != [] {
      var n := |tickets| - 1;
      ListedHolds(tickets[..n], ids);
      assert forall t :: t in tickets <==> t in tickets[..n] || t == tickets[n];
      assert tickets[n] in tickets;
    }
  }

  lemma {:induction false} WithoutShrinks(tickets: seq<Ticket>, ids: set<Id>)
    ensures |Without(tickets, ids)| <= |tickets| && Size(Without(tickets, ids)) <= Size(tickets)
  {
    if tickets != [] {
      var n := |tickets| - 1;
      WithoutShrinks(tickets[..n], ids);
      SizeConcat(Without(tickets[..n], ids), [tickets[n]]);
      assert Without(tickets[..n], ids) + [] == Without(tickets[..n], ids);
    }
  }

  ghost predicate Ordered(tickets: seq<Ticket>) {
    Ascending(tickets) && DistinctIds(tickets)
  }

  lemma OrderedPrefix(tickets: seq<Ticket>)
    requires Ordered(tickets) && tickets != []
    ensures Ordered(tickets[..|tickets| - 1])
    ensures forall t <- tickets[..|tickets| - 1] :: t.no < tickets[|tickets| - 1].no && t.tx.id != tickets[|tickets| - 1].tx.id
  {
    var before := tickets[..|tickets| - 1];
    assert forall i | 0 <= i < |before| :: before[i] == tickets[i];
  }

  lemma OrderedSnoc(tickets: seq<Ticket>, t: Ticket)
    requires Ordered(tickets) && forall u <- tickets :: u.no < t.no && u.tx.id != t.tx.id
    ensures Ordered(tickets + [t])
  {
    var all := tickets + [t];
    forall i, j | 0 <= i < j < |all| ensures all[i].no < all[j].no && all[i].tx.id != all[j].tx.id {
      assert all[i] == tickets[i] && tickets[i] in tickets;
      if j < |tickets| {
        assert all[j] == tickets[j];
      }
    }
  }

  lemma {:induction false} WithoutOrdered(tickets: seq<Ticket>, ids: set<Id>)
    requires Ordered(tickets)
    ensures Ordered(Without(tickets, ids))
  {
    if tickets != [] {
      hide Ordered;
      var n := |tickets| - 1;
      OrderedPrefix(tickets);
      WithoutOrdered(tickets[..n], ids);
      WithoutHolds(tickets[..n], ids);
      if tickets[n].tx.id in ids {
        assert Without(tickets, ids) == Without(tickets[..n], ids);
      } else {
        OrderedSnoc(Without(tickets[..n], ids), tickets[n]);
      }
    } else {
      assert Without(tickets, ids) == tickets;
    }
  }

  /** The whole representation: order, index, insertion slots, ids, sizes, capacity. */
  ghost predicate Consistent(tickets: seq<Ticket>, index: map<Id, Ticket>, addedAt: map<Id, int>,
                             total: int, next: nat, capacity: int, txId: Bytes -> Id) {
    && Ordered(tickets) && Below(tickets, next) && Measured(tickets, txId)
    && Indexed(tickets, index) && addedAt.Keys == index.Keys
    && total == Size(tickets) <= capacity
  }

  lemma ConsistentMeans(tickets: seq<Ticket>, index: map<Id, Ticket>, addedAt: map<Id, int>,
                        total: int, next: nat, capacity: int, txId: Bytes -> Id)
    requires Consistent(tickets, index, addedAt, total, next, capacity, txId)
    ensures Ordered(tickets) && total == Size(tickets)
  {}

  /** Evicted are exactly the tickets that were added at least `timeout` slots ago. */
  lemma EvictionMeans(tickets: seq<Ticket>, index: map<Id, Ticket>, addedAt: map<Id, int>, total: int, next: nat,
                      capacity: int, txId: Bytes -> Id, slot: int, timeout: int)
    requires Consistent(tickets, index, addedAt, total, next, capacity, txId)
    ensures var ids := Expired(tickets, addedAt, slot, timeout);
            var kept, evicted := Without(tickets, ids), Listed(tickets, ids);
            && (forall t <- tickets :: t.tx.id in addedAt)
            && (forall t :: t in kept <==> t in tickets && slot - addedAt[t.tx.id] < timeout)
            && (forall id :: id in evicted <==> exists t :: t in tickets && t !in kept && t.tx.id == id)
  {
    var ids := Expired(tickets, addedAt, slot, timeout);
    WithoutHolds(tickets, ids);
    ListedHolds(tickets, ids);
    forall t <- tickets ensures t.tx.id in addedAt {}
    forall t <- tickets ensures t.tx.id in ids <==> slot - addedAt[t.tx.id] >= timeout {
      if t.tx.id in ids {
        var u :| u in tickets && u.tx.id == t.tx.id && slot - addedAt[u.tx.id] >= timeout;
      }
    }
    hide Without, Listed, Expired, Consistent;
  }

  lemma ConsistentWithout(tickets: seq<Ticket>, index: map<Id, Ticket>, addedAt: map<Id, int>,
                          total: int, next: nat, capacity: int, txId: Bytes -> Id, ids: set<Id>)
    requires Consistent(tickets, index, addedAt, total, next, capacity, txId)
    ensures Consistent(Without(tickets, ids), index - ids, addedAt - ids, Size(Without(tickets, ids)), next, capacity, txId)
  {
    hide Ordered;
    WithoutHolds(tickets, ids);
    WithoutShrinks(tickets, ids);
    WithoutOrdered(tickets, ids);
  }

  lemma ConsistentSnoc(tickets: seq<Ticket>, index: map<Id, Ticket>, addedAt: map<Id, int>,
                       total: int, next: nat, capacity: int, txId: Bytes -> Id, cbor: Bytes, slot: int)
    requires Consistent(tickets, index, addedAt, total, next, capacity, txId)
    requires txId(cbor) !in index && total + |cbor| <= capacity
    ensures var t := Ticket(ValidatedTx(cbor, txId(cbor), |cbor|), next);
            Consistent(tickets + [t], index[t.tx.id := t], addedAt[t.tx.id := slot], total + |cbor|, next + 1, capacity, txId)
  {
    hide Ordered;
    var t := Ticket(ValidatedTx(cbor, txId(cbor), |cbor|), next);
    OrderedSnoc(tickets, t);
    SizeConcat(tickets, [t]);
    assert forall u :: u in tickets + [t] <==> u in tickets || u == t;
  }

  lemma IndexMinus(tickets: seq<Ticket>, index: map<Id, Ticket>, addedAt: map<Id, int>, ids: set<Id>)
    requires Indexed(tickets, index) && addedAt.Keys == index.Keys
    ensures index - Gone(tickets, ids) == index - ids && addedAt - Gone(tickets, ids) == addedAt - ids
  {
    assert Gone(tickets, ids) == index.Keys * ids;
  }

  /** What greedy keeps is what is left without the ids that it reports. */
  lemma {:induction false} GreedyIsWithout<S>(v: Validator<S>, base: S, tickets: seq<Ticket>, slot: int)
    requires Ordered(tickets)
    ensures Greedy(v, base, tickets, slot).1 == Without(tickets, IdSet(Greedy(v, base, tickets, slot).2))
    ensures IdSet(Greedy(v, base, tickets, slot).2) == Gone(tickets, IdSet(Greedy(v, base, tickets, slot).2))
    decreases |tickets|
  {
    if tickets != [] {
      var n := |tickets| - 1;
      var removed := Greedy(v, base, tickets[..n], slot).2;
      OrderedPrefix(tickets);
      GreedyIsWithout(v, base, tickets[..n], slot);
      GreedySubset(v, base, tickets[..n], slot);
      GreedySubset(v, base, tickets, slot);
      assert tickets[n].tx.id !in removed;
      WithoutUnused(tickets[..n], IdSet(removed), tickets[n].tx.id);
      assert IdSet(removed + [tickets[n].tx.id]) == IdSet(removed) + {tickets[n].tx.id};
    }
  }

  function IdSet(ids: seq<Id>): set<Id> {
    set id <- ids
  }

  lemma {:induction false} WithoutUnused(tickets: seq<Ticket>, ids: set<Id>, id: Id)
    requires forall t <- tickets :: t.tx.id != id
    ensures Without(tickets, ids + {id}) == Without(tickets, ids)
  {
    if tickets != [] {
      WithoutUnused(tickets[..|tickets| - 1], ids, id);
    }
  }

  /** What revalidation leaves is consistent and replays. */
  lemma SyncFacts<S>(v: Validator<S>, base: S, tickets: seq<Ticket>, slot: int,
                     index: map<Id, Ticket>, addedAt: map<Id, int>, total: int, next: nat, capacity: int, txId: Bytes -> Id)
    requires Consistent(tickets, index, addedAt, total, next, capacity, txId)
    ensures var (s, kept, removed) := Greedy(v, base, tickets, slot);
            && Consistent(kept, index - IdSet(removed), addedAt - IdSet(removed), Size(kept), next, capacity, txId)
            && Replay(v, base, kept, slot) == Some(s)
            && (removed == [] <==> Replay(v, base, tickets, slot).Some?)
            && (removed == [] ==> kept == tickets)
  {
    GreedyIsWithout(v, base, tickets, slot);
    GreedyReplays(v, base, tickets, slot);
    GreedyKeepsAllExactly(v, base, tickets, slot);
    hide Greedy, Replay, Without, IdSet, Consistent;
    ConsistentWithout(tickets, index, addedAt, total, next, capacity, txId, IdSet(Greedy(v, base, tickets, slot).2));
  }

  lemma GreedyNothing<S>(v: Validator<S>, base: S, slot: int)
    ensures Greedy(v, base, [], slot) == (base, [], []) && IdSet([]) == {} && Size([]) == 0
  {}

  lemma GreedyStep<S>(v: Validator<S>, base: S, tickets: seq<Ticket>, slot: int, i: nat)
    requires i < |tickets|
    ensures var (s, kept, removed) := Greedy(v, base, tickets[..i], slot);
            var t := tickets[i];
            Greedy(v, base, tickets[..i + 1], slot)
            == if v.errors(s, t.tx.cbor, slot) != [] then (s, kept, removed + [t.tx.id])
               else (v.apply(s, t.tx.cbor, slot), kept + [t], removed)
  {
    assert tickets[..i + 1][..i] == tickets[..i];
  }

  lemma IdSetMore(ids: seq<Id>, id: Id)
    ensures IdSet(ids + [id]) == IdSet(ids) + {id}
  {}

  lemma SizeMore(tickets: seq<Ticket>, t: Ticket)
    ensures Size(tickets + [t]) == Size(tickets) + t.tx.size
  {
    assert (tickets + [t])[..|tickets|] == tickets;
  }

  // ----- Selecting by size ----------------------------------------------------------------------

  /** How many tickets from the front fit, stopping at the first that does not. */
  function Fitting(tickets: seq<Ticket>, maxSize: int): (n: nat)
    ensures n <= |tickets|
  {
    if tickets == [] then 0
    else
      var before := Fitting(tickets[..|tickets| - 1], maxSize);
      if before == |tickets| - 1 && Size(tickets) <= maxSize then |tickets| else before
  }

  /** The longest prefix that fits, unless not even the empty one does. */
  lemma {:induction false} FittingIsLongest(tickets: seq<Ticket>, maxSize: int)
    ensures var n := Fitting(tickets, maxSize);
            && (n > 0 ==> Size(tickets[..n]) <= maxSize)
            && (forall m :: n < m <= |tickets| ==> Size(tickets[..m]) > maxSize)
  {
    if tickets != [] {
      var k := |tickets| - 1;
      var before := tickets[..k];
      FittingIsLongest(before, maxSize);
      var n := Fitting(before, maxSize);
      assert forall m | 0 <= m <= k :: before[..m] == tickets[..m];
      assert tickets[..k + 1] == tickets;
      if n < k {
        SizePrefix(tickets, k, k + 1);
        assert Size(before[..k]) > maxSize;
      }
    }
  }

  lemma FittingStops(tickets: seq<Ticket>, i: nat, maxSize: int)
    requires i < |tickets| && Fitting(tickets[..i], maxSize) == i && Size(tickets[..i + 1]) > maxSize
    ensures Fitting(tickets, maxSize) == i
  {
    hide Fitting, Size;
    var n := Fitting(tickets, maxSize);
    FittingIsLongest(tickets, maxSize);
    FittingIsLongest(tickets[..i], maxSize);
    assert tickets[..i][..i] == tickets[..i];
    if i < n {
      SizePrefix(tickets, i + 1, n);
    }
  }

  function Txs(tickets: seq<Ticket>): (txs: seq<ValidatedTx>)
    ensures |txs| == |tickets| && forall i :: 0 <= i < |txs| ==> txs[i] == tickets[i].tx
  {
    if tickets == [] then [] else Txs(tickets[..|tickets| - 1]) + [tickets[|tickets| - 1].tx]
  }

  /** `split_by_size`: a ticket that does not fit is skipped, not the end. */
  function Split(tickets: seq<Ticket>, maxSize: int): (seq<Ticket>, seq<Ticket>) {
    if tickets == [] then ([], [])
    else
      var last := tickets[|tickets| - 1];
      var (prefix, suffix) := Split(tickets[..|tickets| - 1], maxSize);
      if Size(prefix) + last.tx.size <= maxSize then (prefix + [last], suffix) else (prefix, suffix + [last])
  }

  /** No ticket behind the longest fitting prefix fits into the room it leaves. */
  ghost predicate NothingElseFits(tickets: seq<Ticket>, maxSize: int) {
    var n := Fitting(tickets, maxSize);
    AllTooBig(tickets[n..], maxSize - Size(tickets[..n]))
  }

  ghost predicate AllTooBig(tickets: seq<Ticket>, room: int) {
    forall t <- tickets :: t.tx.size > room
  }

  lemma AllTooBigMore(tickets: seq<Ticket>, last: Ticket, room: int)
    ensures AllTooBig(tickets + [last], room) <==> AllTooBig(tickets, room) && last.tx.size > room
  {
    assert forall t :: t in tickets + [last] <==> t in tickets || t == last;
  }

  lemma PrefixMore(tickets: seq<Ticket>, maxSize: int)
    requires tickets != []
    ensures var k := |tickets| - 1;
            var before, n := tickets[..k], Fitting(tickets[..k], maxSize);
            && before[..n] == tickets[..n]
            && Fitting(tickets, maxSize) == (if n == k && Size(tickets) <= maxSize then k + 1 else n)
            && Size(tickets) == Size(before) + tickets[k].tx.size
  {
    var k, n := |tickets| - 1, Fitting(tickets[..|tickets| - 1], maxSize);
    assert tickets[..k][..n] == tickets[..n];
  }

  lemma NothingElseMore(tickets: seq<Ticket>, maxSize: int)
    requires tickets != [] && Fitting(tickets[..|tickets| - 1], maxSize) < |tickets| - 1
    ensures var k := |tickets| - 1;
            var before, n := tickets[..k], Fitting(tickets[..k], maxSize);
            NothingElseFits(tickets, maxSize)
            <==> NothingElseFits(before, maxSize) && tickets[k].tx.size > maxSize - Size(tickets[..n])
  {
    hide AllTooBig, Fitting;
    PrefixMore(tickets, maxSize);
    var k := |tickets| - 1;
    var before, n := tickets[..k], Fitting(tickets[..k], maxSize);
    assert tickets[n..] == before[n..] + [tickets[k]];
    AllTooBigMore(before[n..], tickets[k], maxSize - Size(tickets[..n]));
  }

  /** Putting the last ticket into the first part after a skipped one breaks the order. */
  lemma OutOfOrder(tickets: seq<Ticket>, p: seq<Ticket>, s: seq<Ticket>)
    requires tickets != [] && Ascending(tickets) && |p| + |s| == |tickets| - 1 && s != []
    ensures p + [tickets[|tickets| - 1]] + s != tickets
  {
    assert (p + [tickets[|tickets| - 1]] + s)[|p|] == tickets[|tickets| - 1];
    assert tickets[|p|].no < tickets[|tickets| - 1].no;
  }

  lemma StillDifferent(before: seq<Ticket>, other: seq<Ticket>, last: Ticket)
    requires before != other
    ensures before + [last] != other + [last]
  {
    assert (before + [last])[..|before|] == before && (other + [last])[..|other|] == other;
  }

  lemma AllFit(tickets: seq<Ticket>, maxSize: int)
    requires Fitting(tickets, maxSize) == |tickets|
    ensures NothingElseFits(tickets, maxSize)
  {}

  /** What is claimed of a split, for the induction. */
  ghost predicate SplitFacts(tickets: seq<Ticket>, maxSize: int) {
    var (p, s), n := Split(tickets, maxSize), Fitting(tickets, maxSize);
    && tickets[..n] <= p
    && (p != [] ==> Size(p) <= maxSize)
    && |p| + |s| == |tickets|
    && (NothingElseFits(tickets, maxSize) ==> p == tickets[..n] && s == tickets[n..])
    && (!NothingElseFits(tickets, maxSize) ==> p + s != tickets)
  }

  /** The split's first part starts with the block's transactions, and the split
      is one into a prefix and the rest exactly when nothing further back fits
      into the room left. */
  lemma SplitIsAPrefixExactly(tickets: seq<Ticket>, maxSize: int)
    requires Ascending(tickets)
    ensures tickets[..Fitting(tickets, maxSize)] <= Split(tickets, maxSize).0
    ensures Split(tickets, maxSize).0 != [] ==> Size(Split(tickets, maxSize).0) <= maxSize
    ensures |Split(tickets, maxSize).0| + |Split(tickets, maxSize).1| == |tickets|
    ensures NothingElseFits(tickets, maxSize)
            ==> Split(tickets, maxSize) == (tickets[..Fitting(tickets, maxSize)], tickets[Fitting(tickets, maxSize)..])
    ensures !NothingElseFits(tickets, maxSize) ==> Split(tickets, maxSize).0 + Split(tickets, maxSize).1 != tickets
  {
    hide Split, Fitting, NothingElseFits;
    SplitByInduction(tickets, maxSize);
  }

  /** A ticket goes to the first part if it fits beside those before it that went there,
      and to the second if not. */
  ghost predicate SplitRight(tickets: seq<Ticket>, maxSize: int, i: nat)
    requires i < |tickets|
  {
    var (first, second) := Split(tickets, maxSize);
    && (tickets[i] in first <==> Size(Split(tickets[..i], maxSize).0) + tickets[i].tx.size <= maxSize)
    && (tickets[i] in second <==> tickets[i] !in first)
  }

  lemma SplitRightLast(tickets: seq<Ticket>, maxSize: int)
    requires Ascending(tickets) && tickets != []
    ensures SplitRight(tickets, maxSize, |tickets| - 1)
  {
    var n := |tickets| - 1;
    SplitParts(tickets[..n], maxSize);
    assert tickets[n] !in tickets[..n];
  }

  lemma SplitRightMore(tickets: seq<Ticket>, maxSize: int, i: nat)
    requires Ascending(tickets) && i < |tickets| - 1 && SplitRight(tickets[..|tickets| - 1], maxSize, i)
    ensures SplitRight(tickets, maxSize, i)
  {
    var n := |tickets| - 1;
    assert tickets[..n][..i] == tickets[..i] && tickets[..n][i] == tickets[i] != tickets[n];
  }

  lemma {:induction false} AllSplitRight(tickets: seq<Ticket>, maxSize: int, i: nat)
    requires Ascending(tickets) && i < |tickets|
    ensures SplitRight(tickets, maxSize, i)
  {
    hide SplitRight;
    if i < |tickets| - 1 {
      AllSplitRight(tickets[..|tickets| - 1], maxSize, i);
      SplitRightMore(tickets, maxSize, i);
    } else {
      SplitRightLast(tickets, maxSize);
    }
  }

  /** The parts of a split keep the order, and every ticket is in the one where it
      belongs. */
  lemma SplitDecides(tickets: seq<Ticket>, maxSize: int)
    requires Ascending(tickets)
    ensures var (first, second) := Split(tickets, maxSize);
            Ascending(first) && Ascending(second) && forall t :: t in first || t in second <==> t in tickets
    ensures forall i | 0 <= i < |tickets| :: SplitRight(tickets, maxSize, i)
  {
    hide SplitRight;
    SplitParts(tickets, maxSize);
    forall i: nat | i < |tickets| ensures SplitRight(tickets, maxSize, i) {
      AllSplitRight(tickets, maxSize, i);
    }
  }

  lemma {:induction false} SplitParts(tickets: seq<Ticket>, maxSize: int)
    requires Ascending(tickets)
    ensures Ascending(Split(tickets, maxSize).0) && Ascending(Split(tickets, maxSize).1)
    ensures forall t :: t in Split(tickets, maxSize).0 || t in Split(tickets, maxSize).1 <==> t in tickets
  {
    if tickets != [] {
      var n := |tickets| - 1;
      SplitParts(tickets[..n], maxSize);
      assert forall t :: t in tickets <==> t in tickets[..n] || t == tickets[n];
      var (first, second) := Split(tickets[..n], maxSize);
      AscendingSnoc(first, tickets, n);
      AscendingSnoc(second, tickets, n);
    }
  }

  lemma AscendingSnoc(part: seq<Ticket>, tickets: seq<Ticket>, n: nat)
    requires Ascending(tickets) && n < |tickets| && Ascending(part) && forall t <- part :: t in tickets[..n]
    ensures Ascending(part + [tickets[n]])
  {
    forall t <- part ensures t.no < tickets[n].no {
      var i :| 0 <= i < n && tickets[..n][i] == t;
      assert tickets[i] == t;
    }
  }

  lemma {:induction false} SplitByInduction(tickets: seq<Ticket>, maxSize: int)
    requires Ascending(tickets)
    ensures SplitFacts(tickets, maxSize)
    decreases |tickets|
  {
    if tickets == [] {
      assert Split(tickets, maxSize) == ([], []) && Fitting(tickets, maxSize) == 0;
    } else {
      hide SplitFacts, Split, Ascending;
      var before, last := tickets[..|tickets| - 1], tickets[|tickets| - 1];
      AscendingPrefix(tickets, |tickets| - 1);
      SplitByInduction(before, maxSize);
      if Fitting(before, maxSize) == |before| {
        if Size(tickets) <= maxSize {
          LastFits(tickets, before, last, maxSize);
        } else {
          LastDoesNot(tickets, before, last, maxSize);
        }
      } else if Size(Split(before, maxSize).0) + last.tx.size <= maxSize {
        LastSelected(tickets, before, last, maxSize);
      } else {
        LastSkipped(tickets, before, last, maxSize);
      }
    }
  }

  lemma AscendingPrefix(tickets: seq<Ticket>, n: nat)
    requires Ascending(tickets) && n <= |tickets|
    ensures Ascending(tickets[..n])
  {}

  lemma FirstPartIsAll(tickets: seq<Ticket>, maxSize: int)
    requires Fitting(tickets, maxSize) == |tickets| && SplitFacts(tickets, maxSize)
    ensures Split(tickets, maxSize) == (tickets, [])
  {
    AllFit(tickets, maxSize);
    assert tickets[..|tickets|] == tickets && tickets[|tickets|..] == [];
  }

  lemma LastFits(tickets: seq<Ticket>, before: seq<Ticket>, last: Ticket, maxSize: int)
    requires tickets != [] && before == tickets[..|tickets| - 1] && last == tickets[|tickets| - 1]
    requires Fitting(before, maxSize) == |before| && SplitFacts(before, maxSize) && Size(tickets) <= maxSize
    ensures SplitFacts(tickets, maxSize)
  {
    hide Split, NothingElseFits, Fitting, Size;
    FirstPartIsAll(before, maxSize);
    PrefixMore(tickets, maxSize);
    AllFit(tickets, maxSize);
    SplitTaking(tickets, before, last, maxSize);
    WholeSlices(tickets);
  }

  lemma SplitMore(tickets: seq<Ticket>, t: Ticket, maxSize: int)
    ensures var (prefix, suffix) := Split(tickets, maxSize);
            Split(tickets + [t], maxSize)
            == if Size(prefix) + t.tx.size <= maxSize then (prefix + [t], suffix) else (prefix, suffix + [t])
  {
    assert (tickets + [t])[..|tickets|] == tickets;
  }

  lemma SplitTaking(tickets: seq<Ticket>, before: seq<Ticket>, last: Ticket, maxSize: int)
    requires tickets != [] && before == tickets[..|tickets| - 1] && last == tickets[|tickets| - 1]
    requires Split(before, maxSize) == (before, []) && Size(before) + last.tx.size <= maxSize
    ensures Split(tickets, maxSize) == (tickets, [])
  {
    hide Split, Size;
    assert before + [last] == tickets;
    SplitMore(before, last, maxSize);
  }

  lemma WholeSlices(tickets: seq<Ticket>)
    ensures tickets[..|tickets|] == tickets && tickets[|tickets|..] == [] && tickets + [] == tickets
  {}

  lemma LastDoesNot(tickets: seq<Ticket>, before: seq<Ticket>, last: Ticket, maxSize: int)
    requires tickets != [] && before == tickets[..|tickets| - 1] && last == tickets[|tickets| - 1]
    requires Fitting(before, maxSize) == |before| && SplitFacts(before, maxSize) && Size(tickets) > maxSize
    ensures SplitFacts(tickets, maxSize)
  {
    FirstPartIsAll(before, maxSize);
    PrefixMore(tickets, maxSize);
    assert Split(tickets, maxSize) == (before, [] + [last]);
    assert tickets[|before|..] == [] + [last];
    AllTooBigMore([], last, maxSize - Size(before));
  }

  lemma OpenFacts(before: seq<Ticket>, maxSize: int) returns (p: seq<Ticket>, s: seq<Ticket>)
    requires SplitFacts(before, maxSize) && Fitting(before, maxSize) < |before|
    ensures Split(before, maxSize) == (p, s)
    ensures before[..Fitting(before, maxSize)] <= p && |p| + |s| == |before| && (s == [] ==> p != before)
    ensures p != [] ==> Size(p) <= maxSize
    ensures NothingElseFits(before, maxSize) ==> p == before[..Fitting(before, maxSize)] && s == before[Fitting(before, maxSize)..]
    ensures !NothingElseFits(before, maxSize) ==> p + s != before
  {
    hide Fitting, NothingElseFits, Size;
    p, s := Split(before, maxSize).0, Split(before, maxSize).1;
    var n := Fitting(before, maxSize);
    assert before[..n] + before[n..] == before;
    assert p + [] == p;
  }

  lemma LastSelected(tickets: seq<Ticket>, before: seq<Ticket>, last: Ticket, maxSize: int)
    requires tickets != [] && before == tickets[..|tickets| - 1] && last == tickets[|tickets| - 1] && Ascending(tickets)
    requires Fitting(before, maxSize) < |before| && SplitFacts(before, maxSize)
    requires Size(Split(before, maxSize).0) + last.tx.size <= maxSize
    ensures SplitFacts(tickets, maxSize)
  {
    var p, s := OpenFacts(before, maxSize);
    assert Split(tickets, maxSize) == (p + [last], s);
    PrefixMore(tickets, maxSize);
    NothingElseMore(tickets, maxSize);
    MoreThanPrefix(before, maxSize, p, last);
    hide NothingElseFits, Fitting, Split, Size;
    Different(tickets, before, last, p, s);
    Assemble(tickets, maxSize, p + [last], s);
  }

  /** With something skipped already, a fitting last ticket is one behind the block's prefix that fits. */
  lemma MoreThanPrefix(before: seq<Ticket>, maxSize: int, p: seq<Ticket>, last: Ticket)
    requires before[..Fitting(before, maxSize)] <= p && Size(p) + last.tx.size <= maxSize
    ensures Size(p + [last]) <= maxSize && Size(before[..Fitting(before, maxSize)]) + last.tx.size <= maxSize
    ensures before[..Fitting(before, maxSize)] <= p + [last]
  {
    SizeConcat(p, [last]);
    assert Size([last]) == last.tx.size;
    var n := Fitting(before, maxSize);
    SizePrefix(p, n, |p|);
    assert p[..n] == before[..n] && p[..|p|] == p;
  }

  lemma Assemble(tickets: seq<Ticket>, maxSize: int, p: seq<Ticket>, s: seq<Ticket>)
    requires Split(tickets, maxSize) == (p, s) && tickets[..Fitting(tickets, maxSize)] <= p && Size(p) <= maxSize
    requires |p| + |s| == |tickets| && !NothingElseFits(tickets, maxSize) && p + s != tickets
    ensures SplitFacts(tickets, maxSize)
  {
    hide NothingElseFits, Fitting, Split, Size;
  }

  lemma Different(tickets: seq<Ticket>, before: seq<Ticket>, last: Ticket, p: seq<Ticket>, s: seq<Ticket>)
    requires tickets != [] && before == tickets[..|tickets| - 1] && last == tickets[|tickets| - 1] && Ascending(tickets)
    requires |p| + |s| == |before| && (s == [] ==> p != before)
    ensures p + [last] + s != tickets
  {
    if s != [] {
      OutOfOrder(tickets, p, s);
    } else {
      assert p + [last] + s == p + [last];
      StillDifferent(before, p, last);
      assert tickets == before + [last];
    }
  }

  lemma LastSkipped(tickets: seq<Ticket>, before: seq<Ticket>, last: Ticket, maxSize: int)
    requires tickets != [] && before == tickets[..|tickets| - 1] && last == tickets[|tickets| - 1]
    requires Fitting(before, maxSize) < |before| && SplitFacts(before, maxSize)
    requires Size(Split(before, maxSize).0) + last.tx.size > maxSize
    ensures SplitFacts(tickets, maxSize)
  {
    var p, s := OpenFacts(before, maxSize);
    assert Split(tickets, maxSize) == (p, s + [last]);
    PrefixMore(tickets, maxSize);
    NothingElseMore(tickets, maxSize);
    hide NothingElseFits, Fitting, Split, Size;
    Rejoin(tickets, before, last, Fitting(before, maxSize), p, s);
  }

  lemma Rejoin(tickets: seq<Ticket>, before: seq<Ticket>, last: Ticket, n: nat, p: seq<Ticket>, s: seq<Ticket>)
    requires tickets != [] && before == tickets[..|tickets| - 1] && last == tickets[|tickets| - 1]
    requires n < |before| && |p| + |s| == |before|
    ensures tickets[..n] == before[..n] && tickets[n..] == before[n..] + [last]
    ensures p + s != before ==> p + (s + [last]) != tickets
  {
    assert tickets == before + [last];
    assert p + (s + [last]) == (p + s) + [last];
    if p + s != before {
      StillDifferent(before, p + s, last);
    }
  }

  // ----- When removal keeps the tickets replayable ---------------------------------------------

  /** Nothing stays behind a ticket that is taken out. */
  predicate OnlyFromTheEnd(tickets: seq<Ticket>, ids: set<Id>) {
    forall i, j :: 0 <= i < j < |tickets| && tickets[i].tx.id in ids ==> tickets[j].tx.id in ids
  }

  predicate NoneListed(tickets: seq<Ticket>, ids: set<Id>) {
    forall i :: 0 <= i < |tickets| ==> tickets[i].tx.id !in ids
  }

  lemma {:induction false} WithoutAllExactly(tickets: seq<Ticket>, ids: set<Id>)
    ensures |Without(tickets, ids)| <= |tickets|
    ensures |Without(tickets, ids)| == |tickets| <==> NoneListed(tickets, ids)
    ensures NoneListed(tickets, ids) ==> Without(tickets, ids) == tickets
  {
    if tickets != [] {
      var n := |tickets| - 1;
      WithoutAllExactly(tickets[..n], ids);
      assert tickets == tickets[..n] + [tickets[n]];
      assert forall i :: 0 <= i < n ==> tickets[..n][i] == tickets[i];
      if NoneListed(tickets[..n], ids) {
        forall i | 0 <= i < n ensures tickets[i].tx.id !in ids {
          assert tickets[..n][i] == tickets[i];
        }
      }
    }
  }

  /** Taking out only from the end is the same as leaving a prefix. */
  lemma {:induction false} PrefixSurvivesExactly(tickets: seq<Ticket>, ids: set<Id>)
    requires Ordered(tickets)
    ensures Without(tickets, ids) <= tickets <==> OnlyFromTheEnd(tickets, ids)
  {
    if tickets != [] {
      hide Ordered, Without;
      var n := |tickets| - 1;
      var before, last := tickets[..n], tickets[n];
      OrderedPrefix(tickets);
      PrefixSurvivesExactly(before, ids);
      EndMore(tickets, ids);
      WithoutAllExactly(before, ids);
      WithoutLast(tickets, ids);
      if last.tx.id in ids {
        PrefixOfPrefix(Without(before, ids), tickets);
      } else {
        LastAtTheEnd(tickets, Without(before, ids));
      }
    }
  }

  lemma WithoutLast(tickets: seq<Ticket>, ids: set<Id>)
    requires tickets != []
    ensures var last, w := tickets[|tickets| - 1], Without(tickets[..|tickets| - 1], ids);
            Without(tickets, ids) == if last.tx.id in ids then w else w + [last]
  {}

  lemma EndMore(tickets: seq<Ticket>, ids: set<Id>)
    requires tickets != []
    ensures var before, last := tickets[..|tickets| - 1], tickets[|tickets| - 1];
            OnlyFromTheEnd(tickets, ids)
            <==> if last.tx.id in ids then OnlyFromTheEnd(before, ids) else NoneListed(before, ids)
  {
    var n := |tickets| - 1;
    assert forall i :: 0 <= i < n ==> tickets[..n][i] == tickets[i];
    if tickets[n].tx.id in ids {
      if OnlyFromTheEnd(tickets[..n], ids) {
        forall i, j | 0 <= i < j < |tickets| && tickets[i].tx.id in ids ensures tickets[j].tx.id in ids {
          assert tickets[..n][i] == tickets[i] && (j < n ==> tickets[..n][j] == tickets[j]);
        }
      }
    } else if NoneListed(tickets[..n], ids) {
      forall i | 0 <= i < n ensures tickets[i].tx.id !in ids {
        assert tickets[..n][i] == tickets[i];
      }
    }
  }

  lemma PrefixOfPrefix(w: seq<Ticket>, tickets: seq<Ticket>)
    requires tickets != [] && |w| < |tickets|
    ensures w <= tickets <==> w <= tickets[..|tickets| - 1]
  {
    assert tickets[..|tickets| - 1][..|w|] == tickets[..|w|];
  }

  lemma LastAtTheEnd(tickets: seq<Ticket>, w: seq<Ticket>)
    requires tickets != [] && Ordered(tickets) && |w| < |tickets|
    requires |w| == |tickets| - 1 ==> w == tickets[..|w|]
    ensures w + [tickets[|tickets| - 1]] <= tickets <==> |w| == |tickets| - 1
  {
    var last := tickets[|tickets| - 1];
    if |w| == |tickets| - 1 {
      assert w + [last] == tickets;
    } else {
      assert (w + [last])[|w|] == last && tickets[|w|].no < last.no;
    }
  }

  lemma {:induction false} PrefixReplays<S>(v: Validator<S>, base: S, tickets: seq<Ticket>, slot: int, n: nat)
    requires n <= |tickets| && Replay(v, base, tickets, slot).Some?
    ensures Replay(v, base, tickets[..n], slot).Some?
    decreases |tickets|
  {
    if n < |tickets| {
      PrefixReplays(v, base, tickets[..|tickets| - 1], slot, n);
      assert tickets[..|tickets| - 1][..n] == tickets[..n];
    } else {
      assert tickets[..n] == tickets;
    }
  }

  /** Under every validator, what is left replays if only the end was taken out. */
  lemma TailRemovalReplays<S>(v: Validator<S>, base: S, tickets: seq<Ticket>, slot: int, ids: set<Id>)
    requires Ordered(tickets) && OnlyFromTheEnd(tickets, ids) && Replay(v, base, tickets, slot).Some?
    ensures Replay(v, base, Without(tickets, ids), slot).Some?
  {
    hide Replay, Ordered, OnlyFromTheEnd;
    PrefixSurvivesExactly(tickets, ids);
    var w := Without(tickets, ids);
    assert w == tickets[..|w|];
    PrefixReplays(v, base, tickets, slot, |w|);
  }

  /** A validator that takes exactly the given transactions, in this order. */
  function InOrderOf(tickets: seq<Ticket>): Validator<int> {
    Validator((s: int, tx: Bytes, slot: int) =>
                if 0 <= s < |tickets| && tickets[s].tx.cbor == tx then [] else ["out of order"],
              (s: int, tx: Bytes, slot: int) => s + 1)
  }

  /** A validator that takes everything and counts. */
  function Counting(): Validator<int> {
    Validator((s: int, tx: Bytes, slot: int) => [], (s: int, tx: Bytes, slot: int) => s + 1)
  }

  lemma {:induction false} InOrderReplays(tickets: seq<Ticket>, n: nat, slot: int)
    requires n <= |tickets|
    ensures Replay(InOrderOf(tickets), 0, tickets[..n], slot) == Some(n)
    decreases n
  {
    if n > 0 {
      InOrderReplays(tickets, n - 1, slot);
      assert tickets[..n][..n - 1] == tickets[..n - 1];
    }
  }

  lemma {:induction false} CountingReplays(tickets: seq<Ticket>, slot: int)
    ensures Replay(Counting(), 0, tickets, slot) == Some(|tickets|)
    decreases |tickets|
  {
    if tickets != [] {
      CountingReplays(tickets[..|tickets| - 1], slot);
    }
  }

  lemma {:induction false} FirstDifference(a: seq<Ticket>, b: seq<Ticket>) returns (m: nat)
    requires |a| <= |b| && !(a <= b)
    ensures m < |a| && a[..m] == b[..m] && a[m] != b[m]
  {
    m := 0;
    while m < |a| && a[m] == b[m]
      invariant m <= |a| && a[..m] == b[..m]
    {
      m := m + 1;
    }
  }

  lemma SameBytesSameTicket(tickets: seq<Ticket>, txId: Bytes -> Id, a: Ticket, b: Ticket)
    requires DistinctIds(tickets) && Measured(tickets, txId) && a in tickets && b in tickets && a.tx.cbor == b.tx.cbor
    ensures a == b
  {
    var i: nat :| i < |tickets| && tickets[i] == a;
    var j: nat :| j < |tickets| && tickets[j] == b;
  }

  /** If not only the end was taken out, some validator took the tickets and does
      not take what is left: the one that takes exactly these, in this order. */
  lemma GapBreaksReplay(tickets: seq<Ticket>, txId: Bytes -> Id, ids: set<Id>, slot: int)
    requires Ordered(tickets) && Measured(tickets, txId) && !OnlyFromTheEnd(tickets, ids)
    ensures Replay(InOrderOf(tickets), 0, tickets, slot) == Some(|tickets|)
    ensures Replay(InOrderOf(tickets), 0, Without(tickets, ids), slot) == None
  {
    hide Replay, OnlyFromTheEnd, NoneListed, Without, Measured;
    InOrderReplays(tickets, |tickets|, slot);
    assert tickets[..|tickets|] == tickets;
    PrefixSurvivesExactly(tickets, ids);
    WithoutAllExactly(tickets, ids);
    WithoutHolds(tickets, ids);
    var w := Without(tickets, ids);
    var m := FirstDifference(w, tickets);
    assert w[m] in w && tickets[m] in tickets;
    if w[m].tx.cbor == tickets[m].tx.cbor {
      SameBytesSameTicket(tickets, txId, w[m], tickets[m]);
    }
    NotTaken(tickets, w, m, slot);
  }

  lemma NotTaken(tickets: seq<Ticket>, w: seq<Ticket>, m: nat, slot: int)
    requires m < |w| && m < |tickets| && w[..m] == tickets[..m] && w[m].tx.cbor != tickets[m].tx.cbor
    ensures Replay(InOrderOf(tickets), 0, w, slot) == None
  {
    hide Replay;
    StopsAt(tickets, w, m, slot);
    if Replay(InOrderOf(tickets), 0, w, slot).Some? {
      PrefixReplays(InOrderOf(tickets), 0, w, slot, m + 1);
    }
  }

  lemma StopsAt(tickets: seq<Ticket>, w: seq<Ticket>, m: nat, slot: int)
    requires m < |w| && m < |tickets| && w[..m] == tickets[..m] && w[m].tx.cbor != tickets[m].tx.cbor
    ensures Replay(InOrderOf(tickets), 0, w[..m + 1], slot) == None
  {
    InOrderReplays(tickets, m, slot);
    assert w[..m + 1][..m] == w[..m];
  }

  /** What a removal keeps, for whatever validator is behind the mempool: the
      remaining tickets replay exactly when only the end was taken out, and the
      validator's state is still theirs exactly when nothing was. */
  lemma RemovalKeepsReplayExactly(tickets: seq<Ticket>, txId: Bytes -> Id, ids: set<Id>)
    requires Ordered(tickets) && Measured(tickets, txId)
    ensures (forall v: Validator<int>, base: int, slot: int :: Replay(v, base, tickets, slot).Some?
               ==> Replay(v, base, Without(tickets, ids), slot).Some?)
            <==> OnlyFromTheEnd(tickets, ids)
    ensures (forall v: Validator<int>, base: int, slot: int :: Replay(v, base, tickets, slot).Some?
               ==> Replay(v, base, Without(tickets, ids), slot) == Replay(v, base, tickets, slot))
            <==> NoneListed(tickets, ids)
  {
    hide Replay, Ordered, Measured, OnlyFromTheEnd, NoneListed, Without;
    if OnlyFromTheEnd(tickets, ids) {
      forall v: Validator<int>, base: int, slot: int | Replay(v, base, tickets, slot).Some?
        ensures Replay(v, base, Without(tickets, ids), slot).Some?
      {
        TailRemovalReplays(v, base, tickets, slot, ids);
      }
    } else {
      GapBreaksReplay(tickets, txId, ids, 0);
    }
    WithoutAllExactly(tickets, ids);
    if !NoneListed(tickets, ids) {
      CountingReplays(tickets, 0);
      CountingReplays(Without(tickets, ids), 0);
    }
  }

  /** What a removal of `ids` keeps of the replay: all of it when nothing was removed,
      and that the rest replays when only the end was. */
  ghost predicate KeptReplay<S(!new)>(v: Validator<S>, state: S, before: seq<Ticket>, after: seq<Ticket>, slot: int, ids: set<Id>) {
    && (OnlyFromTheEnd(before, ids) ==>
          forall base: S :: Replay(v, base, before, slot) == Some(state) ==> Replay(v, base, after, slot).Some?)
    && (NoneListed(before, ids) ==>
          forall base: S :: Replay(v, base, before, slot) == Some(state) ==> Replay(v, base, after, slot) == Some(state))
  }

  lemma RemovalKeepsReplay<S(!new)>(v: Validator<S>, state: S, tickets: seq<Ticket>, slot: int, ids: set<Id>)
    requires Ordered(tickets)
    ensures KeptReplay(v, state, tickets, Without(tickets, ids), slot, ids)
  {
    hide Replay, Ordered, OnlyFromTheEnd, NoneListed, Without;
    WithoutAllExactly(tickets, ids);
    if OnlyFromTheEnd(tickets, ids) {
      forall base: S | Replay(v, base, tickets, slot) == Some(state)
        ensures Replay(v, base, Without(tickets, ids), slot).Some?
      {
        TailRemovalReplays(v, base, tickets, slot, ids);
      }
    }
  }

  /** When insertion slots ascend with the tickets, evictions come off the front: an
      eviction keeps replay for every validator only if it takes all or nothing. */
  lemma EvictionsComeFirst(tickets: seq<Ticket>, addedAt: map<Id, int>, slot: int, timeout: int)
    requires forall t <- tickets :: t.tx.id in addedAt
    requires forall i, j :: 0 <= i < j < |tickets| ==> addedAt[tickets[i].tx.id] <= addedAt[tickets[j].tx.id]
    requires Ordered(tickets)
    ensures var ids := Expired(tickets, addedAt, slot, timeout);
            OnlyFromTheEnd(tickets, ids) <==> NoneListed(tickets, ids) || forall t <- tickets :: t.tx.id in ids
  {
    var ids := Expired(tickets, addedAt, slot, timeout);
    forall i | 0 <= i < |tickets|
      ensures tickets[i].tx.id in ids <==> slot - addedAt[tickets[i].tx.id] >= timeout
    {
      assert tickets[i] in tickets;
    }
    if OnlyFromTheEnd(tickets, ids) && !NoneListed(tickets, ids) {
      var k :| 0 <= k < |tickets| && tickets[k].tx.id in ids;
      forall t <- tickets ensures t.tx.id in ids {
        var j :| 0 <= j < |tickets| && tickets[j] == t;
      }
    }
  }

  // ----- The object -------------------------------------------------------------------------------

  class Mempool<S(!new)> {
    const capacity: int
    const timeout: Option<int>
    const validator: Validator<S>
    const txId: Bytes -> Id
    /** The validator's cached state. */
    var state: S
    var currentSlot: int
    var tickets: seq<Ticket>
    var index: map<Id, Ticket>
    var totalSize: int
    var nextTicketNo: nat
    var addedAt: map<Id, int>

    ghost predicate Valid()
      reads this
    {
      Consistent(tickets, index, addedAt, totalSize, nextTicketNo, capacity, txId)
    }

    /** The cached state is the base state plus the tickets, in order. */
    ghost predicate Replays(base: S)
      reads this
    {
      Replay(validator, base, tickets, currentSlot) == Some(state)
    }

    constructor (capacity: int, timeout: Option<int>, validator: Validator<S>, txId: Bytes -> Id, state: S, slot: int)
      requires capacity >= 0
      ensures Valid() && Replays(state) && tickets == [] && nextTicketNo == 0
      ensures this.capacity == capacity && this.timeout == timeout && this.validator == validator
      ensures this.txId == txId && this.state == state && currentSlot == slot
    {
      this.capacity, this.timeout, this.validator, this.txId := capacity, timeout, validator, txId;
      this.state, currentSlot := state, slot;
      tickets, index, totalSize, nextTicketNo, addedAt := [], map[], 0, 0, map[];
    }

    /** Duplicates, lack of room and validation errors are looked for in this order
        and change nothing; otherwise the transaction gets the next number. What
        replayed from some base state still does. */
    method AddTx(cbor: Bytes) returns (result: AddResult)
      requires Valid()
      modifies this
      ensures Valid() && currentSlot == old(currentSlot)
      ensures result == if txId(cbor) in old(index) then Duplicate(txId(cbor))
                        else if old(totalSize) + |cbor| > capacity then Full(|cbor|, capacity - old(totalSize))
                        else if validator.errors(old(state), cbor, currentSlot) != []
                        then Invalid(txId(cbor), validator.errors(old(state), cbor, currentSlot))
                        else Added(ValidatedTx(cbor, txId(cbor), |cbor|))
      ensures !result.Added? ==> unchanged(this)
      ensures result.Added? ==>
                && tickets == old(tickets) + [Ticket(result.tx, old(nextTicketNo))] && nextTicketNo == old(nextTicketNo) + 1
                && index == old(index)[result.tx.id := Ticket(result.tx, old(nextTicketNo))]
                && addedAt == old(addedAt)[result.tx.id := currentSlot]
                && totalSize == old(totalSize) + |cbor|
                && state == validator.apply(old(state), cbor, currentSlot)
      ensures forall base: S :: old(Replays(base)) ==> Replays(base)
    {
      hide Consistent;
      var id := txId(cbor);
      if id in index {
        return Duplicate(id);
      }
      if totalSize + |cbor| > capacity {
        return Full(|cbor|, capacity - totalSize);
      }
      var errors := validator.errors(state, cbor, currentSlot);
      if errors != [] {
        return Invalid(id, errors);
      }
      ConsistentSnoc(tickets, index, addedAt, totalSize, nextTicketNo, capacity, txId, cbor, currentSlot);
      state := validator.apply(state, cbor, currentSlot);
      var tx := ValidatedTx(cbor, id, |cbor|);
      var ticket := Ticket(tx, nextTicketNo);
      forall base: S { ReplayMore(validator, base, tickets, currentSlot, ticket); }
      nextTicketNo := nextTicketNo + 1;
      tickets := tickets + [ticket];
      index := index[id := ticket];
      totalSize := totalSize + |cbor|;
      addedAt := addedAt[id := currentSlot];
      result := Added(tx);
    }

    /** The loop that both kinds of removal share: listed tickets leave the index
        and the size, the others are collected in order. */
    method TakeOut(ids: set<Id>) returns (kept: seq<Ticket>, dropped: seq<Id>)
      modifies this`index, this`addedAt, this`totalSize
      ensures kept == Without(tickets, ids) && dropped == Listed(tickets, ids)
      ensures index == old(index) - Gone(tickets, ids) && addedAt == old(addedAt) - Gone(tickets, ids)
      ensures totalSize == old(totalSize) - Size(tickets) + Size(kept)
    {
      hide Without, Gone, Size, Listed;
      NothingGone(ids);
      kept, dropped := [], [];
      for i := 0 to |tickets|
        invariant kept == Without(tickets[..i], ids) && dropped == Listed(tickets[..i], ids)
        invariant index == old(index) - Gone(tickets[..i], ids)
        invariant addedAt == old(addedAt) - Gone(tickets[..i], ids)
        invariant totalSize == old(totalSize) - Size(tickets[..i]) + Size(kept)
      {
        TakeStep(tickets, i, ids);
        var id := tickets[i].tx.id;
        if id in ids {
          MinusMore(old(index), Gone(tickets[..i], ids), id);
          MinusMore(old(addedAt), Gone(tickets[..i], ids), id);
          index := index - {id};
          addedAt := addedAt - {id};
          totalSize := totalSize - tickets[i].tx.size;
          dropped := dropped + [id];
        } else {
          kept := kept + [tickets[i]];
        }
      }
      assert tickets[..|tickets|] == tickets;
    }

    /** Removes exactly the listed transactions, keeping the order of the others,
        and reports them. The validator's state is not rewound. */
    method RemoveListed(ids: set<Id>) returns (dropped: seq<Id>)
      requires Valid()
      modifies this`tickets, this`index, this`addedAt, this`totalSize
      ensures Valid()
      ensures tickets == Without(old(tickets), ids) && dropped == Listed(old(tickets), ids)
      ensures |dropped| == |old(tickets)| - |tickets|
      ensures index == old(index) - ids && addedAt == old(addedAt) - ids && totalSize == Size(tickets)
    {
      ConsistentWithout(tickets, index, addedAt, totalSize, nextTicketNo, capacity, txId, ids);
      IndexMinus(tickets, index, addedAt, ids);
      ListedCounts(tickets, ids);
      hide Without, Gone, Size, Listed;
      var kept: seq<Ticket>;
      kept, dropped := TakeOut(ids);
      tickets := kept;
    }

    /** Removes exactly the listed transactions. What is left still replays if nothing
        stays behind a removed one; `RemovalKeepsReplayExactly` says that otherwise
        it need not. */
    method RemoveTxs(ids: set<Id>) returns (removed: nat)
      requires Valid()
      modifies this`tickets, this`index, this`addedAt, this`totalSize
      ensures Valid()
      ensures tickets == Without(old(tickets), ids) && removed == |old(tickets)| - |tickets|
      ensures forall t :: t in tickets <==> t in old(tickets) && t.tx.id !in ids
      ensures index == old(index) - ids && addedAt == old(addedAt) - ids && totalSize == Size(tickets)
      ensures KeptReplay(validator, state, old(tickets), tickets, currentSlot, ids)
    {
      WithoutHolds(tickets, ids);
      hide Consistent, Without, Ordered, Size, KeptReplay;
      ConsistentMeans(tickets, index, addedAt, totalSize, nextTicketNo, capacity, txId);
      RemovalKeepsReplay(validator, state, tickets, currentSlot, ids);
      var dropped := RemoveListed(ids);
      removed := |dropped|;
    }

    method FindExpired(slot: int, timeout: int) returns (ids: set<Id>)
      ensures ids == Expired(tickets, addedAt, slot, timeout)
    {
      ids := {};
      for i := 0 to |tickets|
        invariant ids == Expired(tickets[..i], addedAt, slot, timeout)
      {
        ExpiredStep(tickets, addedAt, slot, timeout, i);
        var id := tickets[i].tx.id;
        var added := if id in addedAt then addedAt[id] else 0;
        if slot - added >= timeout {
          ids := ids + {id};
        }
      }
      assert tickets[..|tickets|] == tickets;
    }

    method Evict(ids: set<Id>) returns (evicted: seq<Id>)
      requires Valid()
      modifies this`tickets, this`index, this`addedAt, this`totalSize
      ensures Valid()
      ensures evicted == Listed(old(tickets), ids) && tickets == Without(old(tickets), ids)
      ensures index == old(index) - ids && addedAt == old(addedAt) - ids && totalSize == Size(tickets)
      ensures KeptReplay(validator, state, old(tickets), tickets, currentSlot, ids)
    {
      ConsistentMeans(tickets, index, addedAt, totalSize, nextTicketNo, capacity, txId);
      RemovalKeepsReplay(validator, state, tickets, currentSlot, ids);
      hide Consistent, Without, Listed, Ordered, Size, KeptReplay;
      if ids == {} {
        NothingTaken(tickets);
        MinusNothing(index);
        MinusNothing(addedAt);
        return [];
      }
      evicted := RemoveListed(ids);
    }

    /** Evicts exactly the transactions that were inserted at least `timeout` slots
        ago, and reports them in order; without a timeout it does nothing. */
    method EvictExpired(slot: int) returns (evicted: seq<Id>)
      requires Valid()
      modifies this`tickets, this`index, this`addedAt, this`totalSize
      ensures Valid()
      ensures timeout.None? ==> evicted == [] && unchanged(this)
      ensures timeout.Some? ==>
                var ids := Expired(old(tickets), old(addedAt), slot, timeout.value);
                && evicted == Listed(old(tickets), ids) && tickets == Without(old(tickets), ids)
                && index == old(index) - ids && addedAt == old(addedAt) - ids && totalSize == Size(tickets)
                && KeptReplay(validator, state, old(tickets), tickets, currentSlot, ids)
      ensures timeout.Some? ==>
                && (forall t <- old(tickets) :: t.tx.id in old(addedAt))
                && (forall t :: t in tickets <==> t in old(tickets) && slot - old(addedAt)[t.tx.id] < timeout.value)
                && (forall id :: id in evicted <==> exists t :: t in old(tickets) && t !in tickets && t.tx.id == id)
    {
      if timeout.None? {
        return [];
      }
      EvictionMeans(tickets, index, addedAt, totalSize, nextTicketNo, capacity, txId, slot, timeout.value);
      hide Consistent, Without, Listed, Expired, Size, KeptReplay;
      var ids := FindExpired(slot, timeout.value);
      evicted := Evict(ids);
    }

    /** Revalidation in ticket order: the validator's state is advanced by every
        survivor, the others leave the index. */
    method Revalidate(slot: int) returns (surviving: seq<Ticket>, removed: seq<Id>, size: nat)
      modifies this`state, this`index, this`addedAt
      ensures (state, surviving, removed) == Greedy(validator, old(state), tickets, slot)
      ensures index == old(index) - IdSet(removed) && addedAt == old(addedAt) - IdSet(removed)
      ensures size == Size(surviving)
    {
      hide Greedy, Size, IdSet;
      GreedyNothing(validator, state, slot);
      surviving, removed, size := [], [], 0;
      for i := 0 to |tickets|
        invariant (state, surviving, removed) == Greedy(validator, old(state), tickets[..i], slot)
        invariant index == old(index) - IdSet(removed) && addedAt == old(addedAt) - IdSet(removed)
        invariant size == Size(surviving)
      {
        var t := tickets[i];
        GreedyStep(validator, old(state), tickets, slot, i);
        if validator.errors(state, t.tx.cbor, slot) != [] {
          IdSetMore(removed, t.tx.id);
          MinusMore(old(index), IdSet(removed), t.tx.id);
          MinusMore(old(addedAt), IdSet(removed), t.tx.id);
          index := index - {t.tx.id};
          addedAt := addedAt - {t.tx.id};
          removed := removed + [t.tx.id];
        } else {
          SizeMore(surviving, t);
          state := validator.apply(state, t.tx.cbor, slot);
          surviving := surviving + [t];
          size := size + t.tx.size;
        }
      }
      assert tickets[..|tickets|] == tickets;
    }

    /** With the validator reset to the new ledger state, the mempool keeps exactly
        what greedy replay from that state keeps, and the validator ends in the
        replayed state. Nothing is removed exactly when everything still replays. */
    method SyncWithLedger(slot: int) returns (removed: seq<Id>)
      requires Valid()
      modifies this`state, this`currentSlot, this`tickets, this`index, this`totalSize, this`addedAt
      ensures Valid() && currentSlot == slot && Replays(old(state))
      ensures (state, tickets, removed) == Greedy(validator, old(state), old(tickets), slot)
      ensures index == old(index) - IdSet(removed) && addedAt == old(addedAt) - IdSet(removed)
      ensures totalSize == Size(tickets)
      ensures removed == [] <==> Replay(validator, old(state), old(tickets), slot).Some?
      ensures removed == [] ==> tickets == old(tickets)
    {
      hide Greedy, Replay, Size, IdSet, Consistent;
      SyncFacts(validator, state, tickets, slot, index, addedAt, totalSize, nextTicketNo, capacity, txId);
      currentSlot := slot;
      var surviving: seq<Ticket>, size: nat;
      surviving, removed, size := Revalidate(slot);
      tickets := surviving;
      totalSize := size;
    }

    /** The longest prefix that fits into a block. */
    method GetTxsForBlock(maxSize: int) returns (txs: seq<ValidatedTx>)
      ensures txs == Txs(tickets[..Fitting(tickets, maxSize)])
      ensures |txs| <= |tickets| && forall i :: 0 <= i < |txs| ==> txs[i] == tickets[i].tx
      ensures |txs| > 0 ==> Size(tickets[..|txs|]) <= maxSize
      ensures forall m :: |txs| < m <= |tickets| ==> Size(tickets[..m]) > maxSize
    {
      FittingIsLongest(tickets, maxSize);
      txs := [];
      var running := 0;
      for i := 0 to |tickets|
        invariant txs == Txs(tickets[..i]) && running == Size(tickets[..i]) && Fitting(tickets[..i], maxSize) == i
      {
        assert tickets[..i + 1][..i] == tickets[..i];
        if running + tickets[i].tx.size > maxSize {
          FittingStops(tickets, i, maxSize);
          break;
        }
        txs := txs + [tickets[i].tx];
        running := running + tickets[i].tx.size;
      }
      assert tickets[..|tickets|] == tickets;
    }

    method SplitBySize(maxSize: int) returns (prefix: seq<Ticket>, suffix: seq<Ticket>)
      ensures (prefix, suffix) == Split(tickets, maxSize)
    {
      prefix, suffix := [], [];
      var running := 0;
      for i := 0 to |tickets|
        invariant (prefix, suffix) == Split(tickets[..i], maxSize) && running == Size(prefix)
      {
        assert tickets[..i + 1][..i] == tickets[..i];
        SizeMore(prefix, tickets[i]);
        if running + tickets[i].tx.size <= maxSize {
          prefix := prefix + [tickets[i]];
          running := running + tickets[i].tx.size;
        } else {
          suffix := suffix + [tickets[i]];
        }
      }
      assert tickets[..|tickets|] == tickets;
    }
  }

  /** After a sync, any number of submissions and a reset of the validator to the
      same base, syncing again at the same slot removes nothing. */
  method AddAllThenResync<S(!new)>(m: Mempool<S>, base: S, txs: seq<Bytes>) returns (removed: seq<Id>)
    requires m.Valid() && m.Replays(base)
    modifies m
    ensures removed == [] && m.Valid() && m.Replays(base)
    ensures |m.tickets| >= |old(m.tickets)| && m.tickets[..|old(m.tickets)|] == old(m.tickets)
  {
    hide Consistent, Replay;
    for i := 0 to |txs|
      invariant m.Valid() && m.Replays(base)
      invariant |m.tickets| >= |old(m.tickets)| && m.tickets[..|old(m.tickets)|] == old(m.tickets)
    {
      var result := m.AddTx(txs[i]);
    }
    m.state := base;
    removed := m.SyncWithLedger(m.currentSlot);
  }

  /** A mempool with any consistent contents and a validator that has taken them. */
  method Holding<S(!new)>(tickets: seq<Ticket>, index: map<Id, Ticket>, addedAt: map<Id, int>, next: nat, capacity: nat,
                          txId: Bytes -> Id, timeout: Option<int>, validator: Validator<S>, state: S) returns (m: Mempool<S>)
    requires Consistent(tickets, index, addedAt, Size(tickets), next, capacity, txId)
    ensures fresh(m) && m.Valid() && m.tickets == tickets && m.txId == txId
    ensures m.index == index && m.addedAt == addedAt && m.timeout == timeout
    ensures m.validator == validator && m.state == state && m.currentSlot == 0
  {
    hide Consistent, Replay, Size;
    m := new Mempool<S>(capacity, timeout, validator, txId, state, 0);
    m.tickets, m.index, m.addedAt, m.totalSize, m.nextTicketNo := tickets, index, addedAt, Size(tickets), next;
  }

  /** The gap on the object itself: any contents, with a validator that has taken
      them, and a removal that does not only take the end. What `RemoveTxs` leaves
      does not replay. */
  method RemoveLeavesGap(tickets: seq<Ticket>, index: map<Id, Ticket>, addedAt: map<Id, int>, next: nat, capacity: nat,
                         txId: Bytes -> Id, ids: set<Id>) returns (m: Mempool<int>)
    requires Consistent(tickets, index, addedAt, Size(tickets), next, capacity, txId) && !OnlyFromTheEnd(tickets, ids)
    ensures fresh(m) && m.Valid() && m.currentSlot == 0 && m.tickets == Without(tickets, ids)
    ensures Replay(m.validator, 0, tickets, 0) == Some(m.state)
    ensures Replay(m.validator, 0, m.tickets, 0) == None
  {
    GapBreaksReplay(tickets, txId, ids, 0);
    hide Consistent, OnlyFromTheEnd, Replay, Without, KeptReplay, InOrderOf;
    m := Holding(tickets, index, addedAt, next, capacity, txId, None, InOrderOf(tickets), |tickets|);
    var removed := m.RemoveTxs(ids);
  }

  /** The same for evictions: one that leaves a ticket behind an expired one. */
  method EvictLeavesGap(tickets: seq<Ticket>, index: map<Id, Ticket>, addedAt: map<Id, int>, next: nat, capacity: nat,
                        txId: Bytes -> Id, slot: int, timeout: int) returns (m: Mempool<int>)
    requires Consistent(tickets, index, addedAt, Size(tickets), next, capacity, txId)
    requires !OnlyFromTheEnd(tickets, Expired(tickets, addedAt, slot, timeout))
    ensures fresh(m) && m.Valid() && m.currentSlot == 0
    ensures m.tickets == Without(tickets, Expired(tickets, addedAt, slot, timeout))
    ensures Replay(m.validator, 0, tickets, 0) == Some(m.state)
    ensures Replay(m.validator, 0, m.tickets, 0) == None
  {
    GapBreaksReplay(tickets, txId, Expired(tickets, addedAt, slot, timeout), 0);
    hide Consistent, OnlyFromTheEnd, Replay, Without, KeptReplay, InOrderOf, Expired, Listed;
    m := Holding(tickets, index, addedAt, next, capacity, txId, Some(timeout), InOrderOf(tickets), |tickets|);
    var evicted := m.EvictExpired(slot);
  }

  /** Something further back fits: of sizes 3 and 1, a split at 2 takes the second. */
  lemma SplitCanSkip()
    ensures var big, small := Ticket(ValidatedTx([0, 0, 0], 0, 3), 0), Ticket(ValidatedTx([0], 1, 1), 1);
            Split([big, small], 2) == ([small], [big]) && !NothingElseFits([big, small], 2)
  {
    var big, small := Ticket(ValidatedTx([0, 0, 0], 0, 3), 0), Ticket(ValidatedTx([0], 1, 1), 1);
    SplitMore([], big, 2);
    SplitMore([big], small, 2);
    assert [] + [big] == [big] && [big] + [small] == [big, small] && [] + [small] == [small];
    SplitIsAPrefixExactly([big, small], 2);
    assert [small][0] != [big, small][0];
  }
}
