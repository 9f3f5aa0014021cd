// Slot and epoch arithmetic over a hard-fork timeline: eras with different epoch
// lengths, several of which may start at the same epoch.

module Hfc {
  datatype Option<+T> = None | Some(value: T)

  type Era = e: int | 0 <= e < 7

  const BYRON: Era := 0
  const ERAS := 7

  datatype Start = Start(era: Era, epoch: int)

  /** `lengths` holds the epoch lengths that override the defaults. */
  datatype Config = Config(transitions: map<Era, int>, lengths: map<Era, int>, safeZone: Option<int>)

  datatype Answer = Value(value: int) | Negative | PastHorizon(requested: int, horizon: int)

  function DefaultLength(era: Era): int {
    if era == BYRON then 21600 else 432000
  }

  function Length(c: Config, era: Era): int {
    if era in c.lengths then c.lengths[era] else DefaultLength(era)
  }

  /** Byron starts at epoch 0, which every configuration object guarantees, and
      epochs last at least one slot. */
  predicate Usable(c: Config) {
    && BYRON in c.transitions && c.transitions[BYRON] == 0
    && forall era: Era :: Length(c, era) > 0
  }

  /** No era starts before Byron. */
  predicate FromByron(c: Config) {
    Usable(c) && forall era <- c.transitions :: c.transitions[era] >= 0
  }

  // ----- Eras in order ---------------------------------------------------------------

  predicate Before(x: Start, y: Start) {
    x.epoch < y.epoch || (x.epoch == y.epoch && x.era < y.era)
  }

  ghost predicate Sorted(starts: seq<Start>) {
    forall i, j :: 0 <= i < j < |starts| ==> Before(starts[i], starts[j])
  }

  function Insert(starts: seq<Start>, x: Start): seq<Start> {
    if starts == [] || Before(x, starts[0]) then [x] + starts
    else [starts[0]] + Insert(starts[1..], x)
  }

  function SortFirst(transitions: map<Era, int>, n: nat): seq<Start>
    requires n <= ERAS
  {
    if n == 0 then []
    else if n - 1 in transitions then Insert(SortFirst(transitions, n - 1), Start(n - 1, transitions[n - 1]))
    else SortFirst(transitions, n - 1)
  }

  /** The transitions sorted by start epoch, then by era. */
  function SortedEras(c: Config): seq<Start> {
    SortFirst(c.transitions, ERAS)
  }

  lemma {:induction false} InsertSorts(starts: seq<Start>, x: Start)
    requires Sorted(starts) && forall y <- starts :: y.era != x.era
    ensures Sorted(Insert(starts, x))
    ensures forall y :: y in Insert(starts, x) <==> y in starts || y == x
  {
    if starts == [] || Before(x, starts[0]) {
      assert forall i | 0 < i < |starts| :: Before(starts[0], starts[i]);
    } else {
      var rest := Insert(starts[1..], x);
      assert starts == [starts[0]] + starts[1..];
      assert forall i | 0 <= i < |starts| - 1 :: starts[1..][i] == starts[i + 1];
      InsertSorts(starts[1..], x);
      forall i | 0 <= i < |rest| ensures Before(starts[0], rest[i]) {
        assert rest[i] in rest;
      }
    }
  }

  lemma {:induction false} SortFirstSorts(transitions: map<Era, int>, n: nat)
    requires n <= ERAS
    ensures Sorted(SortFirst(transitions, n))
    ensures forall s :: s in SortFirst(transitions, n)
                        <==> s.era < n && s.era in transitions && s.epoch == transitions[s.era]
  {
    if n > 0 {
      SortFirstSorts(transitions, n - 1);
      if n - 1 in transitions {
        InsertSorts(SortFirst(transitions, n - 1), Start(n - 1, transitions[n - 1]));
      }
    }
  }

  lemma SameEmptiness(a: seq<Start>, b: seq<Start>)
    requires forall s :: s in a <==> s in b
    ensures a == [] <==> b == []
  {
    assert a != [] ==> a[0] in a;
    assert b != [] ==> b[0] in b;
  }

  /** The order is that of Python's `sorted`: any sorted list of the same
      transitions is this one. */
  lemma {:induction false} SortedIsUnique(a: seq<Start>, b: seq<Start>)
    requires Sorted(a) && Sorted(b) && forall s :: s in a <==> s in b
    ensures a == b
  {
    SameEmptiness(a, b);
    if a != [] {
      assert a[0] in a && a[0] in b;
      assert b[0] in b && b[0] in a;
      assert a[0] == b[0];
      assert a == [a[0]] + a[1..] && b == [b[0]] + b[1..];
      assert forall i | 0 < i < |a| :: a[i] == a[1..][i - 1] && Before(a[0], a[i]);
      assert forall i | 0 < i < |b| :: b[i] == b[1..][i - 1] && Before(b[0], b[i]);
      forall s ensures s in a[1..] <==> s in b[1..] {
        assert s in a[1..] ==> s != a[0] && s in a;
        assert s in b[1..] ==> s != b[0] && s in b;
      }
      SortedIsUnique(a[1..], b[1..]);
    }
  }

  lemma SortedErasAre(c: Config)
    ensures Sorted(SortedEras(c))
    ensures forall s :: s in SortedEras(c) <==> s.era in c.transitions && s.epoch == c.transitions[s.era]
  {
    SortFirstSorts(c.transitions, ERAS);
  }

  // ----- The timeline -------------------------------------------------------------------

  /** Slots from the start of one era to the start of the next. */
  function Segment(c: Config, a: Start, b: Start): int {
    Span(b.epoch - a.epoch, Length(c, a.era))
  }

  /** The whole epochs in a number of slots. */
  function Whole(slots: int, length: int): int
    requires length != 0
  {
    slots / length
  }

  /** The slots of a number of epochs. */
  function Span(epochs: int, length: int): int {
    epochs * length
  }

  /** The first slot of the i-th era: the slots of all segments before it. */
  function StartSlot(c: Config, starts: seq<Start>, i: nat): int
    requires i < |starts|
  {
    if i == 0 then 0 else StartSlot(c, starts, i - 1) + Segment(c, starts[i - 1], starts[i])
  }

  /** The first n eras with their first slots. */
  function Marks(c: Config, starts: seq<Start>, n: nat): seq<(Era, int)>
    requires n <= |starts|
  {
    if n == 0 then [] else Marks(c, starts, n - 1) + [(starts[n - 1].era, StartSlot(c, starts, n - 1))]
  }

  lemma {:induction false} MarksAt(c: Config, starts: seq<Start>, n: nat)
    requires n <= |starts|
    ensures |Marks(c, starts, n)| == n
    ensures forall i :: 0 <= i < n ==> Marks(c, starts, n)[i] == (starts[i].era, StartSlot(c, starts, i))
  {
    hide StartSlot;
    if n > 0 {
      MarksAt(c, starts, n - 1);
    }
  }

  method EraStartSlots(c: Config) returns (slots: seq<(Era, int)>)
    ensures slots == Marks(c, SortedEras(c), |SortedEras(c)|)
  {
    hide SortFirst, Segment;
    var starts := SortedEras(c);
    slots := [];
    var cumulative := 0;
    for i := 0 to |starts|
      invariant slots == Marks(c, starts, i)
      invariant cumulative == if i == 0 then 0 else StartSlot(c, starts, i - 1)
    {
      if i == 0 {
        slots := slots + [(starts[i].era, 0)];
      } else {
        cumulative := cumulative + Segment(c, starts[i - 1], starts[i]);
        slots := slots + [(starts[i].era, cumulative)];
      }
    }
  }

  /** How many values from the front are reached by x before the first that is not. */
  function Reached(values: seq<int>, x: int): (n: nat)
    ensures n <= |values|
    ensures forall i :: 0 <= i < n ==> values[i] <= x
    ensures n < |values| ==> x < values[n]
  {
    if values == [] || x < values[0] then 0 else 1 + Reached(values[1..], x)
  }

  function Epochs(starts: seq<Start>): seq<int> {
    seq(|starts|, i requires 0 <= i < |starts| => starts[i].epoch)
  }

  function Slots(c: Config, starts: seq<Start>): seq<int> {
    seq(|starts|, i requires 0 <= i < |starts| => StartSlot(c, starts, i))
  }

  /** The index of the last era reached, or 0 when none is. */
  function LastReached(values: seq<int>, x: int): (k: nat)
    requires |values| > 0
    ensures k < |values|
  {
    var n := Reached(values, x);
    if n == 0 then 0 else n - 1
  }

  function EpochIn(c: Config, starts: seq<Start>, slot: int): int
    requires Usable(c) && starts != []
  {
    var k := LastReached(Slots(c, starts), slot);
    starts[k].epoch + Whole(slot - StartSlot(c, starts, k), Length(c, starts[k].era))
  }

  function SlotIn(c: Config, starts: seq<Start>, epoch: int): int
    requires Usable(c) && starts != []
  {
    var n, k := Reached(Epochs(starts), epoch), LastReached(Epochs(starts), epoch);
    var startEpoch := if n == 0 then 0 else starts[k].epoch;
    StartSlot(c, starts, k) + Span(epoch - startEpoch, Length(c, starts[k].era))
  }

  lemma HasByron(c: Config)
    requires Usable(c)
    ensures SortedEras(c) != []
  {
    hide SortedEras;
    SortedErasAre(c);
    assert Start(BYRON, 0) in SortedEras(c);
  }

  /** The epoch of a slot. */
  function EpochAt(c: Config, slot: int): int
    requires Usable(c)
  {
    HasByron(c);
    EpochIn(c, SortedEras(c), slot)
  }

  /** The first slot of an epoch. */
  function SlotAt(c: Config, epoch: int): int
    requires Usable(c)
  {
    HasByron(c);
    SlotIn(c, SortedEras(c), epoch)
  }

  function EraAtSlot(c: Config, slot: int): Era {
    var starts := SortedEras(c);
    var n := Reached(Slots(c, starts), slot);
    if n == 0 then BYRON else starts[n - 1].era
  }

  function EraAtEpoch(c: Config, epoch: int): Era {
    var starts := SortedEras(c);
    var n := Reached(Epochs(starts), epoch);
    if n == 0 then BYRON else starts[n - 1].era
  }

  // ----- Arithmetic ----------------------------------------------------------------------

  lemma Quotient(x: nat, l: int)
    requires l > 0
    ensures x / l >= 0 && x / l * l <= x < (x / l + 1) * l
  {}

  lemma MultipleQuotient(q: nat, l: int)
    requires l > 0
    ensures q * l >= 0 && q * l / l == q
  {
    MulAtLeast(0, q, l);
    var p := q * l / l;
    Quotient(q * l, l);
    assert (p + 1) * l == p * l + l;
    if p < q {
      MulLess(p, q, l);
    } else if p > q {
      MulLess(q, p, l);
    }
  }

  lemma MulLess(a: int, b: int, l: int)
    requires a < b && l > 0
    ensures a * l + l <= b * l
  {
    assert (b - a - 1) * l >= 0;
    assert (b - a - 1) * l == b * l - a * l - l;
  }

  lemma QuotientBelow(x: nat, b: int, l: int)
    requires l > 0 && x < b * l
    ensures x / l < b
  {
    Quotient(x, l);
    if x / l >= b {
      MulAtLeast(b, x / l, l);
    }
  }

  lemma MulAtLeast(a: int, b: int, l: int)
    requires a <= b && l > 0
    ensures a * l <= b * l
  {
    if a < b {
      MulLess(a, b, l);
    }
  }

  /** A slot within the segment that starts at `start` with epoch `first`. */
  lemma WithinEpoch(slot: int, start: int, first: int, l: int, epoch: int)
    requires l > 0 && slot >= start && epoch == first + Whole(slot - start, l)
    ensures first <= epoch && start + Span(epoch - first, l) <= slot < start + Span(epoch + 1 - first, l)
  {
    Quotient(slot - start, l);
  }

  lemma BeforeNext(slot: int, start: int, first: int, next: int, l: int)
    requires l > 0 && start <= slot < start + Span(next - first, l)
    ensures first <= first + Whole(slot - start, l) < next
  {
    Quotient(slot - start, l);
    QuotientBelow(slot - start, next - first, l);
  }

  lemma SlotBeforeNext(start: int, first: int, epoch: int, next: int, l: int)
    requires l > 0 && first <= epoch < next
    ensures start + Span(epoch - first, l) < start + Span(next - first, l)
  {
    MulLess(epoch - first, next - first, l);
  }

  lemma SlotAfterStart(start: int, first: int, epoch: int, l: int)
    requires l > 0 && first <= epoch
    ensures start <= start + Span(epoch - first, l)
  {
    MulAtLeast(0, epoch - first, l);
  }

  // ----- The two conversions are a Galois pair ----------------------------------------------

  /** What sorting gives: ascending epochs, ties allowed, and no era twice. */
  ghost predicate InOrder(starts: seq<Start>) {
    && starts != []
    && forall i, j :: 0 <= i < j < |starts| ==> starts[i].epoch <= starts[j].epoch && starts[i].era != starts[j].era
  }

  lemma SortedInOrder(c: Config)
    requires Usable(c)
    ensures InOrder(SortedEras(c))
  {
    hide SortedEras;
    SortedErasAre(c);
    HasByron(c);
    var starts := SortedEras(c);
    forall i, j | 0 <= i < j < |starts| ensures starts[i].era != starts[j].era {
      assert starts[i] in starts && starts[j] in starts && Before(starts[i], starts[j]);
    }
  }

  /** The epoch with which the timeline begins: 0, unless an era is configured to
      start before Byron. */
  function FirstEpoch(c: Config): int
    requires Usable(c)
  {
    HasByron(c);
    SortedEras(c)[0].epoch
  }

  lemma FirstEpochIsLeast(c: Config)
    requires Usable(c)
    ensures forall era <- c.transitions :: FirstEpoch(c) <= c.transitions[era]
    ensures exists era <- c.transitions :: c.transitions[era] == FirstEpoch(c)
    ensures FirstEpoch(c) <= 0 && (FirstEpoch(c) == 0 <==> FromByron(c))
  {
    hide SortedEras;
    SortedErasAre(c);
    HasByron(c);
    var starts := SortedEras(c);
    assert starts[0] in starts;
    forall era <- c.transitions ensures starts[0].epoch <= c.transitions[era] {
      var s := Start(era, c.transitions[era]);
      assert s in starts;
      var k :| 0 <= k < |starts| && starts[k] == s;
      assert k > 0 ==> Before(starts[0], starts[k]);
    }
  }

  lemma {:induction false} StartSlotsMono(c: Config, starts: seq<Start>, i: nat, j: nat)
    requires Usable(c) && InOrder(starts) && i <= j < |starts|
    ensures 0 <= StartSlot(c, starts, i) <= StartSlot(c, starts, j)
    ensures starts[i].epoch == starts[j].epoch ==> StartSlot(c, starts, i) == StartSlot(c, starts, j)
    decreases j
  {
    hide Segment, Length;
    if i < j {
      StartSlotsMono(c, starts, i, j - 1);
      NonNegativeSegment(c, starts[j - 1], starts[j]);
    } else if j > 0 {
      StartSlotsMono(c, starts, j - 1, j - 1);
      NonNegativeSegment(c, starts[j - 1], starts[j]);
    }
  }

  lemma NonNegativeSegment(c: Config, a: Start, b: Start)
    requires Usable(c) && a.epoch <= b.epoch
    ensures Segment(c, a, b) >= 0 && (a.epoch == b.epoch ==> Segment(c, a, b) == 0)
  {
    MulAtLeast(0, b.epoch - a.epoch, Length(c, a.era));
  }

  lemma ReachedUnique(values: seq<int>, x: int, k: nat)
    requires forall i, j :: 0 <= i <= j < |values| ==> values[i] <= values[j]
    requires k < |values| && values[k] <= x && (k + 1 < |values| ==> x < values[k + 1])
    ensures Reached(values, x) == k + 1 && LastReached(values, x) == k
  {
    var n := Reached(values, x);
  }

  lemma NextStart(c: Config, starts: seq<Start>, k: nat)
    requires k + 1 < |starts|
    ensures StartSlot(c, starts, k + 1)
            == StartSlot(c, starts, k) + Span(starts[k + 1].epoch - starts[k].epoch, Length(c, starts[k].era))
  {}

  /** The segment that holds an epoch: its slots stay below the next segment. */
  lemma EpochSegment(c: Config, starts: seq<Start>, epoch: int) returns (k: nat)
    requires Usable(c) && InOrder(starts) && epoch >= starts[0].epoch
    ensures k < |starts| && starts[k].epoch <= epoch && (k + 1 < |starts| ==> epoch < starts[k + 1].epoch)
    ensures Reached(Epochs(starts), epoch) == k + 1
    ensures SlotIn(c, starts, epoch) == StartSlot(c, starts, k) + Span(epoch - starts[k].epoch, Length(c, starts[k].era))
    ensures StartSlot(c, starts, k) <= SlotIn(c, starts, epoch)
    ensures k + 1 < |starts| ==> SlotIn(c, starts, epoch) < StartSlot(c, starts, k + 1)
  {
    hide Length, Span, StartSlot;
    var n := Reached(Epochs(starts), epoch);
    assert Epochs(starts)[0] == starts[0].epoch;
    k := n - 1;
    assert Epochs(starts)[k] == starts[k].epoch;
    SlotAfterStart(StartSlot(c, starts, k), starts[k].epoch, epoch, Length(c, starts[k].era));
    if n < |starts| {
      assert Epochs(starts)[n] == starts[n].epoch;
      NextStart(c, starts, k);
      SlotBeforeNext(StartSlot(c, starts, k), starts[k].epoch, epoch, starts[n].epoch, Length(c, starts[k].era));
    }
  }

  /** The segment that holds a slot. */
  lemma SlotSegment(c: Config, starts: seq<Start>, slot: nat) returns (k: nat)
    requires Usable(c) && InOrder(starts)
    ensures k < |starts| && Reached(Slots(c, starts), slot) == k + 1
    ensures var epoch, first := EpochIn(c, starts, slot), starts[k].epoch;
            var start, l := StartSlot(c, starts, k), Length(c, starts[k].era);
            first <= epoch && start + Span(epoch - first, l) <= slot < start + Span(epoch + 1 - first, l)
    ensures k + 1 < |starts| ==> EpochIn(c, starts, slot) < starts[k + 1].epoch && slot < StartSlot(c, starts, k + 1)
    ensures EpochIn(c, starts, slot) >= starts[0].epoch
  {
    hide Length, Span, Whole;
    var n := Reached(Slots(c, starts), slot);
    assert Slots(c, starts)[0] == 0;
    k := n - 1;
    assert Slots(c, starts)[k] == StartSlot(c, starts, k);
    WithinEpoch(slot, StartSlot(c, starts, k), starts[k].epoch, Length(c, starts[k].era), EpochIn(c, starts, slot));
    assert k > 0 ==> starts[0].epoch <= starts[k].epoch;
    if n < |starts| {
      assert Slots(c, starts)[n] == StartSlot(c, starts, n);
      NextStart(c, starts, k);
      BeforeNext(slot, StartSlot(c, starts, k), starts[k].epoch, starts[n].epoch, Length(c, starts[k].era));
    }
  }

  lemma SlotsAscend(c: Config, starts: seq<Start>)
    requires Usable(c) && InOrder(starts)
    ensures forall i, j :: 0 <= i <= j < |starts| ==> Slots(c, starts)[i] <= Slots(c, starts)[j]
  {
    forall i, j | 0 <= i <= j < |starts| ensures Slots(c, starts)[i] <= Slots(c, starts)[j] {
      StartSlotsMono(c, starts, i, j);
    }
  }

  /** The first slot of an epoch is in that epoch. */
  lemma FirstSlotInEpoch(c: Config, starts: seq<Start>, epoch: int)
    requires Usable(c) && InOrder(starts) && epoch >= starts[0].epoch
    ensures SlotIn(c, starts, epoch) >= 0 && EpochIn(c, starts, SlotIn(c, starts, epoch)) == epoch
  {
    hide Length, SlotIn;
    var k := EpochSegment(c, starts, epoch);
    var slot := SlotIn(c, starts, epoch);
    StartSlotsMono(c, starts, k, k);
    SlotsAscend(c, starts);
    ReachedUnique(Slots(c, starts), slot, k);
    MultipleQuotient(epoch - starts[k].epoch, Length(c, starts[k].era));
  }

  /** A slot lies between the first slot of its epoch and that of the next. */
  lemma EpochHoldsSlot(c: Config, starts: seq<Start>, slot: nat)
    requires Usable(c) && InOrder(starts)
    ensures EpochIn(c, starts, slot) >= starts[0].epoch
    ensures SlotIn(c, starts, EpochIn(c, starts, slot)) <= slot < SlotIn(c, starts, EpochIn(c, starts, slot) + 1)
    ensures Reached(Epochs(starts), EpochIn(c, starts, slot)) == Reached(Slots(c, starts), slot)
  {
    hide Length, SlotIn, EpochIn, StartSlot, Span, Whole;
    var k := SlotSegment(c, starts, slot);
    var epoch := EpochIn(c, starts, slot);
    ReachedUnique(Epochs(starts), epoch, k);
    var k0 := EpochSegment(c, starts, epoch);
    SlotBeforeNextEpoch(c, starts, slot, k, epoch);
  }

  lemma SlotBeforeNextEpoch(c: Config, starts: seq<Start>, slot: nat, k: nat, epoch: int)
    requires Usable(c) && InOrder(starts) && k < |starts| && epoch >= starts[0].epoch
    requires starts[k].epoch <= epoch && (k + 1 < |starts| ==> epoch < starts[k + 1].epoch)
    requires slot < StartSlot(c, starts, k) + Span(epoch + 1 - starts[k].epoch, Length(c, starts[k].era))
    requires k + 1 < |starts| ==> slot < StartSlot(c, starts, k + 1)
    ensures slot < SlotIn(c, starts, epoch + 1)
  {
    hide Length, SlotIn, StartSlot, Span;
    var k1 := EpochSegment(c, starts, epoch + 1);
    if k1 != k {
      NextSegment(c, starts, k, k1, epoch);
      StartSlotsMono(c, starts, k + 1, k1);
    }
  }

  lemma NextSegment(c: Config, starts: seq<Start>, k: nat, k1: nat, epoch: int)
    requires InOrder(starts) && k < |starts| && k1 < |starts| && k1 != k
    requires starts[k].epoch <= epoch && (k + 1 < |starts| ==> epoch < starts[k + 1].epoch)
    requires starts[k1].epoch <= epoch + 1 && (k1 + 1 < |starts| ==> epoch + 1 < starts[k1 + 1].epoch)
    ensures k < k1
  {}

  /** The conversions are adjoint: a slot is in epoch e or later exactly when it is
      at or after the first slot of e. Each undoes the other as far as it can, and
      the era found for a slot is the era of its epoch. */
  lemma ConversionsAreAdjoint(c: Config, slot: nat, epoch: int)
    requires Usable(c) && epoch >= FirstEpoch(c)
    ensures EpochAt(c, slot) >= epoch <==> slot >= SlotAt(c, epoch)
    ensures EpochAt(c, slot) >= FirstEpoch(c) && SlotAt(c, epoch) >= 0
    ensures EpochAt(c, SlotAt(c, epoch)) == epoch
    ensures SlotAt(c, EpochAt(c, slot)) <= slot < SlotAt(c, EpochAt(c, slot) + 1)
    ensures EraAtSlot(c, slot) == EraAtEpoch(c, EpochAt(c, slot))
  {
    hide SlotIn, EpochIn, SortedEras;
    SortedInOrder(c);
    var starts := SortedEras(c);
    FirstSlotInEpoch(c, starts, epoch);
    EpochHoldsSlot(c, starts, slot);
    if EpochAt(c, slot) >= epoch {
      SlotsRise(c, starts, epoch, EpochAt(c, slot));
    } else {
      SlotsRise(c, starts, EpochAt(c, slot) + 1, epoch);
    }
  }

  /** Later epochs start later. */
  lemma {:induction false} SlotsRise(c: Config, starts: seq<Start>, e: int, f: int)
    requires Usable(c) && InOrder(starts) && starts[0].epoch <= e <= f
    ensures SlotIn(c, starts, e) + (f - e) <= SlotIn(c, starts, f)
    decreases f - e
  {
    hide SlotIn, EpochIn;
    if e < f {
      SlotsRise(c, starts, e, f - 1);
      FirstSlotInEpoch(c, starts, f - 1);
      EpochHoldsSlot(c, starts, SlotIn(c, starts, f - 1));
    }
  }

  /** No slot is in a negative epoch exactly when no era starts before Byron, which
      the configuration does not check. */
  lemma EpochsAreNonNegativeExactly(c: Config)
    requires Usable(c)
    ensures (forall slot: nat :: EpochAt(c, slot) >= 0) <==> FromByron(c)
  {
    hide EpochAt, FirstEpoch;
    FirstEpochIsLeast(c);
    EpochsHaveTheirLength(c, FirstEpoch(c));
    forall slot: nat ensures EpochAt(c, slot) >= FirstEpoch(c) {
      ConversionsAreAdjoint(c, slot, FirstEpoch(c));
    }
    ConversionsAreAdjoint(c, 0, FirstEpoch(c));
  }

  lemma LengthIs(c: Config, era: Era)
    ensures Length(c, era) == if era in c.lengths then c.lengths[era] else if era == 0 then 21600 else 432000
  {}

  /** The timeline starts at slot 0 and every epoch lasts as many slots as its era
      says; this determines both conversions. */
  lemma EpochsHaveTheirLength(c: Config, epoch: int)
    requires Usable(c) && epoch >= FirstEpoch(c)
    ensures SlotAt(c, FirstEpoch(c)) == 0
    ensures var era := EraAtEpoch(c, epoch);
            SlotAt(c, epoch + 1) - SlotAt(c, epoch)
            == if era in c.lengths then c.lengths[era] else if era == 0 then 21600 else 432000
  {
    LengthIs(c, EraAtEpoch(c, epoch));
    hide SlotIn, SortedEras, Length;
    SortedInOrder(c);
    var starts := SortedEras(c);
    EpochLength(c, starts, epoch);
    FirstSlotIsZero(c, starts);
  }

  lemma FirstSlotIsZero(c: Config, starts: seq<Start>)
    requires Usable(c) && InOrder(starts)
    ensures SlotIn(c, starts, starts[0].epoch) == 0
  {
    hide Length, SlotIn, Span;
    var k := EpochSegment(c, starts, starts[0].epoch);
    StartSlotsMono(c, starts, 0, k);
    assert k > 0 ==> starts[0].epoch <= starts[k].epoch;
    OneMoreEpoch(0, Length(c, starts[k].era));
  }

  lemma EpochLength(c: Config, starts: seq<Start>, epoch: int)
    requires Usable(c) && InOrder(starts) && epoch >= starts[0].epoch
    ensures Reached(Epochs(starts), epoch) > 0
    ensures SlotIn(c, starts, epoch + 1) - SlotIn(c, starts, epoch)
            == Length(c, starts[Reached(Epochs(starts), epoch) - 1].era)
  {
    hide Length, SlotIn, Span, StartSlot;
    var k := EpochSegment(c, starts, epoch);
    var k1 := EpochSegment(c, starts, epoch + 1);
    OneMoreEpoch(epoch - starts[k].epoch, Length(c, starts[k].era));
    if k1 != k {
      CrossesToNext(c, starts, k, k1, epoch);
    }
  }

  lemma CrossesToNext(c: Config, starts: seq<Start>, k: nat, k1: nat, epoch: int)
    requires Usable(c) && InOrder(starts) && k < |starts| && k1 < |starts| && k1 != k
    requires starts[k].epoch <= epoch && (k + 1 < |starts| ==> epoch < starts[k + 1].epoch)
    requires starts[k1].epoch <= epoch + 1 && (k1 + 1 < |starts| ==> epoch + 1 < starts[k1 + 1].epoch)
    ensures starts[k1].epoch == epoch + 1
    ensures StartSlot(c, starts, k1) + Span(0, Length(c, starts[k1].era))
            == StartSlot(c, starts, k) + Span(epoch + 1 - starts[k].epoch, Length(c, starts[k].era))
  {
    hide Length, Span, StartSlot;
    OneMoreEpoch(0, Length(c, starts[k1].era));
    NextSegment(c, starts, k, k1, epoch);
    assert starts[k + 1].epoch <= starts[k1].epoch;
    StartSlotsMono(c, starts, k + 1, k1);
    NextStart(c, starts, k);
  }

  lemma OneMoreEpoch(n: int, l: int)
    ensures Span(n + 1, l) == Span(n, l) + l && Span(0, l) == 0
  {}

  /** The era of an epoch is the last one, in order of start epoch and then of
      era, that has started by then. */
  lemma EraIsLatestStarted(c: Config, epoch: int)
    requires Usable(c) && epoch >= FirstEpoch(c)
    ensures var era := EraAtEpoch(c, epoch);
            && era in c.transitions && c.transitions[era] <= epoch
            && forall other <- c.transitions :: other != era && c.transitions[other] <= epoch
                 ==> Before(Start(other, c.transitions[other]), Start(era, c.transitions[era]))
  {
    hide SortedEras;
    SortedErasAre(c);
    SortedInOrder(c);
    var starts := SortedEras(c);
    var k := EpochSegment(c, starts, epoch);
    assert starts[k] in starts;
    forall other <- c.transitions | other != starts[k].era && c.transitions[other] <= epoch
      ensures Before(Start(other, c.transitions[other]), starts[k])
    {
      var s := Start(other, c.transitions[other]);
      assert s in starts;
      var i :| 0 <= i < |starts| && starts[i] == s;
      NotBehind(starts, k, i, epoch);
    }
  }

  lemma NotBehind(starts: seq<Start>, k: nat, i: nat, epoch: int)
    requires InOrder(starts) && k < |starts| && i < |starts| && i != k && starts[i].epoch <= epoch
    requires k + 1 < |starts| ==> epoch < starts[k + 1].epoch
    ensures i < k
  {}

  /** Both conversions are monotone, the one to slots strictly. */
  lemma ConversionsAreMonotone(c: Config, a: nat, b: nat, e: int, f: int)
    requires Usable(c) && a <= b && FirstEpoch(c) <= e < f
    ensures EpochAt(c, a) <= EpochAt(c, b)
    ensures SlotAt(c, e) < SlotAt(c, f)
  {
    hide SlotAt, EpochAt, FirstEpoch;
    ConversionsAreAdjoint(c, a, e);
    ConversionsAreAdjoint(c, b, EpochAt(c, a));
    ConversionsAreAdjoint(c, SlotAt(c, e), f);
  }

  // ----- The functions of the module, with their errors ------------------------------------------

  function Horizon(c: Config): Option<int>
    requires Usable(c)
  {
    HasByron(c);
    var starts := SortedEras(c);
    if c.safeZone.None? then None else Some(StartSlot(c, starts, |starts| - 1) + c.safeZone.value)
  }

  predicate Beyond(c: Config, slot: int)
    requires Usable(c)
  {
    Horizon(c).Some? && slot > Horizon(c).value
  }

  function EpochAnswer(c: Config, slot: int): Answer
    requires Usable(c)
  {
    if slot < 0 then Negative
    else if Beyond(c, slot) then PastHorizon(slot, Horizon(c).value)
    else Value(EpochAt(c, slot))
  }

  function SlotAnswer(c: Config, epoch: int): Answer
    requires Usable(c)
  {
    if epoch < 0 then Negative
    else if Beyond(c, SlotAt(c, epoch)) then PastHorizon(SlotAt(c, epoch), Horizon(c).value)
    else Value(SlotAt(c, epoch))
  }

  /** No configured era starts later. */
  ghost predicate StartsLast(c: Config, era: Era) {
    era in c.transitions && forall other <- c.transitions :: c.transitions[other] <= c.transitions[era]
  }

  lemma SomeEraStartsLast(c: Config) returns (era: Era)
    requires Usable(c)
    ensures StartsLast(c, era)
  {
    hide SortedEras;
    SortedErasAre(c);
    SortedInOrder(c);
    var starts := SortedEras(c);
    assert starts[|starts| - 1] in starts;
    era := starts[|starts| - 1].era;
    forall other <- c.transitions ensures c.transitions[other] <= c.transitions[era] {
      var s := Start(other, c.transitions[other]);
      assert s in starts;
      var i :| 0 <= i < |starts| && starts[i] == s;
    }
  }

  lemma LastInOrder(starts: seq<Start>, epoch: int)
    requires InOrder(starts) && epoch == starts[|starts| - 1].epoch
    ensures Reached(Epochs(starts), epoch) == |starts|
  {
    forall i | 0 <= i < |starts| ensures Epochs(starts)[i] <= epoch {}
  }

  /** The safe zone runs from the first slot of the era that starts last. */
  lemma HorizonIsExactly(c: Config, era: Era)
    requires Usable(c) && StartsLast(c, era)
    ensures Horizon(c) == if c.safeZone.None? then None else Some(SlotAt(c, c.transitions[era]) + c.safeZone.value)
  {
    hide SortedEras, StartSlot, Length, Segment;
    SortedErasAre(c);
    SortedInOrder(c);
    var starts := SortedEras(c);
    var last := starts[|starts| - 1];
    assert last in starts;
    var s := Start(era, c.transitions[era]);
    assert s in starts;
    var i :| 0 <= i < |starts| && starts[i] == s;
    assert s.epoch <= last.epoch;
    LastInOrder(starts, last.epoch);
    OneMoreEpoch(0, Length(c, last.era));
  }

  /** What can be told, exactly: everything from 0 on up to the horizon, which is
      itself still inside. */
  lemma AnswersExactly(c: Config, slot: int, epoch: int) returns (era: Era)
    requires Usable(c)
    ensures StartsLast(c, era)
    ensures var past, at := SlotAt(c, c.transitions[era]) + (if c.safeZone.Some? then c.safeZone.value else 0), SlotAt(c, epoch);
            && EpochAnswer(c, slot) == (if slot < 0 then Negative
                                        else if c.safeZone.Some? && slot > past then PastHorizon(slot, past)
                                        else Value(EpochAt(c, slot)))
            && SlotAnswer(c, epoch) == (if epoch < 0 then Negative
                                        else if c.safeZone.Some? && at > past then PastHorizon(at, past)
                                        else Value(at))
  {
    era := SomeEraStartsLast(c);
    HorizonIsExactly(c, era);
    hide SlotAt, EpochAt, Horizon;
  }

  /** Within the horizon the answers are inverse to each other; and an epoch whose
      first slot can be told is one whose slots can be asked about. Only a negative
      epoch, of an era before Byron, is told for a slot and then refused. */
  lemma AnswersRoundTrip(c: Config, slot: int, epoch: int)
    requires Usable(c)
    ensures SlotAnswer(c, epoch) == Value(slot) ==> EpochAnswer(c, slot) == Value(epoch)
    ensures EpochAnswer(c, slot) == Value(epoch) && epoch >= 0 ==>
              && SlotAnswer(c, epoch).Value? && SlotAnswer(c, epoch).value <= slot
              && EpochAnswer(c, SlotAnswer(c, epoch).value) == Value(epoch)
    ensures epoch < 0 ==> SlotAnswer(c, epoch) == Negative
  {
    hide SlotAt, EpochAt, FirstEpoch;
    FirstEpochIsLeast(c);
    if epoch >= 0 {
      ConversionsAreAdjoint(c, 0, epoch);
    }
    if slot >= 0 {
      ConversionsAreAdjoint(c, slot, FirstEpoch(c));
      ConversionsAreAdjoint(c, slot, EpochAt(c, slot));
    }
  }

  /** The loop shared by all functions: the last mark reached, stopping at the first
      that is not. */
  method FindLast(marks: seq<(Era, int)>, x: int) returns (n: nat)
    ensures n <= |marks|
    ensures n == Reached(Seconds(marks), x)
  {
    n := 0;
    while n < |marks| && x >= marks[n].1
      invariant n <= |marks| && Reached(Seconds(marks), x) == n + Reached(Seconds(marks)[n..], x)
    {
      assert Seconds(marks)[n..][1..] == Seconds(marks)[n + 1..];
      n := n + 1;
    }
  }

  function Seconds(marks: seq<(Era, int)>): seq<int> {
    seq(|marks|, i requires 0 <= i < |marks| => marks[i].1)
  }

  method CurrentEra(c: Config, slot: int) returns (era: Option<Era>)
    ensures slot < 0 ==> era == None
    ensures slot >= 0 ==> era == Some(EraAtSlot(c, slot))
  {
    hide SortedEras;
    if slot < 0 {
      return None;
    }
    ghost var starts := SortedEras(c);
    var marks := EraStartSlots(c);
    MarksAt(c, starts, |starts|);
    assert Seconds(marks) == Slots(c, starts);
    var n := FindLast(marks, slot);
    era := Some(if n == 0 then BYRON else marks[n - 1].0);
  }

  method CheckHorizon(c: Config, slot: int) returns (past: Option<int>)
    requires Usable(c)
    ensures past == if Beyond(c, slot) then Horizon(c) else None
  {
    hide SortedEras, StartSlot, Marks, Length;
    if c.safeZone.None? {
      return None;
    }
    ghost var starts := SortedEras(c);
    HasByron(c);
    var marks := EraStartSlots(c);
    MarksAt(c, starts, |starts|);
    var horizon := marks[|marks| - 1].1 + c.safeZone.value;
    past := if slot > horizon then Some(horizon) else None;
  }

  method SlotToEpoch(c: Config, slot: int) returns (answer: Answer)
    requires Usable(c)
    ensures answer == EpochAnswer(c, slot)
  {
    hide SortedEras, Horizon, Length, StartSlot, Marks, Span, Whole;
    if slot < 0 {
      return Negative;
    }
    var past := CheckHorizon(c, slot);
    if past.Some? {
      return PastHorizon(slot, past.value);
    }
    ghost var starts := SortedEras(c);
    HasByron(c);
    var marks := EraStartSlots(c);
    MarksAt(c, starts, |starts|);
    assert Seconds(marks) == Slots(c, starts);
    var n := FindLast(marks, slot);
    var current := marks[if n == 0 then 0 else n - 1];
    SortedErasAre(c);
    assert starts[if n == 0 then 0 else n - 1] in starts;
    var startEpoch := c.transitions[current.0];
    answer := Value(startEpoch + Whole(slot - current.1, Length(c, current.0)));
  }

  method EpochToFirstSlot(c: Config, epoch: int) returns (answer: Answer)
    requires Usable(c)
    ensures answer == SlotAnswer(c, epoch)
  {
    hide SortedEras, Horizon, Length, StartSlot, Marks, Span, Whole;
    if epoch < 0 {
      return Negative;
    }
    var starts := SortedEras(c);
    HasByron(c);
    var targetEra, targetStart := starts[0].era, 0;
    var n := FindLast(Pairs(starts), epoch);
    assert Seconds(Pairs(starts)) == Epochs(starts);
    if n > 0 {
      targetEra, targetStart := starts[n - 1].era, starts[n - 1].epoch;
    }
    var marks := EraStartSlots(c);
    MarksAt(c, starts, |starts|);
    NoEraTwice(c);
    var start := FindStart(marks, targetEra);
    var slot := start + Span(epoch - targetStart, Length(c, targetEra));
    var past := CheckHorizon(c, slot);
    answer := if past.Some? then PastHorizon(slot, past.value) else Value(slot);
  }

  function Pairs(starts: seq<Start>): seq<(Era, int)> {
    seq(|starts|, i requires 0 <= i < |starts| => (starts[i].era, starts[i].epoch))
  }

  lemma NoEraTwice(c: Config)
    ensures forall i, j :: 0 <= i < j < |SortedEras(c)| ==> SortedEras(c)[i].era != SortedEras(c)[j].era
  {
    hide SortedEras;
    SortedErasAre(c);
    var starts := SortedEras(c);
    forall i, j | 0 <= i < j < |starts| ensures starts[i].era != starts[j].era {
      assert starts[i] in starts && starts[j] in starts && Before(starts[i], starts[j]);
    }
  }

  method FindStart(marks: seq<(Era, int)>, era: Era) returns (start: int)
    requires forall i, j :: 0 <= i < j < |marks| ==> marks[i].0 != marks[j].0
    ensures forall i :: 0 <= i < |marks| && marks[i].0 == era ==> start == marks[i].1
  {
    start := 0;
    for i := 0 to |marks|
      invariant forall k :: 0 <= k < i ==> marks[k].0 != era
    {
      if marks[i].0 == era {
        return marks[i].1;
      }
    }
  }

  // ----- The running state ------------------------------------------------------------------------

  class HfcState {
    const config: Config
    var currentEra: Era
    var tipSlot: int
    var tipEpoch: int

    constructor (config: Config)
      requires Usable(config)
      ensures this.config == config && currentEra == BYRON && tipSlot == 0 && tipEpoch == 0
    {
      this.config := config;
      currentEra, tipSlot, tipEpoch := BYRON, 0, 0;
    }

    /** Epoch and era are those of the tip. */
    ghost predicate InSync()
      requires Usable(config)
      reads this
    {
      tipSlot >= 0 && tipEpoch == EpochAt(config, tipSlot) && currentEra == EraAtSlot(config, tipSlot)
    }

    /** Advancing to a slot within the horizon brings all three fields to it. When
        the conversion fails the tip has moved already, while epoch and era stay:
        the state is then in step exactly when they happen to be those of the new
        tip, which no negative slot has. */
    method AdvanceToSlot(slot: int) returns (era: Option<Era>)
      requires Usable(config)
      modifies this
      ensures tipSlot == slot
      ensures era.Some? <==> EpochAnswer(config, slot).Value?
      ensures era.Some? ==> InSync() && era.value == currentEra
      ensures era.None? ==> currentEra == old(currentEra) && tipEpoch == old(tipEpoch)
      ensures era.None? ==>
                (InSync() <==> slot >= 0 && EpochAt(config, slot) == old(tipEpoch) && EraAtSlot(config, slot) == old(currentEra))
    {
      tipSlot := slot;
      var answer := SlotToEpoch(config, slot);
      if !answer.Value? {
        return None;
      }
      tipEpoch := answer.value;
      var found := CurrentEra(config, slot);
      currentEra := found.value;
      era := Some(currentEra);
    }
  }

  /** Byron alone, trusted for one epoch. */
  const BYRON_ONLY := Config(map[BYRON := 0], map[], Some(21600))

  lemma ByronOnly()
    ensures Usable(BYRON_ONLY) && SortedEras(BYRON_ONLY) == [Start(BYRON, 0)]
    ensures Horizon(BYRON_ONLY) == Some(21600)
    ensures EpochAt(BYRON_ONLY, 0) == 0 && EpochAt(BYRON_ONLY, 21601) == 1
    ensures EraAtSlot(BYRON_ONLY, 0) == BYRON
  {
    hide SortFirst;
    SortedErasAre(BYRON_ONLY);
    SortedIsUnique(SortedEras(BYRON_ONLY), [Start(BYRON, 0)]);
    assert Slots(BYRON_ONLY, [Start(BYRON, 0)]) == [0];
    assert Reached([0], 0) == 1 == Reached([0], 21601);
  }

  /** A failed advance that leaves the state out of step: the tip is in epoch 1,
      past the horizon, and the state says epoch 0. */
  method FallOutOfStep() returns (s: HfcState)
    ensures fresh(s) && s.config == BYRON_ONLY && !s.InSync()
    ensures s.tipSlot == 21601 && EpochAt(s.config, s.tipSlot) == 1 && s.tipEpoch == 0
  {
    ByronOnly();
    hide EpochAt, EraAtSlot, Usable, Horizon;
    s := new HfcState(BYRON_ONLY);
    assert s.InSync();
    var era := s.AdvanceToSlot(21601);
  }
}
