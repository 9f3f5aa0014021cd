// Shelley certificates: the strict transition rules, the lenient in-place replay
// used while syncing, and the deposits that certificates account for.

module Delegation {
  import opened MapSum

  type Id = nat

  datatype Option<+T> = None | Some(value: T)

  datatype Metadata = Metadata(urlBytes: nat, hashBytes: nat)

  datatype PoolParams = PoolParams(operator: Id, vrf: Id, cost: int, metadata: Option<Metadata>, rewardAccount: seq<bv8>)

  datatype Params = Params(keyDeposit: int, poolDeposit: int, minPoolCost: int, networkId: int)

  datatype Cert =
    | RegKey(cred: Id)
    | DeregKey(cred: Id)
    | Delegate(cred: Id, target: Id)
    | RegPool(pool: PoolParams)
    | RetirePool(operator: Id, epoch: int)

  /** Rewards are keyed by the registered credentials. */
  datatype State = State(rewards: map<Id, int>, delegations: map<Id, Id>, pools: map<Id, PoolParams>, retiring: map<Id, int>)

  const EMPTY := State(map[], map[], map[], map[])

  datatype Error =
    | KeyAlreadyRegistered(cred: Id)
    | KeyNotRegistered(cred: Id)
    | NonZeroBalance(cred: Id, balance: int)
    | DelegationImpossible(pool: Id)
    | PoolCostTooLow(cost: int)
    | DuplicateVrfKey(vrf: Id)
    | MetadataUrlTooLong(bytes: nat)
    | MetadataHashWrongSize(bytes: nat)
    | WrongNetwork(network: int)
    | PoolNotRegistered(pool: Id)
    | RetirementWrongEpoch(epoch: int)

  datatype Result = Ok(state: State) | Err(error: Error)

  // ----- The strict rules ---------------------------------------------------------------

  function ProcessRegKey(cred: Id, s: State): Result {
    if cred in s.rewards then Err(KeyAlreadyRegistered(cred)) else Ok(s.(rewards := s.rewards[cred := 0]))
  }

  function ProcessDeregKey(cred: Id, s: State): Result {
    if cred !in s.rewards then Err(KeyNotRegistered(cred))
    else if s.rewards[cred] != 0 then Err(NonZeroBalance(cred, s.rewards[cred]))
    else Ok(s.(rewards := s.rewards - {cred}, delegations := s.delegations - {cred}))
  }

  function ProcessDelegate(cred: Id, pool: Id, s: State): Result {
    if cred !in s.rewards then Err(KeyNotRegistered(cred))
    else if pool !in s.pools then Err(DelegationImpossible(pool))
    else Ok(s.(delegations := s.delegations[cred := pool]))
  }

  /** Another pool already has this VRF key. */
  predicate VrfTaken(pools: map<Id, PoolParams>, pool: Id, vrf: Id) {
    exists p <- pools :: p != pool && pools[p].vrf == vrf
  }

  /** The network that a recognised reward address names. */
  function RewardNetwork(account: seq<bv8>): Option<int> {
    if account == [] then None
    else if account[0] & 0xF0 == 0xE0 || account[0] & 0xF0 == 0xF0 then Some((account[0] & 0x0F) as int)
    else None
  }

  /** The header byte's upper four bits say what kind of address it is, 14 and 15 being
      the reward addresses of a key and of a script; the lower four are the network. */
  lemma RewardNetworkIs(account: seq<bv8>)
    ensures RewardNetwork(account) ==
            if account != [] && (account[0] as int / 16 == 14 || account[0] as int / 16 == 15)
            then Some(account[0] as int % 16) else None
  {
    if account != [] {
      HeaderBits(account[0]);
    }
  }

  lemma HeaderBits(b: bv8)
    ensures b & 0xF0 == 0xE0 <==> b as int / 16 == 14
    ensures b & 0xF0 == 0xF0 <==> b as int / 16 == 15
    ensures (b & 0x0F) as int == b as int % 16
  {
    assert (b & 0x0F) == b % 16;
    assert b & 0xF0 == 0xE0 <==> 0xE0 <= b <= 0xEF;
    assert b & 0xF0 == 0xF0 <==> 0xF0 <= b;
  }

  function ProcessRegPool(pool: PoolParams, s: State, params: Params): Result {
    if pool.cost < params.minPoolCost then Err(PoolCostTooLow(pool.cost))
    else if VrfTaken(s.pools, pool.operator, pool.vrf) then Err(DuplicateVrfKey(pool.vrf))
    else if pool.metadata.Some? && pool.metadata.value.urlBytes > 64
      then Err(MetadataUrlTooLong(pool.metadata.value.urlBytes))
    else if pool.metadata.Some? && pool.metadata.value.hashBytes != 32
      then Err(MetadataHashWrongSize(pool.metadata.value.hashBytes))
    else if RewardNetwork(pool.rewardAccount).Some? && RewardNetwork(pool.rewardAccount).value != params.networkId
      then Err(WrongNetwork(RewardNetwork(pool.rewardAccount).value))
    else Ok(s.(pools := s.pools[pool.operator := pool], retiring := s.retiring - {pool.operator}))
  }

  function ProcessRetirePool(pool: Id, epoch: int, s: State, currentEpoch: int): Result {
    if pool !in s.pools then Err(PoolNotRegistered(pool))
    else if epoch <= currentEpoch then Err(RetirementWrongEpoch(epoch))
    else Ok(s.(retiring := s.retiring[pool := epoch]))
  }

  function ProcessCertificate(cert: Cert, s: State, params: Params, epoch: int): Result {
    match cert
    case RegKey(cred) => ProcessRegKey(cred, s)
    case DeregKey(cred) => ProcessDeregKey(cred, s)
    case Delegate(cred, pool) => ProcessDelegate(cred, pool, s)
    case RegPool(pool) => ProcessRegPool(pool, s, params)
    case RetirePool(pool, e) => ProcessRetirePool(pool, e, s, epoch)
  }

  /** The preconditions of the DELEG and POOL rules. */
  ghost predicate Allowed(cert: Cert, s: State, params: Params, epoch: int) {
    match cert
    case RegKey(cred) => cred !in s.rewards.Keys
    case DeregKey(cred) => cred in s.rewards.Keys && s.rewards[cred] == 0
    case Delegate(cred, pool) => cred in s.rewards.Keys && pool in s.pools.Keys
    case RegPool(pool) =>
      && pool.cost >= params.minPoolCost
      && (forall p <- s.pools :: s.pools[p].vrf == pool.vrf ==> p == pool.operator)
      && (pool.metadata.Some? ==> pool.metadata.value.urlBytes <= 64 && pool.metadata.value.hashBytes == 32)
      && (RewardNetwork(pool.rewardAccount).Some? ==> RewardNetwork(pool.rewardAccount).value == params.networkId)
    case RetirePool(pool, e) => pool in s.pools.Keys && e > epoch
  }

  /** A certificate is accepted exactly when the preconditions of its rule hold. */
  lemma AcceptedExactly(cert: Cert, s: State, params: Params, epoch: int)
    ensures ProcessCertificate(cert, s, params, epoch).Ok? <==> Allowed(cert, s, params, epoch)
  {
    if cert.RegPool? {
      if p :| p in s.pools && s.pools[p].vrf == cert.pool.vrf && p != cert.pool.operator {
        assert VrfTaken(s.pools, cert.pool.operator, cert.pool.vrf);
      }
    }
  }

  /** A list of certificates, each against the state left by those before it. */
  ghost function Strict(certs: seq<Cert>, s: State, params: Params, epoch: int): Result {
    if certs == [] then Ok(s)
    else
      var n := |certs| - 1;
      var before := Strict(certs[..n], s, params, epoch);
      if before.Err? then before else ProcessCertificate(certs[n], before.state, params, epoch)
  }

  /** The preconditions of certificate `i` hold in the state that the ones before it leave. */
  ghost predicate AllowedAt(certs: seq<Cert>, s: State, params: Params, epoch: int, i: nat)
    requires i < |certs|
  {
    var before := Strict(certs[..i], s, params, epoch);
    before.Ok? && Allowed(certs[i], before.state, params, epoch)
  }

  lemma LastAllowed(certs: seq<Cert>, s: State, params: Params, epoch: int)
    requires certs != []
    ensures Strict(certs, s, params, epoch).Ok? <==> AllowedAt(certs, s, params, epoch, |certs| - 1)
    ensures Strict(certs, s, params, epoch).Ok? ==> Strict(certs[..|certs| - 1], s, params, epoch).Ok?
  {
    hide ProcessCertificate, Allowed;
    var before := Strict(certs[..|certs| - 1], s, params, epoch);
    if before.Ok? {
      AcceptedExactly(certs[|certs| - 1], before.state, params, epoch);
    }
  }

  lemma AllowedInPrefix(certs: seq<Cert>, s: State, params: Params, epoch: int, n: nat, i: nat)
    requires i < n <= |certs|
    ensures AllowedAt(certs[..n], s, params, epoch, i) <==> AllowedAt(certs, s, params, epoch, i)
  {
    hide Strict, Allowed;
    assert certs[..n][..i] == certs[..i];
  }

  /** A list is accepted exactly when the preconditions of every certificate's rule
      hold in turn. */
  lemma {:induction false} StrictAcceptsExactly(certs: seq<Cert>, s: State, params: Params, epoch: int)
    ensures Strict(certs, s, params, epoch).Ok?
            <==> forall i | 0 <= i < |certs| :: AllowedAt(certs, s, params, epoch, i)
  {
    if certs != [] {
      hide Strict, AllowedAt;
      var n := |certs| - 1;
      StrictAcceptsExactly(certs[..n], s, params, epoch);
      LastAllowed(certs, s, params, epoch);
      forall i | 0 <= i < n
        ensures AllowedAt(certs[..n], s, params, epoch, i) <==> AllowedAt(certs, s, params, epoch, i)
      {
        AllowedInPrefix(certs, s, params, epoch, n, i);
      }
    }
  }

  method ProcessCertificates(certs: seq<Cert>, s: State, params: Params, epoch: int) returns (result: Result)
    ensures result == Strict(certs, s, params, epoch)
  {
    hide ProcessCertificate;
    var current := s;
    for i := 0 to |certs|
      invariant Strict(certs[..i], s, params, epoch) == Ok(current)
    {
      assert certs[..i + 1][..i] == certs[..i];
      var next := ProcessCertificate(certs[i], current, params, epoch);
      if next.Err? {
        StrictStops(certs, s, params, epoch, i + 1);
        return next;
      }
      current := next.state;
    }
    assert certs[..|certs|] == certs;
    result := Ok(current);
  }

  lemma {:induction false} StrictStops(certs: seq<Cert>, s: State, params: Params, epoch: int, i: nat)
    requires i <= |certs| && Strict(certs[..i], s, params, epoch).Err?
    ensures Strict(certs, s, params, epoch) == Strict(certs[..i], s, params, epoch)
    decreases |certs|
  {
    hide ProcessCertificate;
    if i < |certs| {
      var n := |certs| - 1;
      assert certs[..n][..i] == certs[..i];
      StrictStops(certs[..n], s, params, epoch, i);
    } else {
      assert certs[..i] == certs;
    }
  }

  // ----- The lenient replay ----------------------------------------------------------------

  function Lenient(cert: Cert, s: State): State {
    match cert
    case RegKey(cred) => if cred in s.rewards then s else s.(rewards := s.rewards[cred := 0])
    case DeregKey(cred) => s.(rewards := s.rewards - {cred}, delegations := s.delegations - {cred})
    case Delegate(cred, pool) =>
      s.(rewards := if cred in s.rewards then s.rewards else s.rewards[cred := 0], delegations := s.delegations[cred := pool])
    case RegPool(pool) => s.(pools := s.pools[pool.operator := pool], retiring := s.retiring - {pool.operator})
    case RetirePool(pool, e) => s.(retiring := s.retiring[pool := e])
  }

  ghost function LenientAll(certs: seq<Cert>, s: State): State {
    if certs == [] then s else Lenient(certs[|certs| - 1], LenientAll(certs[..|certs| - 1], s))
  }

  /** Whatever the strict rules accept, the lenient replay takes to the same state. */
  lemma {:induction false} StrictIsLenient(certs: seq<Cert>, s: State, params: Params, epoch: int)
    requires Strict(certs, s, params, epoch).Ok?
    ensures LenientAll(certs, s) == Strict(certs, s, params, epoch).state
  {
    if certs != [] {
      hide VrfTaken, RewardNetwork;
      var n := |certs| - 1;
      StrictIsLenient(certs[..n], s, params, epoch);
    }
  }

  datatype Tx = Tx(valid: bool, certs: seq<Cert>)

  /** The certificates of a block's valid transactions, in order. */
  ghost function CertsOf(txs: seq<Tx>): seq<Cert> {
    if txs == [] then []
    else CertsOf(txs[..|txs| - 1]) + if txs[|txs| - 1].valid then txs[|txs| - 1].certs else []
  }

  /** The certificates of a block, without recursion: of one transaction its own if it
      is valid and none if not, and of two lists those of the first and then those of
      the second. */
  lemma {:induction false} CertsOfBlocks(tx: Tx, a: seq<Tx>, b: seq<Tx>)
    ensures CertsOf([tx]) == (if tx.valid then tx.certs else [])
    ensures CertsOf(a + b) == CertsOf(a) + CertsOf(b)
    decreases |b|
  {
    assert [tx][..0] == [] && [] + tx.certs == tx.certs;
    if b == [] {
      assert a + b == a;
    } else {
      var n := |b| - 1;
      CertsOfBlocks(tx, a, b[..n]);
      assert (a + b)[..|a| + n] == a + b[..n];
    }
  }

  lemma {:induction false} LenientConcat(a: seq<Cert>, b: seq<Cert>, s: State)
    ensures LenientAll(a + b, s) == LenientAll(b, LenientAll(a, s))
    decreases |b|
  {
    hide Lenient;
    if b == [] {
      assert a + b == a;
    } else {
      var n := |b| - 1;
      LenientConcat(a, b[..n], s);
      assert (a + b)[..|a| + n] == a + b[..n];
    }
  }

  class DelegationState {
    var rewards: map<Id, int>
    var delegations: map<Id, Id>
    var pools: map<Id, PoolParams>
    var retiring: map<Id, int>

    function View(): State
      reads this
    {
      State(rewards, delegations, pools, retiring)
    }

    constructor ()
      ensures View() == EMPTY
    {
      rewards, delegations, pools, retiring := map[], map[], map[], map[];
    }

    method ApplyCertLenient(cert: Cert)
      modifies this
      ensures View() == Lenient(cert, old(View()))
    {
      match cert {
        case RegKey(cred) =>
          if cred !in rewards {
            rewards := rewards[cred := 0];
          }
        case DeregKey(cred) =>
          rewards := rewards - {cred};
          delegations := delegations - {cred};
        case Delegate(cred, pool) =>
          if cred !in rewards {
            rewards := rewards[cred := 0];
          }
          delegations := delegations[cred := pool];
        case RegPool(pool) =>
          pools := pools[pool.operator := pool];
          retiring := retiring - {pool.operator};
        case RetirePool(pool, epoch) =>
          retiring := retiring[pool := epoch];
      }
    }

    /** The object itself is updated; if the strict rules accept the block's
        certificates, to exactly the state that they give. */
    method ApplyBlockCerts(txs: seq<Tx>)
      modifies this
      ensures View() == LenientAll(CertsOf(txs), old(View()))
      ensures forall params, epoch :: Strict(CertsOf(txs), old(View()), params, epoch).Ok?
                ==> View() == Strict(CertsOf(txs), old(View()), params, epoch).state
    {
      hide Lenient, ProcessCertificate;
      ghost var start := View();
      for i := 0 to |txs|
        invariant View() == LenientAll(CertsOf(txs[..i]), start)
      {
        assert txs[..i + 1][..i] == txs[..i];
        if !txs[i].valid {
          assert CertsOf(txs[..i + 1]) == CertsOf(txs[..i]);
          continue;
        }
        ghost var middle := View();
        var certs := txs[i].certs;
        for j := 0 to |certs|
          invariant View() == LenientAll(certs[..j], middle)
        {
          assert certs[..j + 1][..j] == certs[..j];
          ApplyCertLenient(certs[j]);
        }
        assert certs[..|certs|] == certs;
        LenientConcat(CertsOf(txs[..i]), certs, start);
      }
      assert txs[..|txs|] == txs;
      forall params, epoch | Strict(CertsOf(txs), start, params, epoch).Ok?
        ensures View() == Strict(CertsOf(txs), start, params, epoch).state
      {
        StrictIsLenient(CertsOf(txs), start, params, epoch);
      }
    }
  }

  // ----- What strict runs keep ------------------------------------------------------------------

  /** Only registered credentials delegate, only to registered pools; only
      registered pools retire; and no two pools share a VRF key. */
  ghost predicate Sound(s: State) {
    && s.delegations.Keys <= s.rewards.Keys
    && (forall cred <- s.delegations :: s.delegations[cred] in s.pools)
    && s.retiring.Keys <= s.pools.Keys
    && (forall p <- s.pools :: s.pools[p].operator == p)
    && (forall p, q :: p in s.pools && q in s.pools && p != q ==> s.pools[p].vrf != s.pools[q].vrf)
  }

  lemma {:induction false} StrictKeepsSound(certs: seq<Cert>, s: State, params: Params, epoch: int)
    requires Sound(s) && Strict(certs, s, params, epoch).Ok?
    ensures Sound(Strict(certs, s, params, epoch).state)
    ensures s.pools.Keys <= Strict(certs, s, params, epoch).state.pools.Keys
    ensures Sum(Strict(certs, s, params, epoch).state.rewards) == Sum(s.rewards)
  {
    if certs != [] {
      hide Sound, ProcessCertificate;
      var n := |certs| - 1;
      StrictKeepsSound(certs[..n], s, params, epoch);
      CertKeepsSound(certs[n], Strict(certs[..n], s, params, epoch).state, params, epoch);
    }
  }

  lemma CertKeepsSound(cert: Cert, s: State, params: Params, epoch: int)
    requires Sound(s) && ProcessCertificate(cert, s, params, epoch).Ok?
    ensures var s' := ProcessCertificate(cert, s, params, epoch).state;
            Sound(s') && s.pools.Keys <= s'.pools.Keys && Sum(s'.rewards) == Sum(s.rewards)
  {
    hide RewardNetwork;
    match cert {
      case RegKey(cred) => SumPut(s.rewards, cred, 0);
      case DeregKey(cred) => SumRemove(s.rewards, cred);
      case Delegate(_, _) =>
      case RegPool(_) =>
      case RetirePool(_, _) =>
    }
  }

  /** In particular, everything reached from the empty state by accepted
      certificates is sound. */
  lemma StrictRunsAreSound(certs: seq<Cert>, params: Params, epoch: int)
    requires Strict(certs, EMPTY, params, epoch).Ok?
    ensures Sound(Strict(certs, EMPTY, params, epoch).state)
    ensures Sum(Strict(certs, EMPTY, params, epoch).state.rewards) == 0
  {
    hide Strict;
    StrictKeepsSound(certs, EMPTY, params, epoch);
  }

  // ----- What the lenient replay keeps ------------------------------------------------------------

  /** One lenient step keeps the state sound exactly when the guard that it skips
      would have held. */
  lemma LenientKeepsSoundExactly(cert: Cert, s: State)
    requires Sound(s)
    ensures Sound(Lenient(cert, s)) <==> Guarded(cert, s)
  {
    var s' := Lenient(cert, s);
    match cert {
      case RegKey(_) =>
      case DeregKey(_) =>
      case Delegate(cred, pool) => assert cred in s'.delegations && s'.delegations[cred] == pool;
      case RegPool(pool) => RegPoolSoundExactly(pool, s);
      case RetirePool(pool, _) => assert pool in s'.retiring;
    }
  }

  predicate Guarded(cert: Cert, s: State) {
    match cert
    case Delegate(_, pool) => pool in s.pools
    case RegPool(pool) => !VrfTaken(s.pools, pool.operator, pool.vrf)
    case RetirePool(pool, _) => pool in s.pools
    case _ => true
  }

  lemma RegPoolSoundExactly(pool: PoolParams, s: State)
    requires Sound(s)
    ensures Sound(Lenient(RegPool(pool), s)) <==> !VrfTaken(s.pools, pool.operator, pool.vrf)
  {
    var s' := Lenient(RegPool(pool), s);
    if p :| p in s.pools && p != pool.operator && s.pools[p].vrf == pool.vrf {
      assert p in s'.pools && pool.operator in s'.pools;
    }
  }

  /** Each of the three skipped guards can fail: a delegation to, or the retirement
      of, an unknown pool, and a second pool with the same VRF key. */
  lemma LenientCanBreakSoundness()
    ensures !Sound(LenientAll([Delegate(1, 2)], EMPTY)) && !Sound(LenientAll([RetirePool(1, 5)], EMPTY))
    ensures !Sound(LenientAll([RegPool(PoolParams(1, 9, 0, None, [])), RegPool(PoolParams(2, 9, 0, None, []))], EMPTY))
  {
    LenientOne(Delegate(1, 2), EMPTY);
    LenientKeepsSoundExactly(Delegate(1, 2), EMPTY);
    LenientOne(RetirePool(1, 5), EMPTY);
    LenientKeepsSoundExactly(RetirePool(1, 5), EMPTY);
    var a, b := PoolParams(1, 9, 0, None, []), PoolParams(2, 9, 0, None, []);
    LenientOne(RegPool(a), EMPTY);
    LenientConcat([RegPool(a)], [RegPool(b)], EMPTY);
    assert [RegPool(a)] + [RegPool(b)] == [RegPool(a), RegPool(b)];
    var one := Lenient(RegPool(a), EMPTY);
    LenientOne(RegPool(b), one);
    assert one.pools[1].vrf == 9;
    LenientKeepsSoundExactly(RegPool(b), one);
  }

  lemma LenientOne(cert: Cert, s: State)
    ensures LenientAll([cert], s) == Lenient(cert, s)
  {
    assert [cert][..0] == [];
  }

  /** Without any guard at all, every delegating credential is still registered. */
  lemma {:induction false} LenientKeepsRegistered(certs: seq<Cert>, s: State)
    requires s.delegations.Keys <= s.rewards.Keys
    ensures LenientAll(certs, s).delegations.Keys <= LenientAll(certs, s).rewards.Keys
  {
    if certs != [] {
      LenientKeepsRegistered(certs[..|certs| - 1], s);
    }
  }

  // ----- The last word ------------------------------------------------------------------------------

  /** The four questions that certificates answer, each by overwriting. */
  datatype Topic = Registration(cred: Id) | Choice(cred: Id) | Pool(pool: Id) | Retirement(pool: Id)

  ghost predicate Concerns(topic: Topic, cert: Cert) {
    match topic
    case Registration(c) => cert == RegKey(c) || cert == DeregKey(c) || (cert.Delegate? && cert.cred == c)
    case Choice(c) => cert == DeregKey(c) || (cert.Delegate? && cert.cred == c)
    case Pool(p) => cert.RegPool? && cert.pool.operator == p
    case Retirement(p) => (cert.RegPool? && cert.pool.operator == p) || (cert.RetirePool? && cert.operator == p)
  }

  /** The last certificate of a list on a topic. */
  ghost function LastWord(topic: Topic, certs: seq<Cert>): Option<Cert> {
    if certs == [] then None
    else if Concerns(topic, certs[|certs| - 1]) then Some(certs[|certs| - 1])
    else LastWord(topic, certs[..|certs| - 1])
  }

  ghost predicate Registered(x: Id, s: State, word: Option<Cert>) {
    match word
    case None => x in s.rewards
    case Some(cert) => !cert.DeregKey?
  }

  ghost function ChosenPool(x: Id, s: State, word: Option<Cert>): Option<Id> {
    match word
    case None => if x in s.delegations then Some(s.delegations[x]) else None
    case Some(cert) => if cert.Delegate? then Some(cert.target) else None
  }

  ghost function PoolEntry(x: Id, s: State, word: Option<Cert>): Option<PoolParams> {
    match word
    case None => if x in s.pools then Some(s.pools[x]) else None
    case Some(cert) => if cert.RegPool? then Some(cert.pool) else None
  }

  ghost function RetirementEpoch(x: Id, s: State, word: Option<Cert>): Option<int> {
    match word
    case None => if x in s.retiring then Some(s.retiring[x]) else None
    case Some(cert) => if cert.RetirePool? then Some(cert.epoch) else None
  }

  ghost function Lookup<V>(m: map<Id, V>, x: Id): Option<V> {
    if x in m then Some(m[x]) else None
  }

  lemma WordOfOne(cert: Cert, s: State, x: Id)
    ensures var s' := Lenient(cert, s);
            && (Concerns(Registration(x), cert) ==> (x in s'.rewards <==> !cert.DeregKey?))
            && (!Concerns(Registration(x), cert) ==> (x in s'.rewards <==> x in s.rewards))
            && Lookup(s'.delegations, x) == (if Concerns(Choice(x), cert) then ChosenPool(x, s, Some(cert)) else Lookup(s.delegations, x))
            && Lookup(s'.pools, x) == (if Concerns(Pool(x), cert) then PoolEntry(x, s, Some(cert)) else Lookup(s.pools, x))
            && Lookup(s'.retiring, x)
               == (if Concerns(Retirement(x), cert) then RetirementEpoch(x, s, Some(cert)) else Lookup(s.retiring, x))
  {}

  /** What a list of certificates leaves is decided, entry by entry, by the last one on
      the matter, and by the state before if there is none.  For accepted lists this is
      what the strict rules leave, too. */
  lemma {:induction false} LastWordDecides(certs: seq<Cert>, s: State, x: Id)
    ensures var s' := LenientAll(certs, s);
            && (x in s'.rewards <==> Registered(x, s, LastWord(Registration(x), certs)))
            && Lookup(s'.delegations, x) == ChosenPool(x, s, LastWord(Choice(x), certs))
            && Lookup(s'.pools, x) == PoolEntry(x, s, LastWord(Pool(x), certs))
            && Lookup(s'.retiring, x) == RetirementEpoch(x, s, LastWord(Retirement(x), certs))
  {
    if certs != [] {
      var n := |certs| - 1;
      LastWordDecides(certs[..n], s, x);
      hide Lenient, Concerns;
      WordOfOne(certs[n], LenientAll(certs[..n], s), x);
    }
  }

  /** A credential keeps its reward balance until it is deregistered, and starts with
      none when it is registered. */
  lemma {:induction false} BalancesStay(certs: seq<Cert>, s: State, x: Id)
    requires x in LenientAll(certs, s).rewards
    ensures LenientAll(certs, s).rewards[x] == if x in s.rewards && DeregKey(x) !in certs then s.rewards[x] else 0
  {
    if certs != [] {
      var n := |certs| - 1;
      assert DeregKey(x) in certs <==> DeregKey(x) in certs[..n] || certs[n] == DeregKey(x);
      if x in LenientAll(certs[..n], s).rewards {
        BalancesStay(certs[..n], s, x);
      } else {
        GoneIsDeregistered(certs[..n], s, x);
      }
    }
  }

  lemma {:induction false} GoneIsDeregistered(certs: seq<Cert>, s: State, x: Id)
    requires x !in LenientAll(certs, s).rewards
    ensures x in s.rewards ==> DeregKey(x) in certs
  {
    if certs != [] {
      var n := |certs| - 1;
      assert DeregKey(x) in certs <==> DeregKey(x) in certs[..n] || certs[n] == DeregKey(x);
      if x !in LenientAll(certs[..n], s).rewards {
        GoneIsDeregistered(certs[..n], s, x);
      }
    }
  }

  // ----- Why a certificate is refused -----------------------------------------------------------------

  /** The error names a precondition of the certificate's rule that does not hold. */
  ghost predicate Explains(error: Error, cert: Cert, s: State, params: Params, epoch: int) {
    match error
    case KeyAlreadyRegistered(c) => cert == RegKey(c) && c in s.rewards
    case KeyNotRegistered(c) => (cert.DeregKey? || cert.Delegate?) && cert.cred == c && c !in s.rewards
    case NonZeroBalance(c, balance) => cert == DeregKey(c) && c in s.rewards && s.rewards[c] == balance != 0
    case DelegationImpossible(p) => cert.Delegate? && cert.target == p && p !in s.pools && cert.cred in s.rewards
    case PoolCostTooLow(cost) => cert.RegPool? && cert.pool.cost == cost < params.minPoolCost
    case DuplicateVrfKey(vrf) =>
      cert.RegPool? && cert.pool.vrf == vrf && exists p <- s.pools :: p != cert.pool.operator && s.pools[p].vrf == vrf
    case MetadataUrlTooLong(n) => cert.RegPool? && cert.pool.metadata.Some? && cert.pool.metadata.value.urlBytes == n > 64
    case MetadataHashWrongSize(n) => cert.RegPool? && cert.pool.metadata.Some? && cert.pool.metadata.value.hashBytes == n != 32
    case WrongNetwork(n) =>
      && cert.RegPool? && cert.pool.rewardAccount != []
      && var header := cert.pool.rewardAccount[0] as int; header / 16 in {14, 15} && header % 16 == n != params.networkId
    case PoolNotRegistered(p) => cert.RetirePool? && cert.operator == p && p !in s.pools
    case RetirementWrongEpoch(e) => cert.RetirePool? && cert.operator in s.pools && cert.epoch == e <= epoch
  }

  lemma RefusalsAreExplained(cert: Cert, s: State, params: Params, epoch: int)
    requires ProcessCertificate(cert, s, params, epoch).Err?
    ensures Explains(ProcessCertificate(cert, s, params, epoch).error, cert, s, params, epoch)
  {
    if cert.RegPool? {
      RewardNetworkIs(cert.pool.rewardAccount);
    }
    hide RewardNetwork;
  }

  // ----- Deposits -------------------------------------------------------------------------------------

  /** What a certificate adds to the net deposits. */
  function NetOf(cert: Cert, params: Params): int {
    match cert
    case RegKey(_) => params.keyDeposit
    case DeregKey(_) => -params.keyDeposit
    case RegPool(_) => params.poolDeposit
    case _ => 0
  }

  function Net(certs: seq<Cert>, params: Params): int {
    if certs == [] then 0 else Net(certs[..|certs| - 1], params) + NetOf(certs[|certs| - 1], params)
  }

  method ComputeCertificateDeposits(certs: seq<Cert>, params: Params) returns (net: int)
    ensures net == Net(certs, params)
  {
    var deposits, refunds := 0, 0;
    for i := 0 to |certs|
      invariant deposits - refunds == Net(certs[..i], params)
    {
      assert certs[..i + 1][..i] == certs[..i];
      match certs[i] {
        case RegKey(_) => deposits := deposits + params.keyDeposit;
        case DeregKey(_) => refunds := refunds + params.keyDeposit;
        case RegPool(_) => deposits := deposits + params.poolDeposit;
        case _ =>
      }
    }
    assert certs[..|certs|] == certs;
    net := deposits - refunds;
  }

  /** How many of the pool registrations are of pools that are registered already. */
  ghost function Reregistrations(certs: seq<Cert>, s: State, params: Params, epoch: int): nat
    requires Strict(certs, s, params, epoch).Ok?
  {
    if certs == [] then 0
    else
      var n := |certs| - 1;
      var before := Strict(certs[..n], s, params, epoch).state;
      Reregistrations(certs[..n], s, params, epoch)
      + if certs[n].RegPool? && certs[n].pool.operator in before.pools then 1 else 0
  }

  lemma SizePut<V>(m: map<Id, V>, k: Id, v: V)
    ensures |m[k := v]| == |m| + if k in m then 0 else 1
  {
    assert m[k := v].Keys == m.Keys + {k};
  }

  lemma SizeRemove<V>(m: map<Id, V>, k: Id)
    requires k in m
    ensures |m - {k}| == |m| - 1
  {
    assert m.Keys == (m - {k}).Keys + {k};
  }

  /** The deposits of a number of keys and pools. */
  function Charge(params: Params, keys: int, pools: int): int {
    params.keyDeposit * keys + params.poolDeposit * pools
  }

  lemma ChargeUnits(params: Params)
    ensures Charge(params, 0, 0) == 0
    ensures Charge(params, 1, 0) == params.keyDeposit && Charge(params, -1, 0) == -params.keyDeposit
    ensures Charge(params, 0, 1) == params.poolDeposit
  {}

  lemma Multiples(x: int, a: int, b: int)
    ensures x * a + x * b == x * (a + b)
  {}

  lemma ChargeAdds(params: Params, a: int, b: int, c: int, d: int)
    ensures Charge(params, a, b) + Charge(params, c, d) == Charge(params, a + c, b + d)
  {
    Multiples(params.keyDeposit, a, c);
    Multiples(params.poolDeposit, b, d);
  }

  lemma ChargeDiffers(params: Params, keys: int, pools: int, more: int)
    ensures Charge(params, keys, pools + more) == Charge(params, keys, pools) <==> more == 0 || params.poolDeposit == 0
  {
    Multiples(params.poolDeposit, pools, more);
    NoZeroDivisors(params.poolDeposit, more);
  }

  lemma NoZeroDivisors(x: int, y: int)
    ensures x * y == 0 <==> x == 0 || y == 0
  {}

  /** One accepted certificate: deposits follow the registered keys and pools,
      except that a re-registration is charged as well. */
  lemma CertDeposits(cert: Cert, s: State, params: Params, epoch: int)
    requires ProcessCertificate(cert, s, params, epoch).Ok?
    ensures var s' := ProcessCertificate(cert, s, params, epoch).state;
            var again := if cert.RegPool? && cert.pool.operator in s.pools then 1 else 0;
            NetOf(cert, params) == Charge(params, |s'.rewards| - |s.rewards|, |s'.pools| - |s.pools| + again)
  {
    hide Charge, ProcessCertificate;
    CertSizes(cert, s, params, epoch);
    ChargeUnits(params);
  }

  lemma CertSizes(cert: Cert, s: State, params: Params, epoch: int)
    requires ProcessCertificate(cert, s, params, epoch).Ok?
    ensures var s' := ProcessCertificate(cert, s, params, epoch).state;
            var again := if cert.RegPool? && cert.pool.operator in s.pools then 1 else 0;
            && |s'.rewards| - |s.rewards| == (if cert.RegKey? then 1 else if cert.DeregKey? then -1 else 0)
            && |s'.pools| - |s.pools| + again == (if cert.RegPool? then 1 else 0)
  {
    hide VrfTaken, RewardNetwork;
    if cert.RegKey? {
      SizePut(s.rewards, cert.cred, 0);
    } else if cert.DeregKey? {
      SizeRemove(s.rewards, cert.cred);
    } else if cert.RegPool? {
      RegPoolSizes(cert.pool, s, params);
    }
  }

  lemma RegPoolSizes(pool: PoolParams, s: State, params: Params)
    requires ProcessRegPool(pool, s, params).Ok?
    ensures var s' := ProcessRegPool(pool, s, params).state;
            s'.rewards == s.rewards && |s'.pools| == |s.pools| + if pool.operator in s.pools then 0 else 1
  {
    hide VrfTaken, RewardNetwork;
    SizePut(s.pools, pool.operator, pool);
  }

  /** The net deposits of an accepted list: one key deposit for every key more, one
      pool deposit for every pool more - and one for every re-registration. So they
      are what the rules promise exactly when no pool re-registers or pools are free. */
  lemma DepositsAreBacked(certs: seq<Cert>, s: State, params: Params, epoch: int)
    requires Strict(certs, s, params, epoch).Ok?
    ensures var s' := Strict(certs, s, params, epoch).state;
            var keys, pools := |s'.rewards| - |s.rewards|, |s'.pools| - |s.pools|;
            var again := Reregistrations(certs, s, params, epoch);
            && Net(certs, params) == Charge(params, keys, pools + again)
            && (Net(certs, params) == Charge(params, keys, pools) <==> again == 0 || params.poolDeposit == 0)
  {
    hide Charge, Strict, Net;
    DepositsAddUp(certs, s, params, epoch);
    var s' := Strict(certs, s, params, epoch).state;
    ChargeDiffers(params, |s'.rewards| - |s.rewards|, |s'.pools| - |s.pools|, Reregistrations(certs, s, params, epoch));
  }

  lemma {:induction false} DepositsAddUp(certs: seq<Cert>, s: State, params: Params, epoch: int)
    requires Strict(certs, s, params, epoch).Ok?
    ensures var s' := Strict(certs, s, params, epoch).state;
            Net(certs, params)
            == Charge(params, |s'.rewards| - |s.rewards|, |s'.pools| - |s.pools| + Reregistrations(certs, s, params, epoch))
  {
    hide ProcessCertificate, NetOf, Charge;
    if certs == [] {
      ChargeUnits(params);
    } else {
      var n := |certs| - 1;
      DepositsAddUp(certs[..n], s, params, epoch);
      var before := Strict(certs[..n], s, params, epoch).state;
      var after := ProcessCertificate(certs[n], before, params, epoch).state;
      CertDeposits(certs[n], before, params, epoch);
      var again := if certs[n].RegPool? && certs[n].pool.operator in before.pools then 1 else 0;
      ChargeAdds(params, |before.rewards| - |s.rewards|, |before.pools| - |s.pools| + Reregistrations(certs[..n], s, params, epoch),
                 |after.rewards| - |before.rewards|, |after.pools| - |before.pools| + again);
    }
  }

  lemma StrictMore(certs: seq<Cert>, cert: Cert, s: State, params: Params, epoch: int)
    requires Strict(certs, s, params, epoch).Ok?
    ensures Strict(certs + [cert], s, params, epoch) == ProcessCertificate(cert, Strict(certs, s, params, epoch).state, params, epoch)
    ensures Net(certs + [cert], params) == Net(certs, params) + NetOf(cert, params)
  {
    assert (certs + [cert])[..|certs|] == certs;
  }

  /** One pool registered twice is charged two deposits. */
  lemma ReregistrationIsCharged(params: Params, epoch: int)
    requires params.minPoolCost <= 0
    ensures var again := [RegPool(PoolParams(1, 9, 0, None, [])), RegPool(PoolParams(1, 9, 0, None, []))];
            && Strict(again, EMPTY, params, epoch).Ok? && |Strict(again, EMPTY, params, epoch).state.pools| == 1
            && Net(again, params) == 2 * params.poolDeposit
  {
    var cert := RegPool(PoolParams(1, 9, 0, None, []));
    StrictMore([], cert, EMPTY, params, epoch);
    StrictMore([cert], cert, EMPTY, params, epoch);
    assert [] + [cert] == [cert] && [cert] + [cert] == [cert, cert];
    SizePut<PoolParams>(map[], 1, cert.pool);
    SizePut(map[1 := cert.pool], 1, cert.pool);
  }
}
