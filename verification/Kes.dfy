// Key-evolving signatures: the iterated sum construction over a binary tree of
// ordinary signature keys.

module Kes {
  newtype byte = b: int | 0 <= b < 256
  type Bytes = seq<byte>

  datatype Option<+T> = None | Some(value: T)
  datatype Result<+T> = Ok(value: T) | Failed

  /** The foreign primitives: Ed25519 and two uses of Blake2b-256. */
  datatype Crypto = Crypto(
    vkOf: Bytes -> Bytes,
    sign: (Bytes, Bytes) -> Bytes,
    verify: (Bytes, Bytes, Bytes) -> bool,
    hash: Bytes -> Bytes,
    leftSeed: Bytes -> Bytes,
    rightSeed: Bytes -> Bytes)

  const VK_SIZE := 32
  const SIG_SIZE := 64

  /** Sizes, and that a signature verifies under its own key. */
  ghost predicate Sound(c: Crypto) {
    && (forall s :: |c.vkOf(s)| == VK_SIZE)
    && (forall s, m :: |c.sign(s, m)| == SIG_SIZE)
    && (forall s, m :: c.verify(c.vkOf(s), c.sign(s, m), m))
    && (forall x :: |c.hash(x)| == 32)
    && (forall s :: |c.leftSeed(s)| == 32 && |c.rightSeed(s)| == 32)
  }

  function Pow2(n: nat): (p: nat)
    ensures p > 0
  {
    if n == 0 then 1 else 2 * Pow2(n - 1)
  }

  // ----- Keys ----------------------------------------------------------------

  type pos = n: nat | n > 0 witness 1

  /** A leaf holds a private key or has been erased; a node's subtrees may have
      been erased, its two cached verification keys stay. */
  datatype Key =
    | Leaf(sk: Option<Bytes>, vk: Bytes, zeroed: bool)
    | Node(depth: pos, left: Option<Key>, right: Option<Key>, leftVk: Bytes, rightVk: Bytes)

  function Depth(k: Key): nat {
    if k.Leaf? then 0 else k.depth
  }

  function DeriveVk(c: Crypto, k: Key): Bytes {
    match k
    case Leaf(_, vk, _) => vk
    case Node(_, _, _, l, r) => c.hash(l + r)
  }

  function KeygenTree(c: Crypto, seed: Bytes, depth: nat): Key
    decreases depth
  {
    if depth == 0 then Leaf(Some(seed), c.vkOf(seed), false)
    else
      var l := KeygenTree(c, c.leftSeed(seed), depth - 1);
      var r := KeygenTree(c, c.rightSeed(seed), depth - 1);
      Node(depth, Some(l), Some(r), DeriveVk(c, l), DeriveVk(c, r))
  }

  function KeygenFromSeed(c: Crypto, seed: Bytes, depth: nat): Result<Key> {
    if |seed| != 32 then Failed else Ok(KeygenTree(c, seed, depth))
  }

  /** A key pair none of whose subtrees has been erased, as key generation
      makes it, from a seed or at random. */
  ghost predicate Fresh(c: Crypto, k: Key) {
    match k
    case Leaf(sk, vk, zeroed) => sk.Some? && |sk.value| == 32 && vk == c.vkOf(sk.value) && !zeroed
    case Node(d, l, r, lvk, rvk) =>
      && l.Some? && r.Some?
      && Depth(l.value) == d - 1 == Depth(r.value)
      && Fresh(c, l.value) && Fresh(c, r.value)
      && lvk == DeriveVk(c, l.value) && rvk == DeriveVk(c, r.value)
  }

  /** The private keys stored in a key, in the order of their periods. */
  ghost function Secrets(k: Key): seq<Bytes> {
    match k
    case Leaf(sk, _, _) => if sk.Some? then [sk.value] else []
    case Node(_, l, r, _, _) =>
      (if l.Some? then Secrets(l.value) else []) + (if r.Some? then Secrets(r.value) else [])
  }

  lemma {:induction false} KeygenTreeIsFresh(c: Crypto, seed: Bytes, depth: nat)
    requires Sound(c) && |seed| == 32
    ensures Fresh(c, KeygenTree(c, seed, depth)) && Depth(KeygenTree(c, seed, depth)) == depth
    decreases depth
  {
    if depth > 0 {
      KeygenTreeIsFresh(c, c.leftSeed(seed), depth - 1);
      KeygenTreeIsFresh(c, c.rightSeed(seed), depth - 1);
    }
  }

  /** Every seed of 32 bytes, and no other, gives a key, and it is a complete tree
      of the depth asked for. */
  lemma KeygenIsFresh(c: Crypto, seed: Bytes, depth: nat)
    requires Sound(c)
    ensures KeygenFromSeed(c, seed, depth).Ok? <==> |seed| == 32
    ensures |seed| == 32 ==> var key := KeygenFromSeed(c, seed, depth).value;
                             Fresh(c, key) && Depth(key) == depth && |Secrets(key)| == Pow2(depth)
  {
    if |seed| == 32 {
      KeygenTreeIsFresh(c, seed, depth);
      FreshKeyHasAllSecrets(c, KeygenTree(c, seed, depth));
    }
  }

  lemma {:induction false} FreshKeyHasAllSecrets(c: Crypto, k: Key)
    requires Fresh(c, k)
    ensures |Secrets(k)| == Pow2(Depth(k))
  {
    if k.Node? {
      FreshKeyHasAllSecrets(c, k.left.value);
      FreshKeyHasAllSecrets(c, k.right.value);
    }
  }

  // ----- Which secret is whose ---------------------------------------------------

  /** The seed at the end of a path down from `seed`: false is left, true is right. */
  ghost function SeedAlong(c: Crypto, seed: Bytes, path: seq<bool>): Bytes
    decreases path
  {
    if path == [] then seed
    else SeedAlong(c, if path[0] then c.rightSeed(seed) else c.leftSeed(seed), path[1..])
  }

  /** The number that the path spells in binary, its first step being the top digit. */
  ghost function Number(path: seq<bool>): (t: nat)
    ensures t < Pow2(|path|)
  {
    if path == [] then 0 else (if path[0] then Pow2(|path| - 1) else 0) + Number(path[1..])
  }

  lemma {:induction false} EveryPeriodHasItsPath(d: nat, t: nat) returns (path: seq<bool>)
    requires t < Pow2(d)
    ensures |path| == d && Number(path) == t
  {
    if d == 0 {
      path := [];
    } else {
      var top := t >= Pow2(d - 1);
      path := EveryPeriodHasItsPath(d - 1, if top then t - Pow2(d - 1) else t);
      path := [top] + path;
    }
  }

  lemma {:induction false} PathIsUnique(p: seq<bool>, q: seq<bool>)
    requires |p| == |q| && Number(p) == Number(q)
    ensures p == q
  {
    if p != [] {
      PathIsUnique(p[1..], q[1..]);
      assert p == [p[0]] + p[1..] && q == [q[0]] + q[1..];
    }
  }

  /** Period `t` of the key generated from `seed` has the secret `secret`. */
  ghost predicate HasLeaf(c: Crypto, seed: Bytes, depth: nat, t: nat, secret: Bytes) {
    var secrets := Secrets(KeygenTree(c, seed, depth));
    t < |secrets| && secrets[t] == secret
  }

  /** The secret of period t of a generated key is the seed reached by following the
      binary digits of t. */
  lemma {:induction false} KeygenLeaves(c: Crypto, seed: Bytes, path: seq<bool>)
    ensures HasLeaf(c, seed, |path|, Number(path), SeedAlong(c, seed, path))
    decreases |path|
  {
    if path != [] {
      PathTail(c, seed, path);
      hide HasLeaf, SeedAlong, Number, Pow2;
      var rest := path[1..];
      if path[0] {
        KeygenLeaves(c, c.rightSeed(seed), rest);
        LeafOfRight(c, seed, |path|, Number(rest), SeedAlong(c, c.rightSeed(seed), rest));
      } else {
        KeygenLeaves(c, c.leftSeed(seed), rest);
        LeafOfLeft(c, seed, |path|, Number(rest), SeedAlong(c, c.leftSeed(seed), rest));
      }
    }
  }

  lemma PathTail(c: Crypto, seed: Bytes, path: seq<bool>)
    requires path != []
    ensures Number(path) == (if path[0] then Pow2(|path| - 1) else 0) + Number(path[1..])
    ensures SeedAlong(c, seed, path) == SeedAlong(c, if path[0] then c.rightSeed(seed) else c.leftSeed(seed), path[1..])
  {}

  lemma LeafOfLeft(c: Crypto, seed: Bytes, depth: pos, t: nat, secret: Bytes)
    requires HasLeaf(c, c.leftSeed(seed), depth - 1, t, secret)
    ensures HasLeaf(c, seed, depth, t, secret)
  {
    SecretsOfGrown(c, seed, depth);
  }

  lemma LeafOfRight(c: Crypto, seed: Bytes, depth: pos, t: nat, secret: Bytes)
    requires HasLeaf(c, c.rightSeed(seed), depth - 1, t, secret)
    ensures HasLeaf(c, seed, depth, Pow2(depth - 1) + t, secret)
  {
    SecretsOfGrown(c, seed, depth);
  }

  lemma SecretsOfGrown(c: Crypto, seed: Bytes, depth: pos)
    ensures var l, r := Secrets(KeygenTree(c, c.leftSeed(seed), depth - 1)), Secrets(KeygenTree(c, c.rightSeed(seed), depth - 1));
            Secrets(KeygenTree(c, seed, depth)) == l + r && |l| == |r| == Pow2(depth - 1)
  {
    KeygenSecretCount(c, c.leftSeed(seed), depth - 1);
    KeygenSecretCount(c, c.rightSeed(seed), depth - 1);
  }

  lemma {:induction false} KeygenSecretCount(c: Crypto, seed: Bytes, depth: nat)
    ensures |Secrets(KeygenTree(c, seed, depth))| == Pow2(depth)
    decreases depth
  {
    if depth > 0 {
      KeygenSecretCount(c, c.leftSeed(seed), depth - 1);
      KeygenSecretCount(c, c.rightSeed(seed), depth - 1);
    }
  }

  lemma {:induction false} OneStepDown(c: Crypto, seed: Bytes, path: seq<bool>, right: bool)
    ensures var above := SeedAlong(c, seed, path);
            SeedAlong(c, seed, path + [right]) == if right then c.rightSeed(above) else c.leftSeed(above)
    decreases |path|
  {
    if path == [] {
      assert path + [right] == [right] && [right][1..] == [];
    } else {
      OneStepDown(c, if path[0] then c.rightSeed(seed) else c.leftSeed(seed), path[1..], right);
      assert (path + [right])[1..] == path[1..] + [right];
    }
  }

  /** At each level of the tree over `seed` the derivations keep different seeds apart,
      and never agree with each other. */
  ghost predicate CollisionFree(c: Crypto, seed: Bytes, depth: nat) {
    forall p: seq<bool>, q: seq<bool> {:trigger SeedAlong(c, seed, p), SeedAlong(c, seed, q)} | |p| == |q| < depth ::
      var a, b := SeedAlong(c, seed, p), SeedAlong(c, seed, q);
      && (a != b ==> c.leftSeed(a) != c.leftSeed(b) && c.rightSeed(a) != c.rightSeed(b))
      && c.leftSeed(a) != c.rightSeed(b)
  }

  ghost predicate AllDifferent(secrets: seq<Bytes>) {
    forall t, u :: 0 <= t < u < |secrets| ==> secrets[t] != secrets[u]
  }

  lemma {:induction false} PathsApart(c: Crypto, seed: Bytes, depth: nat, p: seq<bool>, q: seq<bool>)
    requires CollisionFree(c, seed, depth) && |p| == |q| <= depth && p != q
    ensures SeedAlong(c, seed, p) != SeedAlong(c, seed, q)
    decreases |p|
  {
    var n := |p| - 1;
    assert p == p[..n] + [p[n]] && q == q[..n] + [q[n]];
    OneStepDown(c, seed, p[..n], p[n]);
    OneStepDown(c, seed, q[..n], q[n]);
    if p[n] == q[n] {
      PathsApart(c, seed, depth, p[..n], q[..n]);
    }
  }

  /** Two paths that meet stay together. */
  lemma {:induction false} MeetingPaths(c: Crypto, seed: Bytes, p: seq<bool>, q: seq<bool>, depth: nat)
    requires |p| == |q| <= depth && p != q && SeedAlong(c, seed, p) == SeedAlong(c, seed, q)
    ensures !AllDifferent(Secrets(KeygenTree(c, seed, depth)))
    decreases depth - |p|
  {
    if |p| == depth {
      KeygenLeaves(c, seed, p);
      KeygenLeaves(c, seed, q);
      if Number(p) == Number(q) {
        PathIsUnique(p, q);
      }
    } else {
      OneStepDown(c, seed, p, false);
      OneStepDown(c, seed, q, false);
      assert (p + [false])[..|p|] == p && (q + [false])[..|q|] == q;
      MeetingPaths(c, seed, p + [false], q + [false], depth);
    }
  }

  lemma ApartWhenDifferent(c: Crypto, seed: Bytes, depth: nat, p: seq<bool>, q: seq<bool>)
    requires AllDifferent(Secrets(KeygenTree(c, seed, depth))) && |p| == |q| < depth
    ensures var a, b := SeedAlong(c, seed, p), SeedAlong(c, seed, q);
            && (a != b ==> c.leftSeed(a) != c.leftSeed(b) && c.rightSeed(a) != c.rightSeed(b))
            && c.leftSeed(a) != c.rightSeed(b)
  {
    OneStepDown(c, seed, p, false);
    OneStepDown(c, seed, p, true);
    OneStepDown(c, seed, q, false);
    OneStepDown(c, seed, q, true);
    hide AllDifferent, SeedAlong;
    var n := |p|;
    assert (p + [false])[n] != (q + [true])[n];
    if c.leftSeed(SeedAlong(c, seed, p)) == c.rightSeed(SeedAlong(c, seed, q)) {
      MeetingPaths(c, seed, p + [false], q + [true], depth);
    }
    if SeedAlong(c, seed, p) != SeedAlong(c, seed, q) {
      assert (p + [false])[..n] == p && (q + [false])[..n] == q && (p + [true])[..n] == p && (q + [true])[..n] == q;
      if c.leftSeed(SeedAlong(c, seed, p)) == c.leftSeed(SeedAlong(c, seed, q)) {
        MeetingPaths(c, seed, p + [false], q + [false], depth);
      }
      if c.rightSeed(SeedAlong(c, seed, p)) == c.rightSeed(SeedAlong(c, seed, q)) {
        MeetingPaths(c, seed, p + [true], q + [true], depth);
      }
    }
  }

  /** Forward security starts here: all periods of a generated key have different
      secrets exactly when the two derivations do not collide on its seeds. */
  lemma SecretsDifferExactly(c: Crypto, seed: Bytes, depth: nat)
    ensures AllDifferent(Secrets(KeygenTree(c, seed, depth))) <==> CollisionFree(c, seed, depth)
  {
    var secrets := Secrets(KeygenTree(c, seed, depth));
    KeygenSecretCount(c, seed, depth);
    if CollisionFree(c, seed, depth) {
      forall t, u | 0 <= t < u < |secrets| ensures secrets[t] != secrets[u] {
        var p := EveryPeriodHasItsPath(depth, t);
        var q := EveryPeriodHasItsPath(depth, u);
        KeygenLeaves(c, seed, p);
        KeygenLeaves(c, seed, q);
        PathsApart(c, seed, depth, p, q);
      }
    }
    if AllDifferent(secrets) {
      forall p: seq<bool>, q: seq<bool> | |p| == |q| < depth
        ensures var a, b := SeedAlong(c, seed, p), SeedAlong(c, seed, q);
                && (a != b ==> c.leftSeed(a) != c.leftSeed(b) && c.rightSeed(a) != c.rightSeed(b))
                && c.leftSeed(a) != c.rightSeed(b)
      {
        ApartWhenDifferent(c, seed, depth, p, q);
      }
    }
  }

  // ----- Signing and verifying -------------------------------------------------

  function SigSize(depth: nat): nat {
    SIG_SIZE + depth * 2 * VK_SIZE
  }

  /** None stands for the assertion that fails on an erased leaf or subtree. */
  function SignTree(c: Crypto, k: Key, period: nat, msg: Bytes): Option<Bytes> {
    match k
    case Leaf(sk, _, _) => if sk.Some? then Some(c.sign(sk.value, msg)) else None
    case Node(d, l, r, lvk, rvk) =>
      if period < Pow2(d - 1) then
        if l.None? then None
        else var sig := SignTree(c, l.value, period, msg);
             if sig.None? then None else Some(sig.value + lvk + rvk)
      else
        if r.None? then None
        else var sig := SignTree(c, r.value, period - Pow2(d - 1), msg);
             if sig.None? then None else Some(sig.value + lvk + rvk)
  }

  /** None stands for any of the errors: period out of range, key erased. */
  function Sign(c: Crypto, k: Key, period: int, msg: Bytes): Option<Bytes> {
    if period < 0 || period >= Pow2(Depth(k)) then None
    else if k.Leaf? && k.zeroed then None
    else SignTree(c, k, period, msg)
  }

  predicate VerifyTree(c: Crypto, vk: Bytes, depth: nat, period: nat, sig: Bytes, msg: Bytes)
    requires |sig| == SigSize(depth)
    decreases depth
  {
    if depth == 0 then c.verify(vk, sig, msg)
    else
      var n := SigSize(depth - 1);
      var child, lvk, rvk := sig[..n], sig[n..n + VK_SIZE], sig[n + VK_SIZE..n + 2 * VK_SIZE];
      && c.hash(lvk + rvk) == vk
      && if period < Pow2(depth - 1) then VerifyTree(c, lvk, depth - 1, period, child, msg)
         else VerifyTree(c, rvk, depth - 1, period - Pow2(depth - 1), child, msg)
  }

  predicate Verify(c: Crypto, vk: Bytes, depth: nat, period: int, sig: Bytes, msg: Bytes) {
    && 0 <= period < Pow2(depth)
    && |sig| == SigSize(depth)
    && |vk| == VK_SIZE
    && VerifyTree(c, vk, depth, period, sig, msg)
  }

  // ----- Evolution ---------------------------------------------------------------

  /** Failed stands for the exception raised when a subtree is missing. */
  function UpdateTree(k: Key, period: nat): Result<Key> {
    match k
    case Leaf(_, vk, _) => Ok(Leaf(None, vk, true))
    case Node(d, l, r, _, _) =>
      if period + 1 < Pow2(d - 1) then
        if l.None? then Failed
        else var sub := UpdateTree(l.value, period);
             if sub.Failed? then Failed else Ok(k.(left := Some(sub.value)))
      else if period + 1 == Pow2(d - 1) then Ok(k.(left := None))
      else
        if r.None? then Failed
        else var sub := UpdateTree(r.value, period - Pow2(d - 1));
             if sub.Failed? then Failed else Ok(k.(right := Some(sub.value)))
  }

  function Update(k: Key, period: nat): Result<Option<Key>> {
    if period + 1 >= Pow2(Depth(k)) then Ok(None)
    else
      var next := UpdateTree(k, period);
      if next.Failed? then Failed else Ok(Some(next.value))
  }

  /** `n` calls of `kes_update`, at periods 0, 1, and so on. */
  function Evolve(k: Key, n: nat): Result<Option<Key>> {
    if n == 0 then Ok(Some(k))
    else match Evolve(k, n - 1)
      case Ok(Some(k')) => Update(k', n - 1)
      case other => other
  }

  /** The key that a fresh key has become at period `p`: everything before `p`
      is gone, everything from `p` on is untouched. */
  ghost function At(c: Crypto, k: Key, p: nat): Key
    requires Fresh(c, k)
  {
    match k
    case Leaf(_, _, _) => k
    case Node(d, l, r, lvk, rvk) =>
      if p < Pow2(d - 1) then k.(left := Some(At(c, l.value, p)))
      else Node(d, None, Some(At(c, r.value, p - Pow2(d - 1))), lvk, rvk)
  }

  ghost predicate NoZeroedLeaf(k: Key) {
    match k
    case Leaf(_, _, zeroed) => !zeroed
    case Node(_, l, r, _, _) => (l.Some? ==> NoZeroedLeaf(l.value)) && (r.Some? ==> NoZeroedLeaf(r.value))
  }

  lemma {:induction false} AtZero(c: Crypto, k: Key)
    requires Fresh(c, k)
    ensures At(c, k, 0) == k
  {
    if k.Node? {
      AtZero(c, k.left.value);
    }
  }

  lemma {:induction false} UpdateTreeAdvances(c: Crypto, k: Key, p: nat)
    requires Fresh(c, k) && p + 1 < Pow2(Depth(k))
    ensures UpdateTree(At(c, k, p), p) == Ok(At(c, k, p + 1))
  {
    var half := Pow2(k.depth - 1);
    if p + 1 < half {
      UpdateTreeAdvances(c, k.left.value, p);
    } else if p + 1 == half {
      AtZero(c, k.right.value);
    } else {
      UpdateTreeAdvances(c, k.right.value, p - half);
    }
  }

  lemma {:induction false} AtKeepsShape(c: Crypto, k: Key, p: nat)
    requires Fresh(c, k) && p < Pow2(Depth(k))
    ensures Depth(At(c, k, p)) == Depth(k) && DeriveVk(c, At(c, k, p)) == DeriveVk(c, k)
  {}

  lemma {:induction false} FreshHasNoZeroedLeaf(c: Crypto, k: Key)
    requires Fresh(c, k)
    ensures NoZeroedLeaf(k)
  {
    if k.Node? {
      FreshHasNoZeroedLeaf(c, k.left.value);
      FreshHasNoZeroedLeaf(c, k.right.value);
    }
  }

  lemma {:induction false} AtHasNoZeroedLeaf(c: Crypto, k: Key, p: nat)
    requires Fresh(c, k)
    ensures NoZeroedLeaf(At(c, k, p))
  {
    if k.Node? {
      if p < Pow2(k.depth - 1) {
        AtHasNoZeroedLeaf(c, k.left.value, p);
        FreshHasNoZeroedLeaf(c, k.right.value);
      } else {
        AtHasNoZeroedLeaf(c, k.right.value, p - Pow2(k.depth - 1));
      }
    }
  }

  lemma DropFromPair(a: seq<Bytes>, b: seq<Bytes>, p: nat)
    requires p <= |a| + |b|
    ensures (a + b)[p..] == if p < |a| then a[p..] + b else b[p - |a|..]
  {}

  lemma SecretsOfNode(c: Crypto, k: Key)
    requires Fresh(c, k) && k.Node?
    ensures Secrets(k) == Secrets(k.left.value) + Secrets(k.right.value)
    ensures |Secrets(k.left.value)| == |Secrets(k.right.value)| == Pow2(k.depth - 1)
    ensures Pow2(k.depth) == 2 * Pow2(k.depth - 1)
  {
    FreshKeyHasAllSecrets(c, k.left.value);
    FreshKeyHasAllSecrets(c, k.right.value);
  }

  lemma {:induction false} AtKeepsLaterSecrets(c: Crypto, k: Key, p: nat)
    requires Fresh(c, k) && p < Pow2(Depth(k))
    ensures |Secrets(k)| == Pow2(Depth(k)) && Secrets(At(c, k, p)) == Secrets(k)[p..]
  {
    FreshKeyHasAllSecrets(c, k);
    if k.Node? {
      var l, r := k.left.value, k.right.value;
      SecretsOfNode(c, k);
      DropFromPair(Secrets(l), Secrets(r), p);
      if p < Pow2(k.depth - 1) {
        AtKeepsLaterSecrets(c, l, p);
      } else {
        AtKeepsLaterSecrets(c, r, p - Pow2(k.depth - 1));
      }
    }
  }

  lemma {:induction false} EvolvesTo(c: Crypto, k: Key, p: nat)
    requires Fresh(c, k)
    ensures Evolve(k, p) == Ok(if p < Pow2(Depth(k)) then Some(At(c, k, p)) else None)
  {
    hide UpdateTree, At, Fresh;
    if p == 0 {
      AtZero(c, k);
    } else {
      EvolvesTo(c, k, p - 1);
      if p - 1 < Pow2(Depth(k)) {
        AtKeepsShape(c, k, p - 1);
        if p < Pow2(Depth(k)) {
          UpdateTreeAdvances(c, k, p - 1);
        }
      }
    }
  }

  /** Evolution: calling `kes_update` once a period takes a fresh key of depth d
      through exactly the periods 0 .. 2^d - 1.  At period p the key has the
      same root, holds exactly the secrets of the periods from p on, and no
      leaf has been zeroed on the way; the call at the last period, and no
      earlier one, reports exhaustion. */
  lemma Evolution(c: Crypto, k: Key, p: nat)
    requires Fresh(c, k)
    ensures p >= Pow2(Depth(k)) ==> Evolve(k, p) == Ok(None)
    ensures p < Pow2(Depth(k)) ==>
              && Evolve(k, p).Ok? && Evolve(k, p).value.Some?
              && var key := Evolve(k, p).value.value;
                 && DeriveVk(c, key) == DeriveVk(c, k) && Depth(key) == Depth(k)
                 && p <= |Secrets(k)| == Pow2(Depth(k)) && Secrets(key) == Secrets(k)[p..]
                 && NoZeroedLeaf(key)
  {
    EvolvesTo(c, k, p);
    if p < Pow2(Depth(k)) {
      AtKeepsShape(c, k, p);
      AtKeepsLaterSecrets(c, k, p);
      AtHasNoZeroedLeaf(c, k, p);
    }
  }

  // ----- What a signature is -------------------------------------------------------

  /** The verification keys on the path to period `t`, deepest pair first. */
  ghost function PathVks(c: Crypto, k: Key, t: nat): Bytes
    requires Fresh(c, k)
  {
    match k
    case Leaf(_, _, _) => []
    case Node(d, l, r, lvk, rvk) =>
      (if t < Pow2(d - 1) then PathVks(c, l.value, t) else PathVks(c, r.value, t - Pow2(d - 1))) + lvk + rvk
  }

  /** The signature for period `t` that the whole tree determines. */
  ghost function Signature(c: Crypto, k: Key, t: nat, msg: Bytes): Bytes
    requires Fresh(c, k) && t < |Secrets(k)|
  {
    c.sign(Secrets(k)[t], msg) + PathVks(c, k, t)
  }

  ghost function Under(c: Crypto, k: Key, t: nat): (Key, nat)
    requires Fresh(c, k) && k.Node?
  {
    var half := Pow2(k.depth - 1);
    if t < half then (k.left.value, t) else (k.right.value, t - half)
  }

  lemma SecretUnder(c: Crypto, k: Key, t: nat)
    requires Fresh(c, k) && k.Node? && t < Pow2(k.depth)
    ensures var (sub, t') := Under(c, k, t);
            && Fresh(c, sub) && Depth(sub) == k.depth - 1 && t' < Pow2(k.depth - 1) == |Secrets(sub)|
            && t < |Secrets(k)| && Secrets(k)[t] == Secrets(sub)[t']
            && PathVks(c, k, t) == PathVks(c, sub, t') + k.leftVk + k.rightVk
  {
    SecretsOfNode(c, k);
  }

  lemma SignatureOfNode(c: Crypto, k: Key, t: nat, msg: Bytes)
    requires Fresh(c, k) && k.Node? && t < Pow2(k.depth)
    ensures var (sub, t') := Under(c, k, t);
            && Fresh(c, sub) && Depth(sub) == k.depth - 1 && t' < Pow2(k.depth - 1) == |Secrets(sub)|
            && t < |Secrets(k)| == Pow2(k.depth)
            && Signature(c, k, t, msg) == Signature(c, sub, t', msg) + k.leftVk + k.rightVk
  {
    FreshKeyHasAllSecrets(c, k);
    SecretUnder(c, k, t);
    var (sub, t') := Under(c, k, t);
    Reassociate(c.sign(Secrets(sub)[t'], msg), PathVks(c, sub, t'), k.leftVk, k.rightVk);
  }

  lemma Reassociate(s: Bytes, path: Bytes, l: Bytes, r: Bytes)
    ensures s + (path + l + r) == s + path + l + r
  {}

  lemma SignTreeAtNode(c: Crypto, k: Key, p: nat, t: nat, msg: Bytes)
    requires Fresh(c, k) && k.Node? && p < Pow2(k.depth) && t < Pow2(k.depth)
    ensures var (sub, t') := Under(c, k, t);
            var half := Pow2(k.depth - 1);
            var sig := SignTree(c, At(c, sub, if t < half || p >= half then Under(c, k, p).1 else 0), t', msg);
            SignTree(c, At(c, k, p), t, msg) ==
            if t < half <= p then None
            else if sig.None? then None else Some(sig.value + k.leftVk + k.rightVk)
  {
    AtZero(c, k.right.value);
  }

  lemma {:induction false} SignTreeIs(c: Crypto, k: Key, p: nat, t: nat, msg: Bytes)
    requires Fresh(c, k) && p < Pow2(Depth(k)) && t < Pow2(Depth(k))
    ensures |Secrets(k)| == Pow2(Depth(k))
    ensures SignTree(c, At(c, k, p), t, msg) == if p <= t then Some(Signature(c, k, t, msg)) else None
    decreases k
  {
    if k.Leaf? {
      assert c.sign(Secrets(k)[t], msg) + [] == c.sign(Secrets(k)[t], msg);
    } else {
      var (sub, t') := Under(c, k, t);
      var half := Pow2(k.depth - 1);
      SignatureOfNode(c, k, t, msg);
      SignTreeAtNode(c, k, p, t, msg);
      SignTreeIs(c, sub, if t < half || p >= half then Under(c, k, p).1 else 0, t', msg);
    }
  }

  /** A key at period p signs exactly the periods from p to the last, and its
      signature does not depend on p: it is the leaf's signature followed by
      the path's verification keys. */
  lemma SignsExactlyTheRemainingPeriods(c: Crypto, k: Key, p: nat, t: int, msg: Bytes)
    requires Fresh(c, k) && p < Pow2(Depth(k))
    ensures |Secrets(k)| == Pow2(Depth(k))
    ensures Sign(c, At(c, k, p), t, msg) ==
            if p <= t < Pow2(Depth(k)) then Some(Signature(c, k, t, msg)) else None
  {
    AtKeepsShape(c, k, p);
    FreshKeyHasAllSecrets(c, k);
    if 0 <= t < Pow2(Depth(k)) {
      SignTreeIs(c, k, p, t, msg);
    }
  }

  // ----- What verification accepts ---------------------------------------------------

  lemma VkSize(c: Crypto, k: Key)
    requires Sound(c) && Fresh(c, k)
    ensures |DeriveVk(c, k)| == VK_SIZE
  {}

  lemma {:induction false} PathSize(c: Crypto, k: Key, t: nat)
    requires Sound(c) && Fresh(c, k)
    ensures |PathVks(c, k, t)| == SigSize(Depth(k)) - SIG_SIZE
  {
    if k.Node? {
      VkSize(c, k.left.value);
      VkSize(c, k.right.value);
      if t < Pow2(k.depth - 1) {
        PathSize(c, k.left.value, t);
      } else {
        PathSize(c, k.right.value, t - Pow2(k.depth - 1));
      }
    }
  }

  ghost predicate NamesPath(sig: Bytes, path: Bytes)
    requires |sig| >= SIG_SIZE
  {
    sig[SIG_SIZE..] == path
  }

  /** The meaning of a signature under the root of the tree `k`: it names that
      tree's path and its first 64 bytes are a signature by that leaf. */
  ghost predicate Genuine(c: Crypto, k: Key, t: nat, sig: Bytes, msg: Bytes)
    requires Fresh(c, k) && |sig| == SigSize(Depth(k))
  {
    && NamesPath(sig, PathVks(c, k, t))
    && t < |Secrets(k)|
    && c.verify(c.vkOf(Secrets(k)[t]), sig[..SIG_SIZE], msg)
  }

  ghost predicate PairIs(sig: Bytes, n: nat, l: Bytes, r: Bytes)
    requires |sig| == n + 2 * VK_SIZE
  {
    sig[n..n + VK_SIZE] == l && sig[n + VK_SIZE..n + 2 * VK_SIZE] == r
  }

  lemma SplitPath(sig: Bytes, n: nat, path: Bytes, lvk: Bytes, rvk: Bytes)
    requires SIG_SIZE <= n && |sig| == n + 2 * VK_SIZE && |lvk| == VK_SIZE == |rvk|
    requires |path| == n - SIG_SIZE
    ensures NamesPath(sig, path + lvk + rvk)
            <==> NamesPath(sig[..n], path) && PairIs(sig, n, lvk, rvk)
  {
    assert sig[SIG_SIZE..] == sig[..n][SIG_SIZE..] + sig[n..n + VK_SIZE] + sig[n + VK_SIZE..n + 2 * VK_SIZE];
    if sig[SIG_SIZE..] == path + lvk + rvk {
      var whole := path + lvk + rvk;
      assert whole[..|path|] == path && whole[|path|..|path| + VK_SIZE] == lvk && whole[|path| + VK_SIZE..] == rvk;
      assert sig[SIG_SIZE..][..n - SIG_SIZE] == sig[..n][SIG_SIZE..];
      assert sig[SIG_SIZE..][n - SIG_SIZE..n - SIG_SIZE + VK_SIZE] == sig[n..n + VK_SIZE];
      assert sig[SIG_SIZE..][n - SIG_SIZE + VK_SIZE..] == sig[n + VK_SIZE..n + 2 * VK_SIZE];
    }
  }

  ghost predicate PairMatches(k: Key, sig: Bytes)
    requires k.Node? && |sig| == SigSize(k.depth)
  {
    PairIs(sig, SigSize(k.depth - 1), k.leftVk, k.rightVk)
  }

  lemma Prefixes(sig: Bytes, n: nat)
    requires SIG_SIZE <= n <= |sig|
    ensures sig[..n][..SIG_SIZE] == sig[..SIG_SIZE]
  {}

  lemma PathAtNode(c: Crypto, k: Key, t: nat, sig: Bytes)
    requires Sound(c) && Fresh(c, k) && k.Node? && t < Pow2(k.depth) && |sig| == SigSize(k.depth)
    ensures var (sub, t') := Under(c, k, t);
            var n := SigSize(k.depth - 1);
            && Fresh(c, sub) && Depth(sub) == k.depth - 1
            && (NamesPath(sig, PathVks(c, k, t)) <==> PairMatches(k, sig) && NamesPath(sig[..n], PathVks(c, sub, t')))
  {
    var (sub, t') := Under(c, k, t);
    VkSize(c, k.left.value);
    VkSize(c, k.right.value);
    PathSize(c, sub, t');
    var path := PathVks(c, sub, t');
    assert PathVks(c, k, t) == path + k.leftVk + k.rightVk;
    SplitPath(sig, SigSize(k.depth - 1), path, k.leftVk, k.rightVk);
  }

  /** One level of genuineness: the pair of keys at this node is the tree's, and
      the rest is a genuine signature under the subtree. */
  lemma GenuineAtNode(c: Crypto, k: Key, t: nat, sig: Bytes, msg: Bytes)
    requires Sound(c) && Fresh(c, k) && k.Node? && t < Pow2(k.depth) && |sig| == SigSize(k.depth)
    ensures var (sub, t') := Under(c, k, t);
            && Fresh(c, sub) && Depth(sub) == k.depth - 1
            && (Genuine(c, k, t, sig, msg) <==>
                PairMatches(k, sig) && Genuine(c, sub, t', sig[..SigSize(k.depth - 1)], msg))
  {
    SecretUnder(c, k, t);
    PathAtNode(c, k, t, sig);
    Prefixes(sig, SigSize(k.depth - 1));
  }

  lemma VerifyTreeAtNode(c: Crypto, k: Key, t: nat, sig: Bytes, msg: Bytes)
    requires Sound(c) && Fresh(c, k) && k.Node? && t < Pow2(k.depth) && |sig| == SigSize(k.depth)
    requires PairMatches(k, sig)
    ensures var (sub, t') := Under(c, k, t);
            VerifyTree(c, DeriveVk(c, k), k.depth, t, sig, msg)
            == VerifyTree(c, DeriveVk(c, sub), k.depth - 1, t', sig[..SigSize(k.depth - 1)], msg)
  {}

  /** The signature contains a second preimage: walking down the path, the first
      embedded pair that is not the tree's own nevertheless has its hash. */
  ghost predicate FindsCollision(c: Crypto, k: Key, t: nat, sig: Bytes)
    requires Fresh(c, k) && |sig| == SigSize(Depth(k))
    decreases k
  {
    k.Node? &&
    var n := SigSize(k.depth - 1);
    if PairMatches(k, sig) then
      var (sub, t') := Under(c, k, t);
      FindsCollision(c, sub, t', sig[..n])
    else c.hash(sig[n..n + VK_SIZE] + sig[n + VK_SIZE..n + 2 * VK_SIZE]) == DeriveVk(c, k)
  }

  lemma MismatchNeedsCollision(c: Crypto, k: Key, t: nat, sig: Bytes, msg: Bytes)
    requires Sound(c) && Fresh(c, k) && k.Node? && t < Pow2(k.depth) && |sig| == SigSize(k.depth)
    requires !PairMatches(k, sig) && !FindsCollision(c, k, t, sig)
    ensures !VerifyTree(c, DeriveVk(c, k), k.depth, t, sig, msg)
  {}

  lemma CollisionBelow(c: Crypto, k: Key, t: nat, sig: Bytes)
    requires Fresh(c, k) && k.Node? && t < Pow2(k.depth) && |sig| == SigSize(k.depth) && PairMatches(k, sig)
    ensures var (sub, t') := Under(c, k, t);
            && sub < k && Fresh(c, sub) && Depth(sub) == k.depth - 1 && t' < Pow2(k.depth - 1)
            && |sig[..SigSize(k.depth - 1)]| == SigSize(k.depth - 1)
            && (FindsCollision(c, k, t, sig) <==> FindsCollision(c, sub, t', sig[..SigSize(k.depth - 1)]))
  {}

  lemma VerifyLeafIs(c: Crypto, k: Key, t: nat, sig: Bytes, msg: Bytes)
    requires Fresh(c, k) && k.Leaf? && t == 0 && |sig| == SIG_SIZE
    ensures VerifyTree(c, DeriveVk(c, k), 0, t, sig, msg) <==> Genuine(c, k, t, sig, msg)
  {
    assert sig[..SIG_SIZE] == sig;
  }

  lemma {:induction false} VerifyTreeIs(c: Crypto, k: Key, t: nat, sig: Bytes, msg: Bytes)
    requires Sound(c) && Fresh(c, k) && t < Pow2(Depth(k)) && |sig| == SigSize(Depth(k))
    ensures VerifyTree(c, DeriveVk(c, k), Depth(k), t, sig, msg) && !FindsCollision(c, k, t, sig)
            <==> Genuine(c, k, t, sig, msg)
    decreases k
  {
    if k.Leaf? {
      VerifyLeafIs(c, k, t, sig, msg);
    } else {
      hide VerifyTree, Genuine, PairMatches, FindsCollision, Fresh;
      var (sub, t') := Under(c, k, t);
      GenuineAtNode(c, k, t, sig, msg);
      if PairMatches(k, sig) {
        VerifyTreeAtNode(c, k, t, sig, msg);
        CollisionBelow(c, k, t, sig);
        VerifyTreeIs(c, sub, t', sig[..SigSize(k.depth - 1)], msg);
      } else if !FindsCollision(c, k, t, sig) {
        MismatchNeedsCollision(c, k, t, sig, msg);
      }
    }
  }

  /** Verification under a tree's root accepts exactly the genuine signatures,
      apart from those that exhibit a second preimage of the pair hash. */
  lemma VerificationIsExact(c: Crypto, k: Key, t: int, sig: Bytes, msg: Bytes)
    requires Sound(c) && Fresh(c, k)
    ensures Verify(c, DeriveVk(c, k), Depth(k), t, sig, msg) ==> 0 <= t < Pow2(Depth(k)) && |sig| == SigSize(Depth(k))
    ensures 0 <= t < Pow2(Depth(k)) && |sig| == SigSize(Depth(k)) ==>
              (Verify(c, DeriveVk(c, k), Depth(k), t, sig, msg) && !FindsCollision(c, k, t, sig)
               <==> Genuine(c, k, t, sig, msg))
  {
    VkSize(c, k);
    if 0 <= t < Pow2(Depth(k)) && |sig| == SigSize(Depth(k)) {
      VerifyTreeIs(c, k, t, sig, msg);
    }
  }

  lemma CutTail(sig: Bytes, l: Bytes, r: Bytes)
    requires |l| == |r| == VK_SIZE
    ensures var n, whole := |sig|, sig + l + r;
            whole[..n] == sig && whole[n..n + VK_SIZE] == l && whole[n + VK_SIZE..n + 2 * VK_SIZE] == r
  {}

  lemma NodeVerifies(c: Crypto, k: Key, t: nat, child: Bytes, msg: Bytes)
    requires Sound(c) && Fresh(c, k) && k.Node? && t < Pow2(k.depth) && |child| == SigSize(k.depth - 1)
    requires var (sub, t') := Under(c, k, t); VerifyTree(c, DeriveVk(c, sub), k.depth - 1, t', child, msg)
    ensures |child + k.leftVk + k.rightVk| == SigSize(k.depth)
    ensures VerifyTree(c, DeriveVk(c, k), k.depth, t, child + k.leftVk + k.rightVk, msg)
  {
    VkSize(c, k.left.value);
    VkSize(c, k.right.value);
    CutTail(child, k.leftVk, k.rightVk);
    VerifyTreeAtNode(c, k, t, child + k.leftVk + k.rightVk, msg);
  }

  lemma {:induction false} SignatureTreeVerifies(c: Crypto, k: Key, t: nat, msg: Bytes)
    requires Sound(c) && Fresh(c, k) && t < Pow2(Depth(k))
    ensures |Secrets(k)| == Pow2(Depth(k)) && |Signature(c, k, t, msg)| == SigSize(Depth(k))
    ensures VerifyTree(c, DeriveVk(c, k), Depth(k), t, Signature(c, k, t, msg), msg)
    decreases k
  {
    if k.Leaf? {
      assert Signature(c, k, t, msg) == c.sign(Secrets(k)[0], msg);
    } else {
      var (sub, t') := Under(c, k, t);
      SignatureOfNode(c, k, t, msg);
      SignatureTreeVerifies(c, sub, t', msg);
      NodeVerifies(c, k, t, Signature(c, sub, t', msg), msg);
    }
  }

  /** Every signature a key makes, at whatever stage of its evolution, has the
      promised length and verifies under the key's own root. */
  lemma SignaturesVerify(c: Crypto, k: Key, p: nat, t: int, msg: Bytes)
    requires Sound(c) && Fresh(c, k) && p < Pow2(Depth(k))
    ensures var key := At(c, k, p);
            var sig := Sign(c, key, t, msg);
            sig.Some? ==>
              && |sig.value| == 64 * (Depth(key) + 1)
              && Verify(c, DeriveVk(c, key), Depth(key), t, sig.value, msg)
  {
    SignsExactlyTheRemainingPeriods(c, k, p, t, msg);
    AtKeepsShape(c, k, p);
    VkSize(c, k);
    if p <= t < Pow2(Depth(k)) {
      SignatureTreeVerifies(c, k, t, msg);
    }
  }

  // ----- Serialization of the signing key --------------------------------------------

  function SerializedSize(depth: nat): nat {
    32 + depth * 96
  }

  function Zeros(): Bytes {
    seq(32, _ => 0)
  }

  predicate Zeroed(k: Key) {
    k.Leaf? && k.zeroed
  }

  /** The leftmost private key still present; None stands for the errors. */
  function LeafSeed(k: Key): Option<Bytes> {
    match k
    case Leaf(sk, _, _) => sk
    case Node(_, l, r, _, _) =>
      if l.Some? && !Zeroed(l.value) then LeafSeed(l.value)
      else if r.Some? && !Zeroed(r.value) then LeafSeed(r.value)
      else None
  }

  function Serialize(k: Key): Option<Bytes> {
    match k
    case Leaf(sk, _, _) => sk
    case Node(_, l, r, lvk, rvk) =>
      if l.Some? && !Zeroed(l.value) then
        var active, other := Serialize(l.value), if r.Some? then LeafSeed(r.value) else Some(Zeros());
        if active.Some? && other.Some? then Some(active.value + other.value + lvk + rvk) else None
      else if r.Some? && !Zeroed(r.value) then
        var active := Serialize(r.value);
        if active.Some? then Some(active.value + Zeros() + lvk + rvk) else None
      else None
  }

  function Deserialize(c: Crypto, data: Bytes, depth: nat): Option<Key>
    decreases depth
  {
    if |data| != SerializedSize(depth) then None
    else if depth == 0 then Some(Leaf(Some(data), c.vkOf(data), false))
    else
      var n := SerializedSize(depth - 1);
      var active := Deserialize(c, data[..n], depth - 1);
      if active.None? then None
      else Some(Assemble(c, active.value, KeygenTree(c, data[n..n + 32], depth - 1),
                         data[n + 32..n + 64], data[n + 64..n + 96], depth))
  }

  /** The active subtree is recognized by its verification key; if it matches
      neither, it is taken to be the left one. */
  function Assemble(c: Crypto, active: Key, other: Key, lvk: Bytes, rvk: Bytes, depth: pos): Key {
    if DeriveVk(c, active) == lvk then Node(depth, Some(active), Some(other), lvk, rvk)
    else if DeriveVk(c, active) == rvk then Node(depth, Some(other), Some(active), lvk, rvk)
    else Node(depth, Some(active), Some(other), lvk, rvk)
  }

  /** Where the left half of a subtree is spent, its two halves have different
      verification keys. */
  ghost predicate Distinguishable(c: Crypto, k: Key, p: nat)
    requires Fresh(c, k)
  {
    k.Node? ==>
      var (sub, p') := Under(c, k, p);
      (p < Pow2(k.depth - 1) || k.leftVk != k.rightVk) && Distinguishable(c, sub, p')
  }

  /** What comes back: the active path is right, and every other subtree is one
      regenerated from a single leaf's seed, or from zeros. Where the left half is
      spent and the halves have the same verification key, the active half is taken
      for the left one. */
  ghost function Restored(c: Crypto, k: Key, p: nat): Key
    requires Fresh(c, k)
  {
    if k.Leaf? then k
    else if p < Pow2(k.depth - 1) then
      k.(left := Some(Restored(c, k.left.value, p)), right := Some(Regenerated(c, k.right.value)))
    else
      var active, zeros := Restored(c, k.right.value, p - Pow2(k.depth - 1)), KeygenTree(c, Zeros(), k.depth - 1);
      if k.leftVk != k.rightVk then k.(left := Some(zeros), right := Some(active))
      else k.(left := Some(active), right := Some(zeros))
  }

  /** A subtree regenerated from the seed of its first leaf. */
  ghost function Regenerated(c: Crypto, k: Key): Key
    requires Fresh(c, k)
  {
    FreshKeyHasAllSecrets(c, k);
    KeygenTree(c, Secrets(k)[0], Depth(k))
  }

  lemma {:induction false} LeafSeedIsFirstSecret(c: Crypto, k: Key)
    requires Fresh(c, k)
    ensures |Secrets(k)| == Pow2(Depth(k))
    ensures LeafSeed(k) == Some(Secrets(k)[0]) && |Secrets(k)[0]| == 32 && !Zeroed(k)
  {
    if k.Node? {
      SecretsOfNode(c, k);
      LeafSeedIsFirstSecret(c, k.left.value);
    }
  }

  lemma {:induction false} RestoredVk(c: Crypto, k: Key, p: nat)
    requires Fresh(c, k)
    ensures DeriveVk(c, Restored(c, k, p)) == DeriveVk(c, k) && Depth(Restored(c, k, p)) == Depth(k)
  {}

  ghost function Packed(active: Bytes, other: Bytes, l: Bytes, r: Bytes): Bytes {
    active + other + l + r
  }

  lemma Unpack(active: Bytes, other: Bytes, l: Bytes, r: Bytes, n: nat)
    requires |other| == |l| == |r| == 32 && n == |active|
    ensures |Packed(active, other, l, r)| == n + 96
    ensures Packed(active, other, l, r)[..n] == active
    ensures Packed(active, other, l, r)[n..n + 32] == other
    ensures Packed(active, other, l, r)[n + 32..n + 64] == l
    ensures Packed(active, other, l, r)[n + 64..n + 96] == r
  {}

  /** What serialization writes for a node at period `p`. */
  ghost predicate WritesNode(c: Crypto, k: Key, p: nat, sub: Key, p': nat)
    requires Fresh(c, k) && k.Node? && Fresh(c, sub)
  {
    var active := Serialize(At(c, sub, p'));
    Serialize(At(c, k, p)) ==
    if active.None? then None else Some(Packed(active.value, OtherSeed(c, k, p), k.leftVk, k.rightVk))
  }

  lemma SerializeLeft(c: Crypto, k: Key, p: nat)
    requires Sound(c) && Fresh(c, k) && k.Node? && p < Pow2(k.depth - 1)
    ensures WritesNode(c, k, p, k.left.value, p)
  {
    LeafSeedIsFirstSecret(c, k.right.value);
    AtIsActive(c, k.left.value, p);
  }

  lemma SerializeRight(c: Crypto, k: Key, p: nat)
    requires Sound(c) && Fresh(c, k) && k.Node? && Pow2(k.depth - 1) <= p
    ensures WritesNode(c, k, p, k.right.value, p - Pow2(k.depth - 1))
  {
    AtIsActive(c, k.right.value, p - Pow2(k.depth - 1));
    var active := At(c, k.right.value, p - Pow2(k.depth - 1));
    assert At(c, k, p) == Node(k.depth, None, Some(active), k.leftVk, k.rightVk);
    SerializeSpentLeft(k.depth, active, k.leftVk, k.rightVk);
    hide Serialize, At, Secrets;
  }

  lemma SerializeSpentLeft(d: pos, active: Key, lvk: Bytes, rvk: Bytes)
    requires !Zeroed(active)
    ensures var data := Serialize(active);
            Serialize(Node(d, None, Some(active), lvk, rvk))
            == if data.None? then None else Some(Packed(data.value, Zeros(), lvk, rvk))
  {}

  lemma OtherSeedSize(c: Crypto, k: Key, p: nat)
    requires Fresh(c, k) && k.Node?
    ensures |OtherSeed(c, k, p)| == 32
  {
    LeafSeedIsFirstSecret(c, k.right.value);
  }

  lemma DeserializeParts(c: Crypto, d: pos, data: Bytes, n: nat, active: Bytes, other: Bytes, l: Bytes, r: Bytes)
    requires n == SerializedSize(d - 1) && |data| == n + 96
    requires data[..n] == active && data[n..n + 32] == other && data[n + 32..n + 64] == l && data[n + 64..n + 96] == r
    ensures var a := Deserialize(c, active, d - 1);
            Deserialize(c, data, d) ==
            if a.None? then None else Some(Assemble(c, a.value, KeygenTree(c, other, d - 1), l, r, d))
  {
    hide Assemble, KeygenTree;
  }

  /** Exactly the data of the promised length load, whatever wrote them. */
  lemma {:induction false} LoadsByLength(c: Crypto, data: Bytes, depth: nat)
    ensures Deserialize(c, data, depth).Some? <==> |data| == SerializedSize(depth)
    decreases depth
  {
    hide Assemble, KeygenTree;
    if depth > 0 && |data| == SerializedSize(depth) {
      LoadsByLength(c, data[..SerializedSize(depth - 1)], depth - 1);
    }
  }

  /** The half that was stored in full is the right one if its verification key is the
      right one's and not the left one's, and else the left one. */
  lemma AssembledHalves(c: Crypto, half: Key, grown: Key, lvk: Bytes, rvk: Bytes, depth: pos)
    ensures var onRight := DeriveVk(c, half) == rvk != lvk;
            Assemble(c, half, grown, lvk, rvk, depth)
            == Node(depth, Some(if onRight then grown else half), Some(if onRight then half else grown), lvk, rvk)
  {}

  lemma DeserializePacked(c: Crypto, d: pos, active: Bytes, other: Bytes, l: Bytes, r: Bytes, data: Bytes)
    requires |active| == SerializedSize(d - 1) && |other| == |l| == |r| == 32
    requires data == Packed(active, other, l, r)
    ensures var a := Deserialize(c, active, d - 1);
            Deserialize(c, data, d) ==
            if a.None? then None else Some(Assemble(c, a.value, KeygenTree(c, other, d - 1), l, r, d))
  {
    var n := SerializedSize(d - 1);
    Unpack(active, other, l, r, n);
    DeserializeParts(c, d, data, n, active, other, l, r);
  }

  lemma LeafLoads(c: Crypto, data: Bytes)
    requires |data| == 32
    ensures Deserialize(c, data, 0) == Some(Leaf(Some(data), c.vkOf(data), false))
  {}

  /** What loads, whatever wrote it, and as what.  A node's two verification keys are
      the end of the data; of its halves one loads from the front, and the other grows
      from the seed between. */
  lemma LoadsExactly(c: Crypto, depth: nat, front: Bytes, seed: Bytes, lvk: Bytes, rvk: Bytes)
    requires |front| == 32 + 96 * depth && |seed| == |lvk| == |rvk| == 32
    ensures depth == 0 ==> Deserialize(c, front, depth) == Some(Leaf(Some(front), c.vkOf(front), false))
    ensures var half, grown := Deserialize(c, front, depth), KeygenTree(c, seed, depth);
            && half.Some?
            && var onRight := DeriveVk(c, half.value) == rvk != lvk;
               Deserialize(c, front + seed + lvk + rvk, depth + 1)
               == Some(Node(depth + 1, Some(if onRight then grown else half.value), Some(if onRight then half.value else grown), lvk, rvk))
  {
    if depth == 0 {
      LeafLoads(c, front);
    }
    hide Deserialize, Assemble, KeygenTree, DeriveVk;
    LoadsByLength(c, front, depth);
    DeserializePacked(c, depth + 1, front, seed, lvk, rvk, Packed(front, seed, lvk, rvk));
    AssembledHalves(c, Deserialize(c, front, depth).value, KeygenTree(c, seed, depth), lvk, rvk, depth + 1);
  }

  lemma AssembleNode(c: Crypto, k: Key, p: nat)
    requires Fresh(c, k) && k.Node? && p < Pow2(k.depth)
    ensures var (sub, p') := Under(c, k, p);
            && Fresh(c, sub)
            && Assemble(c, Restored(c, sub, p'), KeygenTree(c, OtherSeed(c, k, p), k.depth - 1),
                        k.leftVk, k.rightVk, k.depth) == Restored(c, k, p)
  {
    hide KeygenTree, Secrets;
    var (sub, p') := Under(c, k, p);
    RestoredVk(c, sub, p');
  }

  lemma AtIsActive(c: Crypto, k: Key, p: nat)
    requires Fresh(c, k)
    ensures !Zeroed(At(c, k, p))
  {}

  ghost function OtherSeed(c: Crypto, k: Key, p: nat): Bytes
    requires Fresh(c, k) && k.Node?
  {
    FreshKeyHasAllSecrets(c, k.right.value);
    if p < Pow2(k.depth - 1) then Secrets(k.right.value)[0] else Zeros()
  }

  lemma PackedSize(active: Bytes, other: Bytes, l: Bytes, r: Bytes)
    requires |other| == |l| == |r| == 32
    ensures |Packed(active, other, l, r)| == |active| + 96
  {}

  lemma WritesActiveNode(c: Crypto, k: Key, p: nat) returns (sub: Key, p': nat)
    requires Sound(c) && Fresh(c, k) && k.Node? && p < Pow2(k.depth)
    ensures (sub, p') == Under(c, k, p) && sub < k
    ensures Fresh(c, sub) && Depth(sub) == k.depth - 1 && p' < Pow2(Depth(sub)) && WritesNode(c, k, p, sub, p')
    ensures |OtherSeed(c, k, p)| == |k.leftVk| == |k.rightVk| == 32
  {
    sub, p' := Under(c, k, p).0, Under(c, k, p).1;
    if p < Pow2(k.depth - 1) { SerializeLeft(c, k, p); } else { SerializeRight(c, k, p); }
    VkSize(c, k.left.value);
    VkSize(c, k.right.value);
    OtherSeedSize(c, k, p);
  }

  lemma {:induction false} SerializedLength(c: Crypto, k: Key, p: nat)
    requires Sound(c) && Fresh(c, k) && p < Pow2(Depth(k))
    ensures Serialize(At(c, k, p)).Some? && |Serialize(At(c, k, p)).value| == SerializedSize(Depth(k))
    decreases k
  {
    if k.Node? {
      var sub, p' := WritesActiveNode(c, k, p);
      SerializedLength(c, sub, p');
      PackedSize(Serialize(At(c, sub, p')).value, OtherSeed(c, k, p), k.leftVk, k.rightVk);
    }
  }

  lemma NodeData(c: Crypto, k: Key, p: nat, sub: Key, p': nat, active: Bytes, data: Bytes)
    requires Fresh(c, k) && k.Node? && Fresh(c, sub) && WritesNode(c, k, p, sub, p')
    requires Serialize(At(c, sub, p')) == Some(active) && Serialize(At(c, k, p)) == Some(data)
    ensures data == Packed(active, OtherSeed(c, k, p), k.leftVk, k.rightVk)
  {}

  lemma LoadNode(c: Crypto, k: Key, p: nat, active: Bytes, data: Bytes)
    requires Fresh(c, k) && k.Node? && p < Pow2(k.depth)
    requires |active| == SerializedSize(k.depth - 1) && |OtherSeed(c, k, p)| == |k.leftVk| == |k.rightVk| == 32
    requires var (sub, p') := Under(c, k, p);
             Fresh(c, sub) && Deserialize(c, active, k.depth - 1) == Some(Restored(c, sub, p'))
    requires data == Packed(active, OtherSeed(c, k, p), k.leftVk, k.rightVk)
    ensures Deserialize(c, data, Depth(k)) == Some(Restored(c, k, p))
  {
    DeserializePacked(c, k.depth, active, OtherSeed(c, k, p), k.leftVk, k.rightVk, data);
    AssembleNode(c, k, p);
  }

  lemma LoadLeaf(c: Crypto, k: Key, p: nat, data: Bytes)
    requires Fresh(c, k) && k.Leaf? && k.sk == Some(data)
    ensures Deserialize(c, data, Depth(k)) == Some(Restored(c, k, p))
  {}

  lemma {:induction false} SerializeThenDeserialize(c: Crypto, k: Key, p: nat, data: Bytes)
    requires Sound(c) && Fresh(c, k) && p < Pow2(Depth(k))
    requires Serialize(At(c, k, p)) == Some(data)
    ensures Deserialize(c, data, Depth(k)) == Some(Restored(c, k, p))
    decreases k
  {
    if k.Leaf? {
      LoadLeaf(c, k, p, data);
    } else {
      var sub, p' := WritesActiveNode(c, k, p);
      SerializedLength(c, sub, p');
      var active := Serialize(At(c, sub, p')).value;
      SerializeThenDeserialize(c, sub, p', active);
      NodeData(c, k, p, sub, p', active, data);
      LoadNode(c, k, p, active, data);
    }
  }

  // ----- What the round trip preserves --------------------------------------------------

  /** Signing at a period looks at one half only. */
  lemma SignTreeOfHalf(c: Crypto, d: pos, k: Key, other: Key, t: nat, msg: Bytes)
    requires k.Node? && other.Node? && k.depth == d == other.depth
    requires k.leftVk == other.leftVk && k.rightVk == other.rightVk
    requires t < Pow2(d - 1) ==> k.left.Some? && other.left.Some?
                                 && SignTree(c, k.left.value, t, msg) == SignTree(c, other.left.value, t, msg)
    requires t >= Pow2(d - 1) ==> var t' := t - Pow2(d - 1);
                                  k.right.Some? && other.right.Some?
                                  && SignTree(c, k.right.value, t', msg) == SignTree(c, other.right.value, t', msg)
    ensures SignTree(c, k, t, msg) == SignTree(c, other, t, msg)
  {}

  lemma RestoredPair(c: Crypto, k: Key, p: nat)
    requires Fresh(c, k) && k.Node?
    ensures var other := Restored(c, k, p);
            other.Node? && other.depth == k.depth && other.leftVk == k.leftVk && other.rightVk == k.rightVk
  {}

  lemma RestoredSignsAtNode(c: Crypto, k: Key, p: nat, msg: Bytes)
    requires Fresh(c, k) && k.Node? && Distinguishable(c, k, p)
    requires p < Pow2(k.depth - 1) ==>
               SignTree(c, Restored(c, k.left.value, p), p, msg) == SignTree(c, k.left.value, p, msg)
    requires p >= Pow2(k.depth - 1) ==>
               var p' := p - Pow2(k.depth - 1);
               SignTree(c, Restored(c, k.right.value, p'), p', msg) == SignTree(c, k.right.value, p', msg)
    ensures SignTree(c, Restored(c, k, p), p, msg) == SignTree(c, k, p, msg)
  {
    hide Restored, SignTree, Distinguishable, Fresh, Pow2, Regenerated, KeygenTree;
    HalvesAreFresh(c, k);
    DistinguishableAt(c, k, p);
    RestoredPair(c, k, p);
    RestoredHalves(c, k, p);
    SignTreeOfHalf(c, k.depth, Restored(c, k, p), k, p, msg);
  }

  lemma {:induction false} RestoredSigns(c: Crypto, k: Key, p: nat, msg: Bytes)
    requires Fresh(c, k) && p < Pow2(Depth(k)) && Distinguishable(c, k, p)
    ensures SignTree(c, Restored(c, k, p), p, msg) == SignTree(c, k, p, msg)
    decreases k
  {
    if k.Node? {
      hide Restored, SignTree, Distinguishable, Fresh, Pow2;
      HalvesAreFresh(c, k);
      DistinguishableAt(c, k, p);
      if p < Pow2(k.depth - 1) {
        RestoredSigns(c, k.left.value, p, msg);
      } else {
        RestoredSigns(c, k.right.value, p - Pow2(k.depth - 1), msg);
      }
      RestoredSignsAtNode(c, k, p, msg);
    }
  }

  /** What `deserialize_kes_sk` makes of the serialized key. */
  ghost function Loaded(c: Crypto, k: Key, p: nat): Option<Key>
    requires Fresh(c, k)
  {
    var data := Serialize(At(c, k, p));
    if data.None? then None else Deserialize(c, data.value, Depth(k))
  }

  lemma LoadedIsRestored(c: Crypto, k: Key, p: nat)
    requires Sound(c) && Fresh(c, k) && p < Pow2(Depth(k))
    ensures Loaded(c, k, p) == Some(Restored(c, k, p))
  {
    SerializedLength(c, k, p);
    SerializeThenDeserialize(c, k, p, Serialize(At(c, k, p)).value);
  }

  /** Saving and loading keeps the live key: at every stage of its evolution the
      serialized key has the promised length and loads to a key with the same root,
      and, provided the two halves of every half-spent subtree have different
      verification keys, the same signature at the current period. */
  lemma SerializationKeepsTheLiveKey(c: Crypto, k: Key, p: nat, msg: Bytes)
    requires Sound(c) && Fresh(c, k) && p < Pow2(Depth(k))
    ensures Serialize(At(c, k, p)).Some?
    ensures |Serialize(At(c, k, p)).value| == 32 + 96 * Depth(k)
    ensures var loaded := Deserialize(c, Serialize(At(c, k, p)).value, Depth(k));
            && loaded.Some?
            && Depth(loaded.value) == Depth(k) && DeriveVk(c, loaded.value) == DeriveVk(c, k)
            && (Distinguishable(c, k, p) ==>
                  Sign(c, loaded.value, p, msg) == Sign(c, At(c, k, p), p, msg) && Sign(c, loaded.value, p, msg).Some?)
  {
    SerializedLength(c, k, p);
    LoadedIsRestored(c, k, p);
    RestoredVk(c, k, p);
    if Distinguishable(c, k, p) {
      RestoredSigns(c, k, p, msg);
      AtZero(c, k);
      SignTreeIs(c, k, p, p, msg);
      SignTreeIs(c, k, 0, p, msg);
      AtKeepsShape(c, k, p);
      NotAZeroedLeaf(c, k, p);
    }
  }

  lemma NotAZeroedLeaf(c: Crypto, k: Key, p: nat)
    requires Fresh(c, k)
    ensures !Zeroed(Restored(c, k, p)) && !Zeroed(At(c, k, p))
  {}

  // ----- What the round trip loses --------------------------------------------------------

  /** The key `other` has the secrets of all periods, and from `p` on they are those
      of `k`. */
  ghost predicate KeepsFrom(k: Key, other: Key, p: nat) {
    p <= |Secrets(other)| == |Secrets(k)| && Secrets(other)[p..] == Secrets(k)[p..]
  }

  ghost predicate KeepsAt(k: Key, other: Key, p: nat) {
    p < |Secrets(other)| == |Secrets(k)| && Secrets(other)[p] == Secrets(k)[p]
  }

  /** The seed that `n` steps to the left derive from `s`. */
  ghost function LeftDerived(c: Crypto, s: Bytes, n: nat): Bytes
    decreases n
  {
    if n == 0 then s else LeftDerived(c, c.leftSeed(s), n - 1)
  }

  /** None of the secrets is derived from itself by steps to the left. */
  ghost predicate NeverReturn(c: Crypto, secrets: set<Bytes>, depth: nat) {
    forall s, n: nat {:trigger LeftDerived(c, s, n)} :: s in secrets && 0 < n < depth ==> LeftDerived(c, s, n) != s
  }

  /** None of the secrets is a leaf of a tree that grows from zeros. */
  ghost predicate NotFromZeros(c: Crypto, secrets: set<Bytes>, depth: nat) {
    forall n: nat, s {:trigger s in Secrets(KeygenTree(c, Zeros(), n))} ::
      s in secrets && n < depth ==> s !in Secrets(KeygenTree(c, Zeros(), n))
  }

  ghost function SecretSet(k: Key): set<Bytes> {
    set s <- Secrets(k)
  }

  lemma {:induction false} KeygenSecrets(c: Crypto, seed: Bytes, depth: nat)
    ensures |Secrets(KeygenTree(c, seed, depth))| == Pow2(depth)
    ensures Secrets(KeygenTree(c, seed, depth))[0] == LeftDerived(c, seed, depth)
    decreases depth
  {
    if depth > 0 {
      KeygenSecrets(c, c.leftSeed(seed), depth - 1);
      KeygenSecrets(c, c.rightSeed(seed), depth - 1);
    }
  }

  lemma SecretCountOfHalves(k: Key, n: nat)
    requires k.Node? && k.left.Some? && k.right.Some?
    requires |Secrets(k.left.value)| == |Secrets(k.right.value)| == n
    ensures |Secrets(k)| == 2 * n
  {}

  /** The two halves that come back. */
  lemma RestoredHalves(c: Crypto, k: Key, p: nat)
    requires Fresh(c, k) && k.Node?
    ensures Restored(c, k, p).Node? && Restored(c, k, p).left.Some? && Restored(c, k, p).right.Some?
    ensures p < Pow2(k.depth - 1) ==>
              && Restored(c, k, p).left.value == Restored(c, k.left.value, p)
              && Restored(c, k, p).right.value == Regenerated(c, k.right.value)
    ensures p >= Pow2(k.depth - 1) ==>
              var active, zeros := Restored(c, k.right.value, p - Pow2(k.depth - 1)), KeygenTree(c, Zeros(), k.depth - 1);
              && Restored(c, k, p).left.value == (if k.leftVk != k.rightVk then zeros else active)
              && Restored(c, k, p).right.value == (if k.leftVk != k.rightVk then active else zeros)
  {
    hide Regenerated, KeygenTree;
  }

  lemma RegeneratedSecretCount(c: Crypto, k: Key)
    requires Fresh(c, k)
    ensures |Secrets(Regenerated(c, k))| == Pow2(Depth(k))
  {
    FreshKeyHasAllSecrets(c, k);
    KeygenSecrets(c, Secrets(k)[0], Depth(k));
  }

  lemma {:induction false} RestoredSecretCount(c: Crypto, k: Key, p: nat)
    requires Fresh(c, k)
    ensures |Secrets(Restored(c, k, p))| == Pow2(Depth(k))
  {
    if k.Node? {
      hide Restored, Regenerated, Secrets, KeygenTree, Fresh, Pow2;
      HalvesAreFresh(c, k);
      RestoredHalves(c, k, p);
      if p < Pow2(k.depth - 1) {
        RestoredSecretCount(c, k.left.value, p);
        RegeneratedSecretCount(c, k.right.value);
      } else {
        RestoredSecretCount(c, k.right.value, p - Pow2(k.depth - 1));
        KeygenSecrets(c, Zeros(), k.depth - 1);
      }
      SecretCountOfHalves(Restored(c, k, p), Pow2(k.depth - 1));
    }
  }

  lemma SplitEqual(a: seq<Bytes>, b: seq<Bytes>, a': seq<Bytes>, b': seq<Bytes>, p: nat)
    requires |a| == |a'| && |b| == |b'| && p <= |a| + |b|
    ensures (a + b)[p..] == (a' + b')[p..] <==>
            if p < |a| then a[p..] == a'[p..] && b == b' else b[p - |a|..] == b'[p - |a|..]
  {
    DropFromPair(a, b, p);
    DropFromPair(a', b', p);
    if p < |a| && a[p..] + b == a'[p..] + b' {
      assert a[p..] == (a[p..] + b)[..|a| - p] && a'[p..] == (a'[p..] + b')[..|a| - p];
      assert b == (a[p..] + b)[|a| - p..] && b' == (a'[p..] + b')[|a| - p..];
    }
  }

  /** What is kept by a node made of two halves is what the halves keep. */
  lemma KeepsAtNode(k: Key, l: Key, r: Key, other: Key, p: nat)
    requires k.Node? && k.left == Some(l) && k.right == Some(r)
    requires other.Node? && other.left.Some? && other.right.Some?
    requires |Secrets(other.left.value)| == |Secrets(l)| && |Secrets(other.right.value)| == |Secrets(r)|
    requires p < |Secrets(l)| + |Secrets(r)|
    ensures p < |Secrets(l)| ==>
              && (KeepsFrom(k, other, p) <==> KeepsFrom(l, other.left.value, p) && Secrets(other.right.value) == Secrets(r))
              && (KeepsAt(k, other, p) <==> KeepsAt(l, other.left.value, p))
    ensures p >= |Secrets(l)| ==>
              && (KeepsFrom(k, other, p) <==> KeepsFrom(r, other.right.value, p - |Secrets(l)|))
              && (KeepsAt(k, other, p) <==> KeepsAt(r, other.right.value, p - |Secrets(l)|))
  {
    var a, b, a', b' := Secrets(other.left.value), Secrets(other.right.value), Secrets(l), Secrets(r);
    assert Secrets(other) == a + b && Secrets(k) == a' + b';
    hide Secrets;
    SplitEqual(a, b, a', b', p);
  }

  /** A subtree of at least two leaves is not what its first leaf's seed regenerates. */
  lemma RegeneratedOnlyLeaf(c: Crypto, r: Key, depth: nat)
    requires Fresh(c, r) && NeverReturn(c, SecretSet(r), depth) && Depth(r) < depth
    ensures Secrets(Regenerated(c, r)) == Secrets(r) <==> r.Leaf?
  {
    FreshKeyHasAllSecrets(c, r);
    KeygenSecrets(c, Secrets(r)[0], Depth(r));
    assert Secrets(r)[0] in SecretSet(r);
  }

  /** What grows from zeros keeps nothing. */
  lemma ZerosKeepNothing(c: Crypto, r: Key, depth: nat, p: nat)
    requires Fresh(c, r) && NotFromZeros(c, SecretSet(r), depth) && Depth(r) < depth && p < Pow2(Depth(r))
    ensures !KeepsAt(r, KeygenTree(c, Zeros(), Depth(r)), p)
  {
    var zeros := KeygenTree(c, Zeros(), Depth(r));
    FreshKeyHasAllSecrets(c, r);
    KeygenSecrets(c, Zeros(), Depth(r));
    hide KeygenTree, Fresh;
    assert Secrets(r)[p] in SecretSet(r);
    assert Secrets(zeros)[p] in Secrets(zeros);
  }

  lemma HalvesHaveFewerSecrets(c: Crypto, k: Key)
    requires Fresh(c, k) && k.Node?
    ensures SecretSet(k.left.value) <= SecretSet(k) && SecretSet(k.right.value) <= SecretSet(k)
  {
    SecretsOfNode(c, k);
  }

  lemma KeepsAtLeft(c: Crypto, k: Key, p: nat)
    requires Fresh(c, k) && k.Node? && p < Pow2(k.depth - 1)
    ensures var l, r := k.left.value, k.right.value;
            && (KeepsFrom(k, Restored(c, k, p), p)
                <==> KeepsFrom(l, Restored(c, l, p), p) && Secrets(Regenerated(c, r)) == Secrets(r))
            && (KeepsAt(k, Restored(c, k, p), p) <==> KeepsAt(l, Restored(c, l, p), p))
  {
    hide KeepsAt, KeepsFrom, Restored, Regenerated, Secrets;
    var l, r := k.left.value, k.right.value;
    SecretsOfNode(c, k);
    RestoredHalves(c, k, p);
    RestoredSecretCount(c, l, p);
    RegeneratedSecretCount(c, r);
    KeepsAtNode(k, l, r, Restored(c, k, p), p);
  }

  lemma KeepsAtRight(c: Crypto, k: Key, p: nat)
    requires Fresh(c, k) && k.Node? && Pow2(k.depth - 1) <= p < Pow2(k.depth)
    ensures var r, p' := k.right.value, p - Pow2(k.depth - 1);
            var half := if k.leftVk != k.rightVk then Restored(c, r, p') else KeygenTree(c, Zeros(), k.depth - 1);
            && (KeepsFrom(k, Restored(c, k, p), p) <==> KeepsFrom(r, half, p'))
            && (KeepsAt(k, Restored(c, k, p), p) <==> KeepsAt(r, half, p'))
  {
    hide KeepsAt, KeepsFrom, Restored, Secrets, KeygenTree;
    var r, p' := k.right.value, p - Pow2(k.depth - 1);
    SecretsOfNode(c, k);
    RestoredHalves(c, k, p);
    RestoredSecretCount(c, r, p');
    KeygenSecrets(c, Zeros(), k.depth - 1);
    KeepsAtNode(k, k.left.value, r, Restored(c, k, p), p);
  }

  lemma HalvesAreFresh(c: Crypto, k: Key)
    requires Fresh(c, k) && k.Node?
    ensures k.left.Some? && k.right.Some? && k.left.value < k && k.right.value < k
    ensures Fresh(c, k.left.value) && Fresh(c, k.right.value)
    ensures Depth(k.left.value) == k.depth - 1 == Depth(k.right.value) && Pow2(k.depth) == 2 * Pow2(k.depth - 1)
  {}

  lemma DistinguishableAt(c: Crypto, k: Key, p: nat)
    requires Fresh(c, k) && k.Node?
    ensures k.left.Some? && k.right.Some?
    ensures var half := Pow2(k.depth - 1);
            && (p < half ==> (Distinguishable(c, k, p) <==> Distinguishable(c, k.left.value, p)))
            && (p >= half ==> (Distinguishable(c, k, p)
                               <==> k.leftVk != k.rightVk && Distinguishable(c, k.right.value, p - half)))
  {}

  lemma LeafIsKept(c: Crypto, k: Key)
    requires Fresh(c, k) && k.Leaf?
    ensures Distinguishable(c, k, 0) && Pow2(Depth(k)) == 1
    ensures KeepsAt(k, Restored(c, k, 0), 0) && KeepsFrom(k, Restored(c, k, 0), 0)
  {}

  /** The live secret comes back if, and apart from coincidences with what grows from
      zeros only if, the halves of every half-spent subtree can be told apart. */
  lemma {:induction false} RestoredKeepsTheLiveSecret(c: Crypto, k: Key, p: nat, depth: nat)
    requires Fresh(c, k) && p < Pow2(Depth(k)) && Depth(k) <= depth
    ensures Distinguishable(c, k, p) ==> KeepsAt(k, Restored(c, k, p), p)
    ensures NotFromZeros(c, SecretSet(k), depth) && KeepsAt(k, Restored(c, k, p), p) ==> Distinguishable(c, k, p)
    decreases k
  {
    hide KeepsAt, KeepsFrom, Restored, Secrets, KeygenTree, SecretSet, Distinguishable, Fresh;
    if k.Leaf? {
      LeafIsKept(c, k);
    } else {
      var half := Pow2(k.depth - 1);
      HalvesAreFresh(c, k);
      DistinguishableAt(c, k, p);
      HalvesHaveFewerSecrets(c, k);
      if p < half {
        KeepsAtLeft(c, k, p);
        RestoredKeepsTheLiveSecret(c, k.left.value, p, depth);
      } else {
        KeepsAtRight(c, k, p);
        RestoredKeepsTheLiveSecret(c, k.right.value, p - half, depth);
        if NotFromZeros(c, SecretSet(k), depth) {
          ZerosKeepNothing(c, k.right.value, depth, p - half);
        }
      }
    }
  }

  lemma OnlyLeavesAreSmall(k: Key, d: nat)
    requires Depth(k) == d
    ensures k.Leaf? ==> Pow2(d) == 1
    ensures k.Node? ==> Pow2(d) >= 2
  {}

  lemma {:induction false} RestoredKeepsExactly(c: Crypto, k: Key, p: nat, depth: nat)
    requires Fresh(c, k) && p < Pow2(Depth(k)) && Depth(k) <= depth
    requires Distinguishable(c, k, p) && NeverReturn(c, SecretSet(k), depth)
    ensures KeepsFrom(k, Restored(c, k, p), p) <==> p + 2 >= Pow2(Depth(k))
    decreases k
  {
    hide KeepsAt, KeepsFrom, Restored, Regenerated, Secrets, KeygenTree, SecretSet, Distinguishable, Fresh;
    if k.Leaf? {
      LeafIsKept(c, k);
    } else {
      var half := Pow2(k.depth - 1);
      HalvesAreFresh(c, k);
      DistinguishableAt(c, k, p);
      HalvesHaveFewerSecrets(c, k);
      if p < half {
        KeepsAtLeft(c, k, p);
        RestoredKeepsExactly(c, k.left.value, p, depth);
        RegeneratedOnlyLeaf(c, k.right.value, depth);
        OnlyLeavesAreSmall(k.right.value, k.depth - 1);
      } else {
        KeepsAtRight(c, k, p);
        RestoredKeepsExactly(c, k.right.value, p - half, depth);
      }
    }
  }

  /** What the round trip keeps, exactly.  The loaded key has the secret of the current
      period if and only if the halves of every half-spent subtree have different
      verification keys (if they do not, only a coincidence with what grows from zeros
      could bring it back).  With such halves, and if no secret is derived from itself,
      it has the secrets of all remaining periods if and only if at most two remain. */
  lemma RoundTripIsExact(c: Crypto, k: Key, p: nat)
    requires Sound(c) && Fresh(c, k) && p < Pow2(Depth(k))
    ensures Loaded(c, k, p).Some?
    ensures NotFromZeros(c, SecretSet(k), Depth(k)) ==>
              (KeepsAt(k, Loaded(c, k, p).value, p) <==> Distinguishable(c, k, p))
    ensures NeverReturn(c, SecretSet(k), Depth(k)) && Distinguishable(c, k, p) ==>
              (KeepsFrom(k, Loaded(c, k, p).value, p) <==> p + 2 >= Pow2(Depth(k)))
  {
    hide KeepsAt, KeepsFrom, Restored, Secrets, SecretSet, Distinguishable, Fresh, Loaded;
    LoadedIsRestored(c, k, p);
    RestoredKeepsTheLiveSecret(c, k, p, Depth(k));
    if NeverReturn(c, SecretSet(k), Depth(k)) && Distinguishable(c, k, p) {
      RestoredKeepsExactly(c, k, p, Depth(k));
    }
  }

  lemma {:induction false} LastPeriodsSurvive(c: Crypto, k: Key, p: nat)
    requires Fresh(c, k) && p < Pow2(Depth(k)) <= p + 2 && Distinguishable(c, k, p)
    ensures KeepsFrom(k, Restored(c, k, p), p)
    decreases k
  {
    hide KeepsAt, KeepsFrom, Restored, Regenerated, Secrets, KeygenTree, Distinguishable, Fresh;
    if k.Leaf? {
      LeafIsKept(c, k);
    } else {
      HalvesAreFresh(c, k);
      DistinguishableAt(c, k, p);
      if p < Pow2(k.depth - 1) {
        OnlyLeavesAreSmall(k.right.value, k.depth - 1);
        KeepsAtLeft(c, k, p);
        LastPeriodsSurvive(c, k.left.value, p);
        LeafRegenerates(c, k.right.value);
      } else {
        KeepsAtRight(c, k, p);
        LastPeriodsSurvive(c, k.right.value, p - Pow2(k.depth - 1));
      }
    }
  }

  lemma LeafRegenerates(c: Crypto, r: Key)
    requires Fresh(c, r) && r.Leaf?
    ensures Secrets(Regenerated(c, r)) == Secrets(r)
  {}

  /** With at most two periods left, and so at every period of a key of depth 0 or 1,
      everything survives, with no condition on the derivation. */
  lemma ShallowKeysSurvive(c: Crypto, k: Key, p: nat)
    requires Sound(c) && Fresh(c, k) && p < Pow2(Depth(k)) && Distinguishable(c, k, p)
    requires p + 2 >= Pow2(Depth(k)) || Depth(k) <= 1
    ensures Loaded(c, k, p).Some? && KeepsFrom(k, Loaded(c, k, p).value, p)
  {
    assert Depth(k) <= 1 ==> Pow2(Depth(k)) <= 2;
    LoadedIsRestored(c, k, p);
    LastPeriodsSurvive(c, k, p);
  }

  /** A key of depth 1 whose halves are the same leaf: at period 1 the loaded key
      signs with the secret of zeros. */
  lemma EqualHalvesLoseTheKey(c: Crypto, s: Bytes)
    requires Sound(c) && |s| == 32
    ensures var leaf := Leaf(Some(s), c.vkOf(s), false);
            var k := Node(1, Some(leaf), Some(leaf), c.vkOf(s), c.vkOf(s));
            && Fresh(c, k) && !Distinguishable(c, k, 1)
            && Loaded(c, k, 1).Some?
            && var secrets := Secrets(Loaded(c, k, 1).value);
               |secrets| == 2 && secrets[0] == s && |secrets[1]| == 32 && forall i :: 0 <= i < 32 ==> secrets[1][i] == 0
  {
    var leaf := Leaf(Some(s), c.vkOf(s), false);
    var k := Node(1, Some(leaf), Some(leaf), c.vkOf(s), c.vkOf(s));
    assert Pow2(0) == 1 && Pow2(1) == 2;
    LoadedIsRestored(c, k, 1);
    assert Restored(c, leaf, 0) == leaf;
    assert Secrets(Restored(c, k, 1)) == [s, Zeros()];
  }

  /** Primitives that satisfy what is assumed of them, with few different values. */
  ghost function Toy(): Crypto {
    Crypto(s => Repeat(32, 0), (s, m) => Repeat(64, 0), (vk, sig, m) => true, x => Repeat(32, 0),
           s => Repeat(32, 2), s => Repeat(32, 2))
  }

  ghost function Repeat(n: nat, b: byte): Bytes {
    seq(n, _ => b)
  }

  ghost function ToyLeaf(): Key {
    Leaf(Some(Repeat(32, 1)), Repeat(32, 0), false)
  }

  ghost function ToyNode(): Key {
    Node(1, Some(ToyLeaf()), Some(ToyLeaf()), Repeat(32, 0), Repeat(32, 0))
  }

  /** A key of depth 2 with four periods left, of which the loaded key can use two:
      the derivation from the saved seed does not lead back to it. */
  lemma DeepKeysCanBeLost()
    ensures var k := Node(2, Some(ToyNode()), Some(ToyNode()), Repeat(32, 0), Repeat(32, 0));
            && Sound(Toy()) && Fresh(Toy(), k) && Distinguishable(Toy(), k, 0)
            && Loaded(Toy(), k, 0).Some? && !KeepsFrom(k, Loaded(Toy(), k, 0).value, 0)
  {
    var c, k := Toy(), Node(2, Some(ToyNode()), Some(ToyNode()), Repeat(32, 0), Repeat(32, 0));
    ToyNeverReturns();
    assert SecretSet(k) == {Repeat(32, 1)};
    assert Pow2(2) == 4;
    RoundTripIsExact(c, k, 0);
  }

  lemma ToyNeverReturns()
    ensures Sound(Toy()) && NeverReturn(Toy(), {Repeat(32, 1)}, 2)
  {
    var c := Toy();
    assert Repeat(32, 1)[0] == 1 && Repeat(32, 2)[0] == 2;
    forall s, n: nat | s in {Repeat(32, 1)} && 0 < n < 2 ensures LeftDerived(c, s, n) != s {
      assert n == 1 && LeftDerived(c, c.leftSeed(s), 0) == Repeat(32, 2);
    }
  }
}
