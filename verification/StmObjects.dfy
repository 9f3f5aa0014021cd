// The transactional variable and the transaction as the objects they are:
// two dictionaries keyed by variable, filled in place.

module StmObjects {

  class TVar<V> {
    var value: V
    var version: int

    constructor (v: V)
      ensures value == v && version == 0
    {
      value, version := v, 0;
    }

    method Get() returns (v: V, n: int)
      ensures v == value && n == version
    {
      return value, version;
    }

    method Set(v: V) returns (n: int)
      modifies this
      ensures value == v && version == old(version) + 1 == n
    {
      value := v;
      version := version + 1;
      return version;
    }
  }

  class Transaction<V> {
    var versions: map<TVar<V>, int>
    var writes: map<TVar<V>, V>

    /** What this transaction sees in `t`: its own staged write if it has one. */
    ghost function View(t: TVar<V>): V
      reads this, t
    {
      if t in writes then writes[t] else t.value
    }

    /** Every version recorded is still current. */
    ghost predicate Current()
      reads this, versions.Keys
    {
      forall t <- versions :: versions[t] == t.version
    }

    constructor ()
      ensures versions == map[] && writes == map[]
    {
      versions, writes := map[], map[];
    }

    method Read(t: TVar<V>) returns (v: V)
      modifies this
      ensures writes == old(writes) && v == View(t)
      ensures versions == if t in writes || t in old(versions) then old(versions) else old(versions)[t := t.version]
    {
      if t in writes {
        return writes[t];
      }
      if t !in versions {
        var value, version := t.Get();
        versions := versions[t := version];
        return value;
      }
      return t.value;
    }

    method Write(t: TVar<V>, v: V)
      modifies this
      ensures writes == old(writes)[t := v] && View(t) == v
      ensures versions == if t in old(versions) then old(versions) else old(versions)[t := t.version]
      ensures forall u: TVar<V> | u != t && old(allocated(u)) :: View(u) == old(View(u))
    {
      writes := writes[t := v];
      if t !in versions {
        var _, version := t.Get();
        versions := versions[t := version];
      }
    }

    method Validate() returns (ok: bool)
      ensures ok <==> Current()
    {
      var rest := versions.Keys;
      while rest != {}
        invariant rest <= versions.Keys
        invariant forall t <- versions.Keys - rest :: versions[t] == t.version
      {
        var t :| t in rest;
        if t.version != versions[t] {
          return false;
        }
        rest := rest - {t};
      }
      return true;
    }

    method Commit()
      modifies writes.Keys
      ensures forall t <- writes :: t.value == writes[t] && t.version == old(t.version) + 1
    {
      var rest := writes.Keys;
      while rest != {}
        invariant rest <= writes.Keys
        invariant forall t <- writes.Keys - rest :: t.value == writes[t] && t.version == old(t.version) + 1
        invariant forall t <- rest :: t.value == old(t.value) && t.version == old(t.version)
      {
        var t :| t in rest;
        var _ := t.Set(writes[t]);
        rest := rest - {t};
      }
    }

    /** The end of one attempt, under the commit lock: all of the writes
        become visible, exactly as the transaction saw them, or none does. */
    method TryCommit() returns (ok: bool)
      modifies writes.Keys
      ensures ok <==> old(Current())
      ensures ok ==> forall t: TVar<V> | old(allocated(t)) :: t.value == old(View(t))
      ensures ok ==> forall t: TVar<V> | old(allocated(t)) ::
                       t.version == old(t.version) + (if t in writes then 1 else 0)
      ensures !ok ==> forall t: TVar<V> | old(allocated(t)) :: t.value == old(t.value) && t.version == old(t.version)
    {
      ok := Validate();
      if ok {
        Commit();
      }
    }
  }
}
