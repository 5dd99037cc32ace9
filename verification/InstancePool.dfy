/** The pool of peer sessions (daemon/utils/data_struct/instance_pool.h). */
module InstancePool {
  import opened Options

  /** First writer wins. */
  function Insert<K, V>(pool: map<K, V>, key: K, instance: V): (r: map<K, V>)
    ensures key in r
    ensures forall k :: k in pool ==> k in r && r[k] == pool[k]
  {
    if key in pool then pool else pool[key := instance]
  }

  class InstancePool<K(==), V> {
    var pool: map<K, V>

    constructor ()
      ensures pool == map[]
    {
      pool := map[];
    }

    method AddInstance(key: K, instance: V) returns (added: bool)
      modifies this
      ensures pool == Insert(old(pool), key, instance)
      ensures added <==> key !in old(pool)
      ensures pool == if added then old(pool)[key := instance] else old(pool)
    {
      if key !in pool {
        pool := pool[key := instance];
        return true;
      } else {
        return false;
      }
    }

    method GetInstance(key: K) returns (r: Option<V>)
      ensures r == if key in pool then Some(pool[key]) else None
    {
      if key in pool {
        return Some(pool[key]);
      } else {
        return None;
      }
    }
  }
}
