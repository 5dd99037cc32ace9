/** The cache of recently seen packet ids (daemon/utils/data_struct/fifo_cache.h). */
module FifoCache {

  // ----- the cache as a value: the list, the set, and what one lookup does -----

  datatype State<T> = State(list: seq<T>, members: set<T>)

  /** A fresh cache: the list holds capacity default values, the set is empty. */
  function Fresh<T>(capacity: nat, default: T): State<T> {
    State(seq(capacity, _ => default), {})
  }

  /** One lookup: a hit changes nothing; a miss evicts the front of the list and appends id. */
  function Lookup<T(==)>(s: State<T>, id: T): State<T>
    requires |s.list| > 0
  {
    if id in s.members then s
    else State(s.list[1..] + [id], s.members - {s.list[0]} + {id})
  }

  function After<T(==)>(capacity: nat, default: T, ids: seq<T>): (s: State<T>)
    requires capacity > 0
    ensures |s.list| == capacity
  {
    if ids == [] then Fresh(capacity, default)
    else Lookup(After(capacity, default, ids[..|ids| - 1]), ids[|ids| - 1])
  }

  /** The ids whose lookup missed, in order. */
  function Misses<T(==)>(capacity: nat, default: T, ids: seq<T>): seq<T>
    requires capacity > 0
  {
    if ids == [] then []
    else
      var before := ids[..|ids| - 1];
      var id := ids[|ids| - 1];
      var m := Misses(capacity, default, before);
      if id in After(capacity, default, before).members then m else m + [id]
  }

  function LastOf<T>(n: nat, s: seq<T>): seq<T> {
    if |s| <= n then s else s[|s| - n..]
  }

  /** The cache state tells exactly the last misses: s follows history m. */
  ghost predicate Follows<T(!new)>(s: State<T>, m: seq<T>, capacity: nat, default: T) {
    && |s.list| == capacity
    && s.list == (seq(capacity, _ => default) + m)[|m|..]
    && (forall x: T :: x != default ==> (x in s.members <==> x in s.list))
    && s.members <= (set x | x in s.list)
    && (forall i, j :: 0 <= i < j < |m| && j - i <= capacity && m[i] != default ==> m[i] != m[j])
  }

  lemma FreshFollows<T(!new)>(capacity: nat, default: T)
    ensures Follows(Fresh(capacity, default), [], capacity, default)
  {
  }

  lemma InList<T(!new)>(s: State<T>, m: seq<T>, capacity: nat, default: T, x: T)
    requires capacity > 0 && Follows(s, m, capacity, default) && x != default
    ensures x in s.list <==> x in LastOf(capacity, m)
  {
    var l := LastOf(capacity, m);
    var pad := seq(capacity - |l|, _ => default);
    WindowIsPadded(m, capacity, default);
    assert s.list == pad + l;
    assert x in pad + l <==> x in pad || x in l;
  }

  /** The list: what is left of the placeholders, then the last misses. */
  lemma WindowIsPadded<T>(m: seq<T>, capacity: nat, default: T)
    ensures |LastOf(capacity, m)| <= capacity
    ensures (seq(capacity, _ => default) + m)[|m|..]
         == seq(capacity - |LastOf(capacity, m)|, _ => default) + LastOf(capacity, m)
  {
  }

  lemma MissIsNew<T(!new)>(s: State<T>, m: seq<T>, capacity: nat, default: T, id: T)
    requires capacity > 0 && Follows(s, m, capacity, default) && id != default && id !in s.members
    ensures forall i :: 0 <= i < |m| && |m| - i <= capacity ==> m[i] != id
  {
    InList(s, m, capacity, default, id);
    var l := LastOf(capacity, m);
    forall i | 0 <= i < |m| && |m| - i <= capacity
      ensures m[i] != id
    {
      assert m[i] == l[i - (|m| - |l|)];
    }
  }

  lemma LookupFollows<T(!new)>(s: State<T>, m: seq<T>, capacity: nat, default: T, id: T)
    requires capacity > 0 && Follows(s, m, capacity, default)
    ensures Follows(Lookup(s, id), if id in s.members then m else m + [id], capacity, default)
  {
    if id !in s.members {
      var s', m' := Lookup(s, id), m + [id];
      var pad := seq(capacity, _ => default);
      assert (pad + m')[|m'|..] == (pad + m)[|m|..][1..] + [id];
      if id != default {
        MissIsNew(s, m, capacity, default, id);
      }
      ListDistinct(s, m, capacity, default);
    }
  }

  /** No value but the default occurs twice in the list. */
  lemma ListDistinct<T(!new)>(s: State<T>, m: seq<T>, capacity: nat, default: T)
    requires Follows(s, m, capacity, default)
    ensures forall i, j :: 0 <= i < j < |s.list| && s.list[i] != default ==> s.list[i] != s.list[j]
  {
    var padded := seq(capacity, _ => default) + m;
    forall i, j | 0 <= i < j < |s.list| && s.list[i] != default
      ensures s.list[i] != s.list[j]
    {
      assert s.list[i] == padded[|m| + i] && s.list[j] == padded[|m| + j];
      assert s.list[i] == m[|m| + i - capacity] && s.list[j] == m[|m| + j - capacity];
    }
  }

  lemma {:induction false} AfterFollows<T(!new)>(capacity: nat, default: T, ids: seq<T>)
    requires capacity > 0
    ensures Follows(After(capacity, default, ids), Misses(capacity, default, ids), capacity, default)
    decreases |ids|
  {
    if ids == [] {
      FreshFollows(capacity, default);
    } else {
      var before := ids[..|ids| - 1];
      AfterFollows(capacity, default, before);
      LookupFollows(After(capacity, default, before), Misses(capacity, default, before),
                    capacity, default, ids[|ids| - 1]);
    }
  }

  // ----- what the cache promises over whole histories -----

  /** After any history, an id other than the default hits exactly when it is among the
      last capacity misses. */
  lemma HitIffRecentMiss<T(!new)>(capacity: nat, default: T, ids: seq<T>, id: T)
    requires capacity > 0 && id != default
    ensures id in After(capacity, default, ids).members
       <==> id in LastOf(capacity, Misses(capacity, default, ids))
  {
    AfterFollows(capacity, default, ids);
    InList(After(capacity, default, ids), Misses(capacity, default, ids), capacity, default, id);
  }

  /** Any capacity + 1 consecutive misses are pairwise distinct, defaults aside. */
  lemma MissesDistinct<T(!new)>(capacity: nat, default: T, ids: seq<T>, i: nat, j: nat)
    requires capacity > 0
    requires i < j < |Misses(capacity, default, ids)| && j - i <= capacity
    requires Misses(capacity, default, ids)[i] != default
    ensures Misses(capacity, default, ids)[i] != Misses(capacity, default, ids)[j]
  {
    AfterFollows(capacity, default, ids);
  }

  ghost predicate HitsRecentMisses<T>(capacity: nat, default: T, ids: seq<T>, id: T)
    requires capacity > 0
  {
    id in After(capacity, default, ids).members
    <==> id in LastOf(capacity, Misses(capacity, default, ids))
  }

  /** The placeholders break the promise for the default id, for every capacity but 1:
      evicting a placeholder also forgets a default id cached since. */
  lemma DefaultHitsIff<T(!new)>(capacity: nat, default: T, other: T)
    requires capacity > 0 && other != default
    ensures (forall ids: seq<T> :: HitsRecentMisses(capacity, default, ids, default)) <==> capacity == 1
  {
    if capacity == 1 {
      forall ids: seq<T>
        ensures HitsRecentMisses(1, default, ids, default)
      {
        OneEntry(default, ids);
      }
    } else {
      var ids := [default, other];
      var s := After(capacity, default, ids);
      assert ids[..1] == [default] && [default][..0] == [];
      assert After(capacity, default, []) == Fresh(capacity, default);
      assert After(capacity, default, [default]) == Lookup(Fresh(capacity, default), default);
      assert s == Lookup(After(capacity, default, [default]), other);
      assert Misses(capacity, default, [default]) == [default];
      assert Misses(capacity, default, ids) == [default, other];
      assert default !in s.members;
      assert !HitsRecentMisses(capacity, default, ids, default);
    }
  }

  lemma {:induction false} OneEntry<T(!new)>(default: T, ids: seq<T>)
    ensures After(1, default, ids).members
         == var m := Misses(1, default, ids); if m == [] then {} else {m[|m| - 1]}
    ensures HitsRecentMisses(1, default, ids, default)
    decreases |ids|
  {
    AfterFollows(1, default, ids);
    if ids != [] {
      var before := ids[..|ids| - 1];
      OneEntry(default, before);
      AfterFollows(1, default, before);
    }
  }

  /** What miss k evicts: a placeholder while there are any, then the misses in order. */
  function Evicted<T>(capacity: nat, default: T, m: seq<T>, k: nat): T
    requires k < capacity + |m|
  {
    if k < capacity then default else m[k - capacity]
  }

  /** Miss t cached id, and no miss since has evicted an equal value. */
  ghost predicate CachedSince<T>(capacity: nat, default: T, m: seq<T>, id: T, t: nat) {
    t < |m| && m[t] == id && forall k :: t < k < |m| ==> Evicted(capacity, default, m, k) != id
  }

  lemma FrontIsEvicted<T(!new)>(capacity: nat, default: T, ids: seq<T>)
    requires capacity > 0
    ensures var m := Misses(capacity, default, ids);
            After(capacity, default, ids).list[0] == Evicted(capacity, default, m, |m|)
  {
    AfterFollows(capacity, default, ids);
  }

  ghost predicate CachedByMiss<T>(capacity: nat, default: T, m: seq<T>, id: T) {
    exists t: nat :: CachedSince(capacity, default, m, id, t)
  }

  lemma CachedPush<T>(capacity: nat, default: T, m: seq<T>, x: T, id: T)
    requires capacity > 0
    ensures CachedByMiss(capacity, default, m + [x], id)
       <==> x == id || (Evicted(capacity, default, m, |m|) != id && CachedByMiss(capacity, default, m, id))
  {
    var m' := m + [x];
    assert forall k: nat :: k < |m'| ==>
        Evicted(capacity, default, m', k) == Evicted(capacity, default, m, k);
    if x == id {
      assert CachedSince(capacity, default, m', id, |m|);
    } else if t: nat :| CachedSince(capacity, default, m', id, t) {
      assert Evicted(capacity, default, m', |m|) != id;
      assert CachedSince(capacity, default, m, id, t);
    }
    if Evicted(capacity, default, m, |m|) != id {
      if t: nat :| CachedSince(capacity, default, m, id, t) {
        assert CachedSince(capacity, default, m', id, t);
      }
    }
  }

  /** For every history and every id, the default included: an id is cached exactly when
      some miss cached it and no later miss evicted an equal value, placeholder or not. */
  lemma {:induction false} CachedIff<T(!new)>(capacity: nat, default: T, ids: seq<T>, id: T)
    requires capacity > 0
    ensures id in After(capacity, default, ids).members
       <==> CachedByMiss(capacity, default, Misses(capacity, default, ids), id)
    decreases |ids|
  {
    hide CachedByMiss, Evicted;
    if ids == [] {
      NothingCached(capacity, default, id);
    } else {
      var before, x := ids[..|ids| - 1], ids[|ids| - 1];
      var s, m := After(capacity, default, before), Misses(capacity, default, before);
      CachedIff(capacity, default, before, id);
      AfterFollows(capacity, default, before);
      FrontIsEvicted(capacity, default, before);
      CachedPush(capacity, default, m, x, id);
      assert After(capacity, default, ids) == Lookup(s, x);
      if x !in s.members {
        assert Misses(capacity, default, ids) == m + [x];
        assert Lookup(s, x).members == s.members - {s.list[0]} + {x};
      }
    }
  }

  lemma NothingCached<T>(capacity: nat, default: T, id: T)
    ensures !CachedByMiss(capacity, default, [], id)
  {
  }

  /** If at most capacity distinct ids are ever looked up, none of them the default, each
      of them misses at most once. */
  lemma NoSecondMiss<T(!new)>(capacity: nat, default: T, ids: seq<T>, universe: set<T>, i: nat, j: nat)
    requires capacity > 0
    requires (forall x :: x in ids ==> x in universe) && default !in universe && |universe| <= capacity
    requires i < j < |Misses(capacity, default, ids)|
    ensures Misses(capacity, default, ids)[i] != Misses(capacity, default, ids)[j]
  {
    var m := Misses(capacity, default, ids);
    MissesAmongIds(capacity, default, ids);
    AfterFollows(capacity, default, ids);
    if j - i > capacity {
      var run := m[i..i + capacity + 1];
      assert forall k :: 0 <= k < |run| ==> run[k] == m[i + k] && run[k] in ids;
      DistinctFits(run, universe);
    }
  }

  lemma {:induction false} MissesAmongIds<T>(capacity: nat, default: T, ids: seq<T>)
    requires capacity > 0
    ensures forall x :: x in Misses(capacity, default, ids) ==> x in ids
    decreases |ids|
  {
    if ids != [] {
      MissesAmongIds(capacity, default, ids[..|ids| - 1]);
    }
  }

  lemma {:induction false} DistinctFits<T>(s: seq<T>, universe: set<T>)
    requires forall x :: x in s ==> x in universe
    requires forall i, j :: 0 <= i < j < |s| ==> s[i] != s[j]
    ensures |s| <= |universe|
    decreases |s|
  {
    if s != [] {
      var last := s[|s| - 1];
      DistinctFits(s[..|s| - 1], universe - {last});
    }
  }

  lemma LastOfIn<T>(n: nat, s: seq<T>, x: T)
    requires x in LastOf(n, s)
    ensures x in s
  {
  }

  lemma {:induction false} DistinctAllMiss<T(!new)>(capacity: nat, default: T, ids: seq<T>)
    requires capacity > 0 && default !in ids && forall i, j :: 0 <= i < j < |ids| ==> ids[i] != ids[j]
    ensures Misses(capacity, default, ids) == ids
    decreases |ids|
  {
    hide After, LastOf;
    if ids != [] {
      var before, id := ids[..|ids| - 1], ids[|ids| - 1];
      DistinctAllMiss(capacity, default, before);
      assert id in ids && id !in before;
      if id in LastOf(capacity, before) {
        LastOfIn(capacity, before, id);
      }
      HitIffRecentMiss(capacity, default, before, id);
    }
  }

  /** One id more than the cache holds is already too many: after capacity + 1 distinct
      ids, the first of them misses again. */
  lemma SecondMissBeyondCapacity<T(!new)>(capacity: nat, default: T, ids: seq<T>)
    requires capacity > 0 && |ids| == capacity + 1
    requires default !in ids && forall i, j :: 0 <= i < j < |ids| ==> ids[i] != ids[j]
    ensures Misses(capacity, default, ids + [ids[0]]) == ids + [ids[0]]
  {
    DistinctAllMiss(capacity, default, ids);
    assert ids[0] in ids;
    HitIffRecentMiss(capacity, default, ids, ids[0]);
    assert (ids + [ids[0]])[..|ids|] == ids;
  }

  // ----- the class -----

  class FIFOCache<T(==, !new)> {
    const maxCacheSize: nat
    const default: T
    var cache: seq<T>
    var cacheMap: set<T>
    ghost var misses: seq<T>

    ghost predicate Valid()
      reads this
    {
      maxCacheSize > 0 && Follows(Contents(), misses, maxCacheSize, default)
    }

    ghost function Contents(): State<T>
      reads this
    {
      State(cache, cacheMap)
    }

    constructor (cacheSize: nat, default: T)
      requires cacheSize > 0
      ensures Valid() && maxCacheSize == cacheSize && this.default == default
      ensures misses == [] && Contents() == Fresh(cacheSize, default)
    {
      maxCacheSize := cacheSize;
      this.default := default;
      cache := seq(cacheSize, _ => default);
      cacheMap := {};
      misses := [];
      FreshFollows(cacheSize, default);
    }

    /** True when id is cached; otherwise caches it, dropping the oldest entry. */
    method IsCached(id: T) returns (hit: bool)
      requires Valid()
      modifies this
      ensures Valid()
      ensures Contents() == Lookup(old(Contents()), id)
      ensures hit <==> id in old(cacheMap)
      ensures id != default ==> (hit <==> id in LastOf(maxCacheSize, old(misses)))
      ensures misses == if hit then old(misses) else old(misses) + [id]
    {
      LookupFollows(Contents(), misses, maxCacheSize, default, id);
      if id != default {
        InList(Contents(), misses, maxCacheSize, default, id);
      }
      if id !in cacheMap {
        if |cache| == maxCacheSize {
          cacheMap := cacheMap - {cache[0]};
          cache := cache[1..];
        }
        cacheMap := cacheMap + {id};
        cache := cache + [id];
        misses := misses + [id];
        hit := false;
      } else {
        hit := true;
      }
    }
  }
}
