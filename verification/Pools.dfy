/** Consistent, first-come placeholder allocation. */
module Pools {

  /** `given` maps each key to its placeholder; `used` counts the distinct keys. */
  datatype Pool<K, P> = Pool(given: map<K, P>, used: nat)

  function Allocate<K, P>(pool: Pool<K, P>, nth: nat -> P, key: K): (p: Pool<K, P>)
    ensures key in p.given
    ensures p.given.Keys == pool.given.Keys + {key}
  {
    if key in pool.given then pool else Pool(pool.given[key := nth(pool.used)], pool.used + 1)
  }

  function AllocateAll<K, P>(nth: nat -> P, keys: seq<K>): Pool<K, P> {
    if keys == [] then Pool(map[], 0)
    else Allocate(AllocateAll(nth, keys[..|keys| - 1]), nth, keys[|keys| - 1])
  }

  /** The distinct keys in the order in which they are first used. */
  function FirstUses<K(==,!new)>(keys: seq<K>): (r: seq<K>)
    ensures forall k :: k in r <==> k in keys
    ensures forall i, j :: 0 <= i < j < |r| ==> r[i] != r[j]
  {
    if keys == [] then []
    else
      var r := FirstUses(keys[..|keys| - 1]);
      if keys[|keys| - 1] in r then r else r + [keys[|keys| - 1]]
  }

  /** Over any sequence of calls, the i-th distinct key holds the i-th
      placeholder, now and for ever after. */
  lemma {:induction false} FirstUseDecides<K(!new), P>(nth: nat -> P, keys: seq<K>)
    ensures var pool := AllocateAll(nth, keys);
      var r := FirstUses(keys);
      && pool.used == |r|
      && (forall k :: k in pool.given <==> k in r)
      && (forall i :: 0 <= i < |r| ==> r[i] in pool.given && pool.given[r[i]] == nth(i))
  {
    if keys != [] {
      var before, last := keys[..|keys| - 1], keys[|keys| - 1];
      FirstUseDecides(nth, before);
      var r0, r := FirstUses(before), FirstUses(keys);
      var pool0, pool := AllocateAll(nth, before), AllocateAll(nth, keys);
      assert pool == Allocate(pool0, nth, last);
      if last !in r0 {
        assert r == r0 + [last];
        forall i | 0 <= i < |r| ensures r[i] in pool.given && pool.given[r[i]] == nth(i) {
          if i < |r0| {
            assert r[i] == r0[i];
          }
        }
      }
    }
  }
}
