/**
 * The in-memory cache of pkg/cache/cache.go: a map from keys to items that
 * remember when they were stored and for how long they live. Expiry is
 * lazy: `Get` treats an old item as missing but never removes it.
 *
 * Time is an input: `now` is a reading of the clock in nanoseconds, the
 * unit of Go's `time.Duration`.
 */
module Cache {

  datatype Item = Item(putTime: int, ttl: int, value: string)

  type Store = map<string, Item>

  /** What a missing key reads as: Go's zero `Item`. */
  const ZeroItem := Item(0, 0, "")

  /** `cache.New()`: nothing stored. */
  function New(): (c: Store)
    ensures forall k: string :: k !in c
  {
    map[]
  }

  /** A positive ttl bounds an item's life, ending inclusively; zero or less means forever. */
  predicate Live(item: Item, now: int) {
    item.ttl <= 0 || now - item.putTime <= item.ttl
  }

  /**
   * `Cache.Get`: the stored value while its item lives, and `("", false)`
   * for a key that is missing or expired.
   */
  function Get(c: Store, key: string, now: int): (r: (string, bool))
    ensures r.1 <==> key in c && Live(c[key], now)
    ensures r.1 ==> r.0 == c[key].value
    ensures !r.1 ==> r.0 == ""
  {
    var item := if key in c then c[key] else ZeroItem;
    if item.ttl > 0 && now - item.putTime > item.ttl then ("", false)
    else (item.value, key in c)
  }

  /** `Cache.Set`: the key's item is replaced, stamped with `now`; every other entry stays. */
  function Set(c: Store, key: string, value: string, ttl: int, now: int): (r: Store)
    ensures key in r && r[key] == Item(now, ttl, value)
    ensures forall k | k != key :: (k in r <==> k in c) && (k in c ==> r[k] == c[k])
  {
    c[key := Item(now, ttl, value)]
  }

  /** `Cache.Delete`: the key is gone; every other entry stays. */
  function Delete(c: Store, key: string): (r: Store)
    ensures key !in r
    ensures forall k | k != key :: (k in r <==> k in c) && (k in c ==> r[k] == c[k])
  {
    c - {key}
  }

  /** A fresh cache misses every key. */
  lemma NewMisses(key: string, now: int)
    ensures Get(New(), key, now) == ("", false)
  {
  }

  /**
   * After `Set(k, v, d)` at `t`, reading `k` at `t' >= t` gives `v` exactly
   * while `d <= 0` or `t' - t <= d`, and the miss otherwise.
   */
  lemma SetThenGet(c: Store, key: string, value: string, ttl: int, t: int, t': int)
    requires t <= t'
    ensures Get(Set(c, key, value, ttl, t), key, t')
            == if ttl <= 0 || t' - t <= ttl then (value, true) else ("", false)
  {
  }

  /** An item read exactly `ttl` after it was stored is still there. */
  lemma LiveAtDeadline(c: Store, key: string, value: string, ttl: int, t: int)
    ensures Get(Set(c, key, value, ttl, t), key, t + ttl) == (value, true)
  {
  }

  /** A zero or negative ttl never expires. */
  lemma NoTtlNeverExpires(c: Store, key: string, value: string, ttl: int, t: int, t': int)
    requires ttl <= 0
    ensures Get(Set(c, key, value, ttl, t), key, t') == (value, true)
  {
  }

  /** Reading never changes the store: an expired item stays stored. */
  lemma ExpiredStaysStored(c: Store, key: string, now: int)
    requires key in c && !Live(c[key], now)
    ensures Get(c, key, now) == ("", false) && key in c
  {
  }

  /** After `Delete(k)` the key misses; deleting a missing key changes nothing. */
  lemma DeleteThenGet(c: Store, key: string, now: int)
    ensures Get(Delete(c, key), key, now) == ("", false)
    ensures key !in c ==> Delete(c, key) == c
  {
  }

  /** A second `Set` on a key replaces value, time and ttl alike. */
  lemma SetReplaces(c: Store, key: string, v1: string, d1: int, t1: int, v2: string, d2: int, t2: int)
    ensures Set(Set(c, key, v1, d1, t1), key, v2, d2, t2) == Set(c, key, v2, d2, t2)
  {
  }

  /** `Set` and `Delete` on one key leave what every other key reads. */
  lemma OtherKeysUnaffected(c: Store, key: string, other: string, value: string, ttl: int, t: int, now: int)
    requires other != key
    ensures Get(Set(c, key, value, ttl, t), other, now) == Get(c, other, now)
    ensures Get(Delete(c, key), other, now) == Get(c, other, now)
  {
  }
}
