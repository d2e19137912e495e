/** A cache entry with an optional expiration time, and its expiry check.
    Times are integers on one clock (earlier is smaller); the current time
    is always passed in by the caller. */
module CacheItem {

  datatype Option<T> = None | Some(value: T)

  /** A cache entry: key, value and, when it can expire, its expiration. */
  datatype LruItem<K, V> = LruItem(key: K, value: V, expiration: Option<int>)

  /** The stored expiration time, unchanged. */
  function Expire<K, V>(it: LruItem<K, V>): (t: Option<int>)
    ensures t == it.expiration
  {
    it.expiration
  }

  /** Whether the entry has expired at time `now`: it never does without an
      expiration, and otherwise does once its expiration is strictly before
      `now`. */
  function IsExpired<K, V>(it: LruItem<K, V>, now: int): (expired: bool)
    ensures it.expiration == None ==> !expired
    ensures expired ==> it.expiration.Some? && it.expiration.value < now
  {
    if it.expiration == None then false
    else it.expiration.value < now
  }

  /** Expire hands back exactly the expiration the entry was built with. */
  lemma ExpireReturnsStored<K, V>(key: K, value: V, e: Option<int>)
    ensures Expire(LruItem(key, value, e)) == e
  {
  }

  /** An entry without an expiration is never expired, at any time. */
  lemma NoExpirationNeverExpires<K, V>(it: LruItem<K, V>, now: int)
    requires it.expiration == None
    ensures !IsExpired(it, now)
  {
  }

  /** With an expiration, the entry is expired exactly when that time is
      strictly before `now`; in particular not at the expiration itself. */
  lemma ExpiredIffBefore<K, V>(it: LruItem<K, V>, t: int, now: int)
    requires it.expiration == Some(t)
    ensures IsExpired(it, now) <==> t < now
    ensures !IsExpired(it, t)
  {
  }

  /** The expiry check agrees with the expiration that Expire reports. */
  lemma IsExpiredByExpire<K, V>(it: LruItem<K, V>, now: int)
    ensures IsExpired(it, now) <==> (Expire(it).Some? && Expire(it).value < now)
  {
  }

  /** Once expired, an entry stays expired at every later time. */
  lemma ExpiryIsMonotone<K, V>(it: LruItem<K, V>, now: int, later: int)
    requires IsExpired(it, now) && now <= later
    ensures IsExpired(it, later)
  {
  }

  /** Only the expiration decides expiry: entries with equal expirations
      expire together whatever their keys and values. */
  lemma ExpiryIgnoresKeyAndValue<K, V>(a: LruItem<K, V>, b: LruItem<K, V>, now: int)
    requires a.expiration == b.expiration
    ensures IsExpired(a, now) == IsExpired(b, now)
  {
  }
}
