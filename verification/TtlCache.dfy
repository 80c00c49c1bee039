/** One slot of the cache providers: a value and the instant, in milliseconds, from which it is gone. */
module TtlCache {
  import opened Wrappers

  datatype Entry<+V> = Entry(value: V, expires: Option<int>)

  /** An entry is expired from its expiry instant on; without a time to live it stays. */
  predicate IsExpired(expires: Option<int>, now: int) {
    expires.Some? && now >= expires.value
  }

  /** A time to live of zero is taken as no time to live. */
  function Store<V>(value: V, now: int, ttlMs: int): Entry<V> {
    Entry(value, if ttlMs != 0 then Some(now + ttlMs) else None)
  }

  function Lookup<V>(slot: Option<Entry<V>>, now: int): Option<V> {
    if slot.Some? && !IsExpired(slot.value.expires, now) then Some(slot.value.value) else None
  }
}
