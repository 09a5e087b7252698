/** The host key-value store as the plugin uses it: one namespace of keys,
    each holding a value and an absolute expiry time set with `pexpireAt`.
    An entry is live while the clock is strictly before its expiry; after
    that, reads see no key, whether or not the entry has been purged. */
module TtlStore {
  import opened Wrappers

  datatype Entry<V> = Entry(value: V, expiresAt: int)

  predicate Live<K, V>(m: map<K, Entry<V>>, k: K, now: int) {
    k in m && now < m[k].expiresAt
  }

  /** A read (`get` / `getObject`) at time `now`. */
  function Get<K, V>(m: map<K, Entry<V>>, k: K, now: int): (r: Option<V>)
    ensures r.Some? <==> Live(m, k, now)
    ensures r.Some? ==> r.value == m[k].value
  {
    if Live(m, k, now) then Some(m[k].value) else None
  }

}
