/** The store of the older tree (src/db.rs): a concurrent map from keys to values
    with an optional expiry time, modelled as a plain map. There is no bookkeeping of
    keys with a TTL and nothing is ever dropped on expiry: `get` merely hides an
    expired entry. The clock is the parameter `now`, in milliseconds since the Unix
    epoch. */
module LegacyDb {
  import opened Wrappers
  import opened BigEndian

  /** Keys and values are Rust strings, i.e. their UTF-8 bytes. */
  type Bytes = seq<U8>

  datatype DbValue = DbValue(value: Bytes, ttl: Option<U128>)

  type Db = map<Bytes, DbValue>

  /** `ttl < now`: strictly before the current time. */
  predicate Expired(v: DbValue, now: nat) {
    v.ttl.Some? && v.ttl.value < now
  }

  /** `insert`: the entry replaces any previous one, whatever its TTL; no other key changes. */
  function Insert(db: Db, key: Bytes, value: Bytes, ttl: Option<U128>): (r: Db)
    ensures key in r && r[key] == DbValue(value, ttl)
    ensures r.Keys == db.Keys + {key}
    ensures forall k | k in db && k != key :: r[k] == db[k]
  {
    db[key := DbValue(value, ttl)]
  }

  /** `get`: the stored entry unless its TTL lies strictly before now. The map is only
      read, so an expired entry stays stored. */
  function Get(db: Db, key: Bytes, now: nat): (r: Option<DbValue>)
    ensures r.Some? <==> key in db && !Expired(db[key], now)
    ensures r.Some? ==> r.value == db[key]
  {
    if key in db && !Expired(db[key], now) then Some(db[key]) else None
  }

  /** `remove`: only the given key goes. */
  function Remove(db: Db, key: Bytes): (r: Db)
    ensures key !in r
    ensures r.Keys == db.Keys - {key}
    ensures forall k | k in r :: r[k] == db[k]
  {
    db - {key}
  }

  /** `contains_key`: raw presence, with no look at the TTL. */
  function ContainsKey(db: Db, key: Bytes): (r: bool)
    ensures r <==> key in db
  {
    key in db
  }

  /** `clear`. */
  function Clear(db: Db): (r: Db)
    ensures forall k :: k !in r
  {
    map[]
  }

  /** Reading back an insertion gives the entry unless its own TTL has passed. */
  lemma InsertThenGet(db: Db, key: Bytes, value: Bytes, ttl: Option<U128>, now: nat)
    ensures Get(Insert(db, key, value, ttl), key, now)
            == if ttl.Some? && ttl.value < now then None else Some(DbValue(value, ttl))
  {
  }

  /** An expired entry is hidden from `get` but still counts for `contains_key`, and it
      stays hidden for every later time: expiry is never undone by the clock. */
  lemma ExpiredStaysStored(db: Db, key: Bytes, now: nat, later: nat)
    requires key in db && Expired(db[key], now) && now <= later
    ensures Get(db, key, now).None? && ContainsKey(db, key)
    ensures Get(db, key, later).None?
  {
  }

  /** After `remove` the key is absent at every time; after `clear` every key is. */
  lemma RemoveAndClearForget(db: Db, key: Bytes, other: Bytes, now: nat)
    ensures Get(Remove(db, key), key, now).None? && !ContainsKey(Remove(db, key), key)
    ensures other != key ==> Get(Remove(db, key), other, now) == Get(db, other, now)
    ensures Get(Clear(db), other, now).None?
  {
  }
}
