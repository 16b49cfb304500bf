/** The store of the newer crate (cached/src/db.rs): `MainDB`, a map from keys to
    values with an optional expiry time, plus the set of keys that were stored with
    one. Expiry is lazy: an entry whose TTL has passed is only dropped when `get`
    meets it. The clock is the parameter `now`, in milliseconds since the Unix epoch. */
module CachedDb {
  import opened Wrappers
  import opened BigEndian

  /** Keys and values are Rust strings, i.e. their UTF-8 bytes. */
  type Bytes = seq<U8>

  datatype DbValue = DbValue(value: Bytes, ttl: Option<U128>)

  datatype MainDB = MainDB(db: map<Bytes, DbValue>, keysWithTtl: set<Bytes>)

  /** The messages the actor serves, and its answers. */
  datatype DbRequest =
    | GetRequest(key: Bytes)
    | InsertRequest(key: Bytes, value: Bytes, ttl: Option<U128>)
    | RemoveRequest(key: Bytes)
    | ContainsKeyRequest(key: Bytes)
    | ClearRequest

  datatype DbResponse = GetResponse(found: DbValue) | ContainsKeyResponse(present: bool)

  /** The two collections agree: `keys_with_ttl` only names stored keys, and every
      stored entry with a TTL is named there. */
  predicate Valid(m: MainDB) {
    && m.keysWithTtl <= m.db.Keys
    && forall k | k in m.db && m.db[k].ttl.Some? :: k in m.keysWithTtl
  }

  /** `ttl < now`: strictly before the current time. */
  predicate Expired(v: DbValue, now: nat) {
    v.ttl.Some? && v.ttl.value < now
  }

  /** `MainDB::new`. */
  function Empty(): (m: MainDB)
    ensures Valid(m) && m.db == map[]
  {
    MainDB(map[], {})
  }

  /** `get`: an expired entry is dropped from both collections and not returned;
      any other entry is returned as stored. */
  function Get(m: MainDB, key: Bytes, now: nat): (r: (MainDB, Option<DbValue>))
    ensures r.1.Some? <==> key in m.db && !Expired(m.db[key], now)
    ensures r.1.Some? ==> r.1.value == m.db[key] && r.0 == m
    ensures key !in m.db ==> r.0 == m
    ensures key in m.db && Expired(m.db[key], now) ==>
              r.0 == MainDB(m.db - {key}, m.keysWithTtl - {key})
    ensures Valid(m) ==> Valid(r.0)
  {
    if key in m.db && Expired(m.db[key], now) then
      (MainDB(m.db - {key}, m.keysWithTtl - {key}), None)
    else if key in m.db then (m, Some(m.db[key]))
    else (m, None)
  }

  /** `insert`: a TTL at or before now stores nothing; otherwise the entry replaces
      any previous one, and a TTL puts the key into `keys_with_ttl`. Without a TTL the
      key is not taken out of `keys_with_ttl`. */
  function Insert(m: MainDB, key: Bytes, value: Bytes, ttl: Option<U128>, now: nat): (r: MainDB)
    ensures ttl.Some? && ttl.value <= now ==> r == m
    ensures !(ttl.Some? && ttl.value <= now) ==>
              && key in r.db && r.db[key] == DbValue(value, ttl)
              && r.db - {key} == m.db - {key}
              && r.keysWithTtl == (if ttl.Some? then m.keysWithTtl + {key} else m.keysWithTtl)
    ensures Valid(m) ==> Valid(r)
  {
    if ttl.Some? && ttl.value <= now then m
    else
      var keysWithTtl := if ttl.Some? then m.keysWithTtl + {key} else m.keysWithTtl;
      MainDB(m.db[key := DbValue(value, ttl)], keysWithTtl)
  }

  /** `remove`: the key leaves both collections; no other key is touched. */
  function Remove(m: MainDB, key: Bytes): (r: MainDB)
    ensures key !in r.db && key !in r.keysWithTtl
    ensures forall k | k != key :: (k in r.db <==> k in m.db) && (k in r.keysWithTtl <==> k in m.keysWithTtl)
    ensures forall k | k in r.db :: r.db[k] == m.db[k]
    ensures Valid(m) ==> Valid(r)
  {
    MainDB(m.db - {key}, m.keysWithTtl - {key})
  }

  /** `clear`: both collections become empty. */
  function Clear(m: MainDB): (r: MainDB)
    ensures |r.db| == 0 && |r.keysWithTtl| == 0
    ensures Valid(r)
  {
    Empty()
  }

  /** `db.contains_key`: raw presence, expired or not. */
  function ContainsKey(m: MainDB, key: Bytes): (r: bool)
    ensures r <==> key in m.db
  {
    key in m.db
  }

  /** `MainDB::handle_request`: one message, served in the order the actor receives it. */
  function HandleRequest(m: MainDB, request: DbRequest, now: nat): (r: (MainDB, Option<DbResponse>))
    ensures Valid(m) ==> Valid(r.0)
    ensures r.1.Some? <==> (request.GetRequest? && Get(m, request.key, now).1.Some?) || request.ContainsKeyRequest?
    ensures request.ContainsKeyRequest? ==> r == (m, Some(ContainsKeyResponse(request.key in m.db)))
    ensures request.GetRequest? && r.1.Some? ==> r.1 == Some(GetResponse(m.db[request.key]))
  {
    match request
    case GetRequest(key) =>
      var (m', found) := Get(m, key, now);
      (m', if found.Some? then Some(GetResponse(found.value)) else None)
    case InsertRequest(key, value, ttl) => (Insert(m, key, value, ttl, now), None)
    case ContainsKeyRequest(key) => (m, Some(ContainsKeyResponse(ContainsKey(m, key))))
    case RemoveRequest(key) => (Remove(m, key), None)
    case ClearRequest => (Clear(m), None)
  }

  /** The boundary at `now` itself: `insert` refuses a TTL equal to now, yet `get`
      still returns an entry whose TTL equals now. */
  lemma TtlEqualToNow(m: MainDB, key: Bytes, value: Bytes, now: U128)
    ensures Insert(m, key, value, Some(now), now) == m
    ensures Get(MainDB(m.db[key := DbValue(value, Some(now))], m.keysWithTtl), key, now).1
            == Some(DbValue(value, Some(now)))
  {
  }

  /** What `insert` stores, `get` returns until its TTL has passed. */
  lemma InsertThenGet(m: MainDB, key: Bytes, value: Bytes, ttl: Option<U128>, now: nat, later: nat)
    requires ttl.None? || now < ttl.value
    requires ttl.None? || later <= ttl.value
    ensures Get(Insert(m, key, value, ttl, now), key, later).1 == Some(DbValue(value, ttl))
  {
  }

  /** ... and once it has passed, `get` drops the entry from both collections. */
  lemma InsertThenGetExpired(m: MainDB, key: Bytes, value: Bytes, ttl: U128, now: nat, later: nat)
    requires now < ttl < later
    ensures var m' := Insert(m, key, value, Some(ttl), now);
            var (m'', found) := Get(m', key, later);
            found.None? && key !in m''.db && key !in m''.keysWithTtl
  {
  }

  /** Overwriting a TTL'd entry without a TTL leaves its key in `keys_with_ttl`, so
      that set can name keys whose entry no longer expires. */
  lemma StaleTtlKey(key: Bytes, v: Bytes, w: Bytes)
    ensures var m := Insert(Insert(Empty(), key, v, Some(2), 1), key, w, None, 1);
            Valid(m) && key in m.keysWithTtl && m.db[key].ttl.None?
  {
  }
}
