/** The request dispatch of the newer server (cached/src/server.rs, `Handler::handle_request`):
    each request is answered against the store, with the status deciding between
    `Ok`, `KeyNotFound` and `KeyExists`. */
module CachedServer {
  import opened Wrappers
  import opened BigEndian
  import opened CachedDomain
  import opened CachedPrimitives
  import opened CachedDb
  import Req = CachedRequest
  import Resp = CachedResponse

  /** Every stored value is a `Value`, as the handler only ever inserts the values of
      requests, so a found value can be answered in a `ResponseBodyGet`. */
  predicate ValuesFit(m: MainDB) {
    forall k | k in m.db :: |m.db[k].value| <= MAX_VALUE_LENGTH
  }

  /** The store the handler works on: consistent, and holding only `Value`s. */
  predicate Good(m: MainDB) {
    Valid(m) && ValuesFit(m)
  }

  lemma EmptyIsGood()
    ensures Good(Empty())
  {
  }

  /** `Handler::handle_request`. */
  function HandleRequest(m: MainDB, req: Req.Request, now: nat): (r: (MainDB, Resp.Response))
    requires ValuesFit(m)
    ensures Good(m) ==> Good(r.0)
    ensures Resp.OpCodeOf(r.1.body) == Req.OpCodeOf(req)
    ensures r.1.status in {StatusCode.Ok, KeyNotFound, KeyExists}
  {
    match req
    case Get(key) =>
      var (m', found) := CachedDb.Get(m, key, now);
      if found.Some? then
        (m', Resp.Response(StatusCode.Ok, Resp.ResponseBody.Get(Some(Resp.ResponseBodyGet(key, found.value.value, found.value.ttl)))))
      else (m', Resp.Response(KeyNotFound, Resp.ResponseBody.Get(None)))
    case Set(key, value, ttl) =>
      if ContainsKey(m, key) then (m, Resp.Response(KeyExists, Resp.ResponseBody.Set))
      else (Insert(m, key, value, ttl, now), Resp.Response(StatusCode.Ok, Resp.ResponseBody.Set))
    case Delete(key) =>
      if !ContainsKey(m, key) then (m, Resp.Response(KeyNotFound, Resp.ResponseBody.Delete))
      else (Remove(m, key), Resp.Response(StatusCode.Ok, Resp.ResponseBody.Delete))
    case Flush => (Clear(m), Resp.Response(StatusCode.Ok, Resp.ResponseBody.Flush))
  }

  /** `Get` answers `Ok` with the live entry, and `KeyNotFound` for an absent or
      expired key. */
  lemma GetAnswers(m: MainDB, key: Key, now: nat)
    requires ValuesFit(m)
    ensures var (_, resp) := HandleRequest(m, Req.Get(key), now);
            if key in m.db && !Expired(m.db[key], now)
            then resp == Resp.Response(StatusCode.Ok, Resp.ResponseBody.Get(Some(Resp.ResponseBodyGet(key, m.db[key].value, m.db[key].ttl))))
            else resp == Resp.Response(KeyNotFound, Resp.ResponseBody.Get(None))
  {
  }

  /** `Set` of a present key answers `KeyExists` and changes nothing; of an absent key
      it answers `Ok` and stores the entry unless its TTL has already passed. */
  lemma SetAnswers(m: MainDB, key: Key, value: Value, ttl: Option<U128>, now: nat)
    requires ValuesFit(m)
    ensures var (m', resp) := HandleRequest(m, Req.Set(key, value, ttl), now);
            if key in m.db then m' == m && resp.status == KeyExists
            else && resp.status == StatusCode.Ok
                 && (ttl.Some? && ttl.value <= now ==> m' == m)
                 && (!(ttl.Some? && ttl.value <= now) ==> key in m'.db && m'.db[key] == DbValue(value, ttl))
  {
  }

  /** `Delete` of an absent key answers `KeyNotFound` and changes nothing; of a present
      key it removes only that key and answers `Ok`. */
  lemma DeleteAnswers(m: MainDB, key: Key, now: nat)
    requires ValuesFit(m)
    ensures var (m', resp) := HandleRequest(m, Req.Delete(key), now);
            if key in m.db then resp.status == StatusCode.Ok && m' == Remove(m, key)
            else resp.status == KeyNotFound && m' == m
  {
  }

  /** `Flush` empties the store and answers `Ok`. */
  lemma FlushAnswers(m: MainDB, now: nat)
    requires ValuesFit(m)
    ensures var (m', resp) := HandleRequest(m, Req.Flush, now);
            resp.status == StatusCode.Ok && |m'.db| == 0
  {
  }

  /** `contains_key` ignores expiry: a key whose TTL has passed but that nobody has
      read since still blocks `Set`. */
  lemma SetOnExpiredUnreadKey(m: MainDB, key: Key, value: Value, now: nat)
    requires ValuesFit(m) && key in m.db && Expired(m.db[key], now)
    ensures HandleRequest(m, Req.Set(key, value, None), now).1.status == KeyExists
    ensures HandleRequest(m, Req.Get(key), now).1.status == KeyNotFound
  {
  }

  /** Set, then get, returns the value; set, delete, then get answers `KeyNotFound`. */
  lemma SetGetDeleteSequence(key: Key, value: Value, now: nat)
    ensures var (m1, r1) := HandleRequest(Empty(), Req.Set(key, value, None), now);
            var (m2, r2) := HandleRequest(m1, Req.Get(key), now);
            var (m3, r3) := HandleRequest(m2, Req.Delete(key), now);
            var (_, r4) := HandleRequest(m3, Req.Get(key), now);
            && r1.status == StatusCode.Ok
            && r2 == Resp.Response(StatusCode.Ok, Resp.ResponseBody.Get(Some(Resp.ResponseBodyGet(key, value, None))))
            && r3.status == StatusCode.Ok
            && r4 == Resp.Response(KeyNotFound, Resp.ResponseBody.Get(None))
  {
    var (m1, r1) := HandleRequest(Empty(), Req.Set(key, value, None), now);
    assert Good(m1);
    var (m2, r2) := HandleRequest(m1, Req.Get(key), now);
    assert m2 == m1;
    var (m3, r3) := HandleRequest(m2, Req.Delete(key), now);
    assert key !in m3.db;
  }
}
