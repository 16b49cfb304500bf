/** The request dispatch of the older server (src/server.rs, `Handler::handle_request`).
    Its store is a plain concurrent map from key strings to value strings, without
    TTLs; the map is modelled as a `map`, and each call returns the map it leaves. */
module LegacyServer {
  import opened Wrappers
  import opened BigEndian
  import opened CachedPrimitives
  import Req = LegacyRequest
  import Resp = LegacyResponse

  type Store = map<seq<U8>, seq<U8>>

  /** `Handler::handle_request`: `Get` reads, `Set` writes only a vacant key, `Delete`
      removes a present key, `Flush` empties the map. */
  function HandleRequest(db: Store, req: Req.Request): (r: (Store, Resp.Response))
    ensures Resp.OpCodeOf(r.1.body) == Req.OpCodeOf(req)
    ensures r.1.status in {StatusCode.Ok, KeyNotFound, KeyExists}
    ensures !req.Flush? ==> r.0 - {req.key} == db - {req.key}
    ensures req.Get? ==> r.0 == db
    ensures r.1.status != StatusCode.Ok ==> r.0 == db
  {
    match req
    case Get(key) =>
      if key in db then
        (db, Resp.Response(StatusCode.Ok, Resp.ResponseBody.Get(Some(Resp.ResponseBodyGet(key, db[key])))))
      else (db, Resp.Response(KeyNotFound, Resp.ResponseBody.Get(None)))
    case Set(key, value) =>
      if key !in db then (db[key := value], Resp.Response(StatusCode.Ok, Resp.ResponseBody.Set))
      else (db, Resp.Response(KeyExists, Resp.ResponseBody.Set))
    case Delete(key) =>
      if key !in db then (db, Resp.Response(KeyNotFound, Resp.ResponseBody.Delete))
      else (db - {key}, Resp.Response(StatusCode.Ok, Resp.ResponseBody.Delete))
    case Flush => (map[], Resp.Response(StatusCode.Ok, Resp.ResponseBody.Flush))
  }

  /** `Get` answers `Ok` with the stored value, or `KeyNotFound` for an absent key. */
  lemma GetAnswers(db: Store, key: seq<U8>)
    ensures var (_, resp) := HandleRequest(db, Req.Get(key));
            if key in db
            then resp == Resp.Response(StatusCode.Ok, Resp.ResponseBody.Get(Some(Resp.ResponseBodyGet(key, db[key]))))
            else resp == Resp.Response(KeyNotFound, Resp.ResponseBody.Get(None))
  {
  }

  /** `Set` on a vacant key stores the value and answers `Ok`; on an occupied key it
      answers `KeyExists` and keeps the old value. */
  lemma SetAnswers(db: Store, key: seq<U8>, value: seq<U8>)
    ensures var (db', resp) := HandleRequest(db, Req.Set(key, value));
            if key in db then resp.status == KeyExists && db' == db
            else resp.status == StatusCode.Ok && key in db' && db'[key] == value
  {
  }

  /** `Delete` on an absent key answers `KeyNotFound`; on a present key it removes it
      and answers `Ok`. */
  lemma DeleteAnswers(db: Store, key: seq<U8>)
    ensures var (db', resp) := HandleRequest(db, Req.Delete(key));
            && key !in db'
            && (resp.status == StatusCode.Ok <==> key in db)
            && (key !in db ==> resp.status == KeyNotFound)
  {
  }

  /** `Flush` empties the map and answers `Ok`. */
  lemma FlushAnswers(db: Store)
    ensures var (db', resp) := HandleRequest(db, Req.Flush);
            resp.status == StatusCode.Ok && |db'| == 0
  {
  }

  /** The delete scenario of the integration tests on an empty server: get answers
      `KeyNotFound`, set answers `Ok`, get returns the value, delete answers `Ok`, and
      get answers `KeyNotFound` again; a second delete answers `KeyNotFound`. */
  lemma {:induction false} SetGetDeleteSequence(key: seq<U8>, value: seq<U8>)
    ensures var (db0, r0) := HandleRequest(map[], Req.Get(key));
            var (db1, r1) := HandleRequest(db0, Req.Set(key, value));
            var (db2, r2) := HandleRequest(db1, Req.Get(key));
            var (db3, r3) := HandleRequest(db2, Req.Delete(key));
            var (db4, r4) := HandleRequest(db3, Req.Get(key));
            var (_, r5) := HandleRequest(db4, Req.Delete(key));
            && r0.status == KeyNotFound
            && r1.status == StatusCode.Ok
            && r2 == Resp.Response(StatusCode.Ok, Resp.ResponseBody.Get(Some(Resp.ResponseBodyGet(key, value))))
            && r3.status == StatusCode.Ok
            && r4 == Resp.Response(KeyNotFound, Resp.ResponseBody.Get(None))
            && r5.status == KeyNotFound
  {
    var (db0, r0) := HandleRequest(map[], Req.Get(key));
    var (db1, r1) := HandleRequest(db0, Req.Set(key, value));
    assert db1 == map[key := value];
    var (db2, r2) := HandleRequest(db1, Req.Get(key));
    var (db3, r3) := HandleRequest(db2, Req.Delete(key));
    assert key !in db3;
  }
}
