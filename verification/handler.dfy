/**
 The request handlers that sit on one resource store: the collection
 endpoint `/<collection>` (GET lists, POST inserts, anything else is
 refused) and the single-item endpoint `/<collection>/<id>`.

 Each handler maps a store and an abstract request to a response and the
 store after the request. Bodies are abstracted to the outcome of reading
 and decoding them; responses carry the payload that would be encoded.
 */
module Handler {
  import opened Store
  import opened Text
  import opened Decimal

  const StatusOK := 200
  const StatusBadRequest := 400
  const StatusNotFound := 404
  const StatusMethodNotAllowed := 405
  const StatusInternalServerError := 500

  const MethodNotAllowedText := "method not allowed"

  /** What reading the request body and decoding it into a record gave. */
  datatype Payload<F> =
    | ReadFailed(readError: string)
    | Malformed(parseError: string)
    | Decoded(record: Record<F>)

  /**
   The parts of a request to the collection endpoint that its handler looks
   at. The single-item handler looks only at the URL, which `GetById` takes
   directly.
   */
  datatype Request<F> = Request(verb: string, body: Payload<F>)

  datatype Body<F> =
    | Empty
    | Plain(text: string)
    | One(record: Record<F>)
    | Many(records: seq<Record<F>>)

  datatype Response<F> = Response(status: int, body: Body<F>)

  /** A response together with the store as the request left it. */
  datatype Handled<F> = Handled(response: Response<F>, store: Store<F>)

  /** The identifier generated from a clock reading in nanoseconds. */
  function IdFor(clock: int64): (id: string)
    ensures '/' !in id
  {
    FormatInt(clock as int)
  }

  /** Ids coincide exactly when the clock readings do. */
  lemma IdsCollideIffClocksEqual(a: int64, b: int64)
    ensures IdFor(a) == IdFor(b) <==> a == b
  {
    FormatIntInjective(a as int, b as int);
  }

  /**
   POST on the collection endpoint. A body that cannot be read gives 500
   and one that does not decode gives 400, both with the error text and
   with the store untouched. Otherwise the record, stamped with the id
   generated from `clock`, is stored under that id, and the response is
   the default empty 200.
   */
  function Post<F>(s: Store<F>, body: Payload<F>, clock: int64): (h: Handled<F>)
    ensures !body.Decoded? ==> h.store == s
    ensures body.ReadFailed? ==> h.response == Response(StatusInternalServerError, Plain(body.readError))
    ensures body.Malformed? ==> h.response == Response(StatusBadRequest, Plain(body.parseError))
    ensures body.Decoded? ==>
      var id := IdFor(clock);
      && h.response == Response(StatusOK, Empty)
      && h.store.Keys == s.Keys + {id}
      && h.store[id] == body.record.(id := id)
      && (forall k :: k in s && k != id ==> h.store[k] == s[k])
    ensures WellKeyed(s) ==> WellKeyed(h.store)
  {
    match body
    case ReadFailed(e) => Handled(Response(StatusInternalServerError, Plain(e)), s)
    case Malformed(e) => Handled(Response(StatusBadRequest, Plain(e)), s)
    case Decoded(rec) => Handled(Response(StatusOK, Empty), Insert(s, rec, IdFor(clock)))
  }

  /**
   GET on the single-item endpoint. The URL must split on `/` into exactly
   three parts; the third is the key. A wrong number of parts or an absent
   key gives an empty 404; a present key gives 200 with the stored record.
   The store is never changed.
   */
  function GetById<F>(s: Store<F>, url: string): (h: Handled<F>)
    ensures h.store == s
    ensures h.response.status == StatusOK <==> |Split(url, '/')| == 3 && Split(url, '/')[2] in s
    ensures h.response.status == StatusOK ==> h.response.body == One(s[Split(url, '/')[2]])
    ensures h.response.status != StatusOK ==> h.response == Response(StatusNotFound, Empty)
    ensures WellKeyed(s) && h.response.body.One? ==> h.response.body.record.id == Split(url, '/')[2]
  {
    var parts := Split(url, '/');
    if |parts| != 3 then Handled(Response(StatusNotFound, Empty), s)
    else if parts[2] !in s then Handled(Response(StatusNotFound, Empty), s)
    else Handled(Response(StatusOK, One(s[parts[2]])), s)
  }

  /**
   The collection endpoint: GET answers 200 with a snapshot of the store,
   POST goes to `Post`, and any other method is answered 405 with a fixed
   text and no change to the store.
   */
  method Serve<F>(s: Store<F>, req: Request<F>, clock: int64) returns (h: Handled<F>)
    ensures req.verb == "GET" ==>
      && h.store == s
      && h.response.status == StatusOK
      && h.response.body.Many?
      && |h.response.body.records| == |s|
      && IsSnapshot(s, h.response.body.records)
    ensures req.verb == "POST" ==> h == Post(s, req.body, clock)
    ensures req.verb != "GET" && req.verb != "POST" ==>
      h == Handled(Response(StatusMethodNotAllowed, Plain(MethodNotAllowedText)), s)
    ensures WellKeyed(s) ==> WellKeyed(h.store)
  {
    if req.verb == "GET" {
      var rs, ks := Snapshot(s);
      h := Handled(Response(StatusOK, Many(rs)), s);
    } else if req.verb == "POST" {
      h := Post(s, req.body, clock);
    } else {
      h := Handled(Response(StatusMethodNotAllowed, Plain(MethodNotAllowedText)), s);
    }
  }

  /** `/<collection>/<key>` looks up `key` when neither part holds a `/`. */
  lemma GetByIdLooksUpKey<F>(s: Store<F>, collection: string, key: string)
    requires '/' !in collection && '/' !in key
    ensures GetById(s, "/" + collection + "/" + key).response ==
      if key in s then Response(StatusOK, One(s[key])) else Response(StatusNotFound, Empty)
  {
    var url := "/" + collection + "/" + key;
    var parts := ["", collection, key];
    assert Join(parts, '/') == url by {
      assert parts[1..] == [collection, key];
      assert parts[1..][1..] == [key];
      assert Join([collection, key], '/') == collection + "/" + key;
      assert Join(parts, '/') == "" + "/" + (collection + "/" + key);
    }
    SplitUnique(url, '/', parts);
  }

  /**
   A URL with a fourth part, such as `/users/a/b` or `/users/a/`, is not
   found even when `a/b` (or any other key) is in the store.
   */
  lemma NestedPathNotFound<F>(s: Store<F>, collection: string, a: string, b: string)
    requires '/' !in collection && '/' !in a && '/' !in b
    ensures GetById(s, "/" + collection + "/" + a + "/" + b).response == Response(StatusNotFound, Empty)
  {
    var url := "/" + collection + "/" + a + "/" + b;
    var parts := ["", collection, a, b];
    assert Join(parts, '/') == url by {
      assert parts[1..] == [collection, a, b];
      assert parts[1..][1..] == [a, b];
      assert parts[1..][1..][1..] == [b];
      assert Join([a, b], '/') == a + "/" + b;
      assert Join([collection, a, b], '/') == collection + "/" + (a + "/" + b);
      assert Join(parts, '/') == "" + "/" + (collection + "/" + (a + "/" + b));
    }
    SplitUnique(url, '/', parts);
  }

  /**
   After a successful POST, GET of `/<collection>/<generated id>` answers
   200 with the posted record carrying the generated id.
   */
  lemma PostThenGet<F>(s: Store<F>, rec: Record<F>, clock: int64, collection: string)
    requires '/' !in collection
    ensures
      var id := IdFor(clock);
      var after := Post(s, Decoded(rec), clock).store;
      && GetById(after, "/" + collection + "/" + id).response == Response(StatusOK, One(Record(id, rec.fields)))
  {
    var id := IdFor(clock);
    GetByIdLooksUpKey(Post(s, Decoded(rec), clock).store, collection, id);
  }

  /**
   After a successful POST on a well-keyed store, a listing of the new
   store holds the posted record, stamped with the generated id, exactly
   once.
   */
  lemma PostThenList<F>(s: Store<F>, rec: Record<F>, clock: int64, rs: seq<Record<F>>)
    requires WellKeyed(s)
    requires IsSnapshot(Post(s, Decoded(rec), clock).store, rs)
    ensures multiset(rs)[Record(IdFor(clock), rec.fields)] == 1
  {
    var after := Post(s, Decoded(rec), clock).store;
    SnapshotIsValues(after, rs);
    assert after[IdFor(clock)] == Record(IdFor(clock), rec.fields);
    assert Record(IdFor(clock), rec.fields) in after.Values;
  }

  /**
   Two POSTs within the same clock reading collide: the second record
   replaces the first, and the store gains one entry, not two.
   */
  lemma SameClockOverwrites<F>(s: Store<F>, first: Record<F>, second: Record<F>, clock: int64)
    ensures
      var id := IdFor(clock);
      var once := Post(s, Decoded(first), clock).store;
      var twice := Post(once, Decoded(second), clock).store;
      && |twice| == |once|
      && twice[id] == Record(id, second.fields)
      && twice.Keys == s.Keys + {id}
  {
  }

  /** The ids generated from a run of clock readings. */
  ghost function IdsOf(clocks: seq<int64>): set<string>
  {
    set i | 0 <= i < |clocks| :: IdFor(clocks[i])
  }

  /** The store after a run of successful POSTs, one per clock reading. */
  function PostAll<F>(s: Store<F>, recs: seq<Record<F>>, clocks: seq<int64>): Store<F>
    requires |recs| == |clocks|
    decreases |recs|
  {
    if |recs| == 0 then s
    else PostAll(Post(s, Decoded(recs[0]), clocks[0]).store, recs[1..], clocks[1..])
  }

  /**
   No record is lost when the clock readings are pairwise distinct and
   none of their ids is already taken: the store grows by one entry per
   POST, each posted record is found under its id, and the earlier
   entries are kept.
   */
  lemma {:induction false} DistinctClocksKeepEveryRecord<F>(s: Store<F>, recs: seq<Record<F>>, clocks: seq<int64>)
    requires |recs| == |clocks|
    requires Distinct(clocks)
    requires forall i :: 0 <= i < |clocks| ==> IdFor(clocks[i]) !in s
    ensures |PostAll(s, recs, clocks)| == |s| + |recs|
    ensures forall i :: 0 <= i < |recs| ==>
      var id := IdFor(clocks[i]);
      id in PostAll(s, recs, clocks) && PostAll(s, recs, clocks)[id] == Record(id, recs[i].fields)
    ensures forall k :: k in s && k !in IdsOf(clocks) ==> k in PostAll(s, recs, clocks) && PostAll(s, recs, clocks)[k] == s[k]
    decreases |recs|
  {
    if |recs| > 0 {
      var id0 := IdFor(clocks[0]);
      var s1 := Post(s, Decoded(recs[0]), clocks[0]).store;
      var tailRecs, tailClocks := recs[1..], clocks[1..];
      forall i | 0 <= i < |tailClocks|
        ensures IdFor(tailClocks[i]) !in s1
      {
        assert tailClocks[i] == clocks[i + 1];
        IdsCollideIffClocksEqual(clocks[0], clocks[i + 1]);
      }
      assert Distinct(tailClocks) by {
        forall i, j | 0 <= i < j < |tailClocks|
          ensures tailClocks[i] != tailClocks[j]
        {
          assert tailClocks[i] == clocks[i + 1] && tailClocks[j] == clocks[j + 1];
        }
      }
      DistinctClocksKeepEveryRecord(s1, tailRecs, tailClocks);
      var result := PostAll(s, recs, clocks);
      assert result == PostAll(s1, tailRecs, tailClocks);
      assert id0 !in IdsOf(tailClocks);
      forall i | 0 <= i < |recs|
        ensures IdFor(clocks[i]) in result && result[IdFor(clocks[i])] == Record(IdFor(clocks[i]), recs[i].fields)
      {
        if i > 0 {
          assert tailClocks[i - 1] == clocks[i] && tailRecs[i - 1] == recs[i];
        }
      }
      forall k | k in s && k !in IdsOf(clocks)
        ensures k in result && result[k] == s[k]
      {
        assert k != id0 by {
          assert IdFor(clocks[0]) in IdsOf(clocks);
        }
        assert k !in IdsOf(tailClocks);
      }
    }
  }
}
