/**
 * The a1a training script: its optional-argument shifting, the checks in
 * front of a request, and the URL and body of a training request. The file
 * reader and `resHandler` are the same code as in the evaluation script
 * (`LibSvmText.ParseDataset`, `Http.ResHandler`).
 */
module A1aScript {
  import opened Js

  const Url := "http://localhost:8080/v1/ml/test_a1a"
  /** `[URL, 'train'].join('/')`. */
  const TrainUrl := Url + "/train"
  const BadDatasetMessage := "Expecting dataset to be array of data rows"
  const BadRowMessage := "Expecting row to look like: [ [f1,f2,...,fn], cls ]"

  /**
   * `if (_.isFunction(query)) { callback = query; query = undefined; }`:
   * a function in the query position is the callback, and there is then no
   * query. Afterwards the query is never a function.
   */
  method ShiftOptionalQuery(query: JsValue, callback: JsValue) returns (q: JsValue, cb: JsValue)
    ensures !IsFunction(q)
    ensures IsFunction(query) ==> q == Undefined && cb == query
    ensures !IsFunction(query) ==> q == query && cb == callback
  {
    q, cb := query, callback;
    if IsFunction(q) {
      cb := q;
      q := Undefined;
    }
  }

  /** What `train` does with its arguments. */
  datatype TrainOutcome =
    | TrainRejected(callback: JsValue, err: JsValue)
    | TrainDispatched(callback: JsValue, rows: seq<JsValue>)

  /**
   * `train(dataset, [query], callback)`: a non-array dataset is answered
   * with an error; otherwise every row is handed to `trainRow` on its own.
   * The query is not passed on: `trainRow` is called as `trainRow(row, cb)`,
   * so each row is sent without it.
   */
  method Train(dataset: JsValue, query: JsValue, callback: JsValue) returns (outcome: TrainOutcome)
    ensures var cb := if IsFunction(query) then query else callback;
      && (!dataset.Arr? ==> outcome == TrainRejected(cb, ErrorObj(BadDatasetMessage)))
      && (dataset.Arr? ==> outcome == TrainDispatched(cb, dataset.items))
  {
    var q, cb := ShiftOptionalQuery(query, callback);
    if !IsArray(dataset) {
      return TrainRejected(cb, ErrorObj(BadDatasetMessage));
    }
    outcome := TrainDispatched(cb, dataset.items);
  }

  /** The body of a training request: `_.extend({}, query, {features: row[0]})`. */
  function RequestBody(query: JsValue, features: JsValue): seq<Prop> {
    Extend([], [query, Obj([Prop("features", features)])])
  }

  /**
   * The body holds the query's fields and `features`, which overrides any
   * `features` field of the query; its names are distinct.
   */
  lemma RequestBodyFields(query: JsValue, features: JsValue)
    ensures var body := RequestBody(query, features);
      && Lookup(body, "features") == features
      && UniqueKeys(body)
      && (forall k :: k != "features" ==> Lookup(body, k) == LastValue(OwnProps(query), k, Undefined))
      && (query.Obj? && UniqueKeys(query.props) ==>
            forall k :: k != "features" ==> Lookup(body, k) == Lookup(query.props, k))
  {
    var base := AssignAll([], OwnProps(query));
    var fp := [Prop("features", features)];
    assert OwnProps(Obj(fp)) == fp;
    var sources := [query, Obj(fp)];
    assert sources[1..] == [Obj(fp)] && sources[1..][1..] == [];
    assert Extend([], sources) == Extend(base, [Obj(fp)]);
    assert Extend(base, [Obj(fp)]) == Extend(AssignAll(base, fp), []);
    assert RequestBody(query, features) == AssignAll(base, fp);
    assert UniqueKeys([]) by { assert KeyNames([]) == []; }
    if query.Obj? && UniqueKeys(query.props) {
      forall k | k != "features" ensures Lookup(RequestBody(query, features), k) == Lookup(query.props, k) {
        LastValueUnique(query.props, k, Undefined);
      }
    }
  }

  /** What `trainRow` does with a row. */
  datatype RowRequest =
    | RowRejected(callback: JsValue, err: JsValue)
    | RowPosted(callback: JsValue, url: string, body: seq<Prop>)

  /**
   * `trainRow(row, [query], callback)`: after the shift, a row that is not
   * an array of exactly two elements is answered with an error; otherwise
   * the body is posted to `TRAIN_URL + '/' + row[1]` (`row[1]` as `join`
   * renders it).
   */
  method TrainRow(row: JsValue, query: JsValue, callback: JsValue) returns (request: RowRequest)
    ensures var q := if IsFunction(query) then Undefined else query;
      var cb := if IsFunction(query) then query else callback;
      && (!(row.Arr? && |row.items| == 2) ==> request == RowRejected(cb, ErrorObj(BadRowMessage)))
      && (row.Arr? && |row.items| == 2 ==>
            request == RowPosted(cb, TrainUrl + "/" + JoinPiece(row.items[1]), RequestBody(q, row.items[0])))
  {
    var q, cb := ShiftOptionalQuery(query, callback);
    if !IsArray(row) || Size(row) != 2 {
      return RowRejected(cb, ErrorObj(BadRowMessage));
    }
    var segments := [Str(TrainUrl), At(row, 1)];
    assert segments[1..] == [At(row, 1)];
    assert JoinValues([At(row, 1)], "/") == JoinPiece(At(row, 1));
    assert JoinPiece(Str(TrainUrl)) == TrainUrl;
    var url := JoinValues(segments, "/");
    request := RowPosted(cb, url, RequestBody(q, At(row, 0)));
  }
}
