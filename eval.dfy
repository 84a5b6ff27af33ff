/**
 * The sequential logic of the evaluation script: the dataset and row
 * checks in front of every request, the URLs and bodies it posts, the
 * progress indicator, the confusion-outcome label of a classified row and
 * the tally over all rows, `serializeKeyVal`, and the row filter of the
 * comfort-survey normalization.
 */
module Eval {
  import opened Js
  import opened Utils
  import Text
  import LibSvmText

  const Url := "http://localhost:8080/v1/ml/evalApi"
  const TrainPath := "train"
  const ClassifyPath := "classify"
  const IndoorFeatures := ["INDOOR", "meantempi=70"]
  const BadDatasetMessage := "Expecting dataset to be array of data rows"
  const BadRowMessage := "Expecting row to look like: [ [f1,f2,...,fn], cls ]"
  /** The spinner characters written in front of each request URL. */
  const Indicators := "|/-\\"

  // ---------------------------------------------------------------------------
  // trainDataset / testDataset
  // ---------------------------------------------------------------------------

  /** Whether a dataset callback goes on to send its rows, or answers an error. */
  datatype Gate = Fail(err: JsValue) | Proceed(rows: seq<JsValue>)

  /**
   * The checks `trainDataset` and `testDataset` make on the parsed dataset:
   * a reading error is passed on, a non-array dataset is an error, and an
   * array's rows are sent one by one.
   */
  function DatasetGate(err: JsValue, dataset: JsValue): (g: Gate)
    ensures Truthy(err) ==> g == Fail(err)
    ensures !Truthy(err) && !dataset.Arr? ==> g == Fail(ErrorObj(BadDatasetMessage))
    ensures !Truthy(err) && dataset.Arr? ==> g == Proceed(dataset.items)
  {
    if Truthy(err) then Fail(err)
    else if !IsArray(dataset) then Fail(ErrorObj(BadDatasetMessage))
    else Proceed(dataset.items)
  }

  // ---------------------------------------------------------------------------
  // trainRow / testRow
  // ---------------------------------------------------------------------------

  datatype RowCheck = BadRow | SkipRow | RowOk

  /**
   * The checks `trainRow` and `testRow` share: a suite that is not a
   * non-empty string, or a row whose `_.size` is not 2, is an error; a row
   * whose class `row[1]` is not a non-empty string is skipped.
   */
  function CheckRow(suite: JsValue, row: JsValue): (c: RowCheck)
    ensures c == BadRow <==> !IsNonEmptyString(suite) || Size(row) != 2
    ensures c == SkipRow <==> IsNonEmptyString(suite) && Size(row) == 2 && !IsNonEmptyString(At(row, 1))
    ensures c == RowOk ==> suite.Str? && At(row, 1).Str? && |At(row, 1).s| > 0
  {
    if !IsNonEmptyString(suite) || Size(row) != 2 then BadRow
    else if !IsNonEmptyString(At(row, 1)) then SkipRow
    else RowOk
  }

  /** A parsed line as the dataset row the script sends: `[fts, cls]`. */
  function ExampleRow(e: LibSvmText.Example): JsValue {
    Arr([Arr(seq(|e.features|, i requires 0 <= i < |e.features| => Str(e.features[i]))), Str(e.cls)])
  }

  /**
   * Every line the reader produces passes the row checks under a valid
   * suite; only a line without a class (such as the one after a trailing
   * newline) is skipped, and none is an error.
   */
  lemma ParsedRowsAreAccepted(suite: JsValue, data: string)
    requires IsNonEmptyString(suite)
    ensures forall e :: e in LibSvmText.ParseDataset(data) ==>
              CheckRow(suite, ExampleRow(e)) == (if |e.cls| > 0 then RowOk else SkipRow)
  {
  }

  /** `[URL, suite].join('_')`. */
  function SuiteUrl(suite: string): string {
    Url + "_" + suite
  }

  /** `[[URL, suite].join('_'), TRAIN_PATH, row[1]].join('/')`. */
  function TrainUrl(suite: string, cls: string): (url: string)
    ensures url == SuiteUrl(suite) + "/" + TrainPath + "/" + cls
  {
    var segments := [SuiteUrl(suite), TrainPath, cls];
    assert segments[1..] == [TrainPath, cls] && segments[1..][1..] == [cls];
    assert Text.Join([cls], '/') == cls;
    assert Text.Join([TrainPath, cls], '/') == TrainPath + "/" + cls;
    Text.Join(segments, '/')
  }

  /** `[[URL, suite].join('_'), CLASSIFY_PATH].join('/')`. */
  function ClassifyUrl(suite: string): (url: string)
    ensures url == SuiteUrl(suite) + "/" + ClassifyPath
  {
    var segments := [SuiteUrl(suite), ClassifyPath];
    assert segments[1..] == [ClassifyPath];
    assert Text.Join([ClassifyPath], '/') == ClassifyPath;
    Text.Join(segments, '/')
  }

  /** The class of a training request is the last path segment, right after the train path. */
  lemma TrainUrlEndsWithClass(suite: string, cls: string)
    requires '/' !in cls
    ensures var segments := Text.Split(TrainUrl(suite, cls), '/');
      |segments| >= 2 && segments[|segments| - 1] == cls && segments[|segments| - 2] == TrainPath
  {
    assert TrainUrl(suite, cls) == SuiteUrl(suite) + ['/'] + (TrainPath + ['/'] + cls);
    Text.SplitAppend(SuiteUrl(suite), TrainPath + ['/'] + cls, '/');
    Text.SplitAppend(TrainPath, cls, '/');
    Text.SplitNoSeparator(TrainPath, '/');
    Text.SplitNoSeparator(cls, '/');
  }

  /** What a row handler does: answer an error, answer `(null, null)`, or post a body to a URL. */
  datatype RowAction = Reject(err: JsValue) | Skip | Post(url: string, body: JsValue)

  /** The request body of both handlers: `{features: row[0]}`. */
  function FeaturesBody(row: JsValue): (body: JsValue)
    ensures body.Obj? && KeyNames(body.props) == ["features"]
    ensures Get(body, "features") == At(row, 0)
  {
    Obj([Prop("features", At(row, 0))])
  }

  /**
   * The module-level spinner position `ind`, shared by all row handlers: it
   * advances, cyclically over the four indicators, once per request sent.
   */
  class Progress {
    var ind: nat

    ghost predicate Valid()
      reads this
    {
      ind < |Indicators|
    }

    constructor ()
      ensures Valid() && ind == 0
    {
      ind := 0;
    }

    /**
     * `trainRow(suite, row, callback)`: the row checks, then a POST of
     * `{features: row[0]}` to `<URL>_<suite>/train/<class>`. `status` is the
     * progress line written before the request.
     */
    method TrainRow(suite: JsValue, row: JsValue) returns (action: RowAction, status: Option<string>)
      requires Valid()
      modifies this
      ensures Valid()
      ensures CheckRow(suite, row) == BadRow ==>
        action == Reject(ErrorObj(BadRowMessage)) && status == None && ind == old(ind)
      ensures CheckRow(suite, row) == SkipRow ==> action == Skip && status == None && ind == old(ind)
      ensures CheckRow(suite, row) == RowOk ==>
        var url := TrainUrl(suite.s, At(row, 1).s);
        && action == Post(url, FeaturesBody(row))
        && status == Some([Indicators[old(ind)]] + " Train url: " + url + "\r")
        && ind == (old(ind) + 1) % |Indicators|
    {
      var check := CheckRow(suite, row);
      if check == BadRow {
        action, status := Reject(ErrorObj(BadRowMessage)), None;
        return;
      }
      if check == SkipRow {
        action, status := Skip, None;
        return;
      }
      var url := TrainUrl(suite.s, At(row, 1).s);
      status := Some([Indicators[ind]] + " Train url: " + url + "\r");
      ind := (ind + 1) % |Indicators|;
      action := Post(url, FeaturesBody(row));
    }

    /**
     * `testRow(suite, posClass, row, callback)`: the same checks, then a POST
     * of `{features: row[0]}` to `<URL>_<suite>/classify`; the answer is then
     * labelled by `CompareClass`.
     */
    method TestRow(suite: JsValue, row: JsValue) returns (action: RowAction, status: Option<string>)
      requires Valid()
      modifies this
      ensures Valid()
      ensures CheckRow(suite, row) == BadRow ==>
        action == Reject(ErrorObj(BadRowMessage)) && status == None && ind == old(ind)
      ensures CheckRow(suite, row) == SkipRow ==> action == Skip && status == None && ind == old(ind)
      ensures CheckRow(suite, row) == RowOk ==>
        var url := ClassifyUrl(suite.s);
        && action == Post(url, FeaturesBody(row))
        && status == Some([Indicators[old(ind)]] + " Classify url: " + url + "\r")
        && ind == (old(ind) + 1) % |Indicators|
    {
      var check := CheckRow(suite, row);
      if check == BadRow {
        action, status := Reject(ErrorObj(BadRowMessage)), None;
        return;
      }
      if check == SkipRow {
        action, status := Skip, None;
        return;
      }
      var url := ClassifyUrl(suite.s);
      status := Some([Indicators[ind]] + " Classify url: " + url + "\r");
      ind := (ind + 1) % |Indicators|;
      action := Post(url, FeaturesBody(row));
    }
  }

  // ---------------------------------------------------------------------------
  // compareClass and the tally
  // ---------------------------------------------------------------------------

  /** The four confusion outcomes. */
  predicate IsCode(v: JsValue) {
    v == Str("TP") || v == Str("TN") || v == Str("FP") || v == Str("FN")
  }

  /** What a row contributes to the tally: no result, or one of the four outcomes. */
  predicate IsOutcome(v: JsValue) {
    v == Null || IsCode(v)
  }

  /**
   * `compareClass(err, res)` inside `testRow`, for a row whose class is `rowClass`:
   * an error is passed on, an empty answer gives no result, and otherwise the
   * code is 'T' or 'F' for whether the prediction equals the label, followed
   * by 'P' or 'N' for whether it equals the positive class; both comparisons
   * are between the values' string forms.
   */
  function CompareClass(posClass: JsValue, rowClass: string, err: JsValue, res: JsValue): (c: Call)
    requires !posClass.Null? && !posClass.Undefined?
    ensures Truthy(err) ==> c == Call(err, Undefined)
    ensures !Truthy(err) && !Truthy(res) ==> c == Call(Null, Null)
    ensures !Truthy(err) && Truthy(res) ==>
      && c.err == Null && IsCode(c.res)
      && (c.res.s[0] == 'T' <==> ToString(res) == rowClass)
      && (c.res.s[1] == 'P' <==> ToString(res) == ToString(posClass))
  {
    if Truthy(err) then Call(err, Undefined)
    else if !Truthy(res) then Call(Null, Null)
    else
      var correct := ToString(res) == rowClass;
      var predictedPos := ToString(res) == ToString(posClass);
      Call(Null, Str([if correct then 'T' else 'F', if predictedPos then 'P' else 'N']))
  }

  /** `{TP, TN, FP, FN}`, each starting at 0. */
  datatype Tally = Tally(tp: nat, tn: nat, fp: nat, fn: nat)

  /** The integer part of the test report: the number of results and the tally. */
  datatype Summary = Summary(count: nat, raw: Tally)

  /**
   * The counts of `testDataset`: `_.countBy` over the non-null results for
   * each outcome, and `count`, the number of non-null results.
   */
  function Summarize(results: seq<JsValue>): (s: Summary)
    ensures s.count <= |results|
    ensures s.raw == Tally(multiset(results)[Str("TP")], multiset(results)[Str("TN")],
                           multiset(results)[Str("FP")], multiset(results)[Str("FN")])
  {
    var kept := Compact(results);
    var counts := multiset(kept);
    FilterCount(results, Truthy, Str("TP"));
    FilterCount(results, Truthy, Str("TN"));
    FilterCount(results, Truthy, Str("FP"));
    FilterCount(results, Truthy, Str("FN"));
    Summary(|kept|, Tally(counts[Str("TP")], counts[Str("TN")], counts[Str("FP")], counts[Str("FN")]))
  }

  /** Among outcomes, the truthy ones are exactly the four codes. */
  lemma {:induction false} OutcomesCounted(results: seq<JsValue>)
    requires forall i :: 0 <= i < |results| ==> IsOutcome(results[i])
    ensures var m := multiset(results);
      |Compact(results)| == m[Str("TP")] + m[Str("TN")] + m[Str("FP")] + m[Str("FN")]
  {
    if |results| > 0 {
      var x, tail := results[0], results[1..];
      OutcomesCounted(tail);
      assert results == [x] + tail;
      CompactStep(x, tail);
      OutcomeCountsStep(x, tail);
    }
  }

  /** Adding an outcome in front adds one to the four codes' counts exactly when it is truthy. */
  lemma OutcomeCountsStep(x: JsValue, tail: seq<JsValue>)
    requires IsOutcome(x)
    ensures var m, mt := multiset([x] + tail), multiset(tail);
      m[Str("TP")] + m[Str("TN")] + m[Str("FP")] + m[Str("FN")]
      == (if Truthy(x) then 1 else 0) + mt[Str("TP")] + mt[Str("TN")] + mt[Str("FP")] + mt[Str("FN")]
  {
    var m, mt := multiset([x] + tail), multiset(tail);
    assert m == multiset{x} + mt;
    if x == Null {
      assert m[Str("TP")] == mt[Str("TP")] && m[Str("TN")] == mt[Str("TN")];
      assert m[Str("FP")] == mt[Str("FP")] && m[Str("FN")] == mt[Str("FN")];
    }
  }


  /** `_.compact` keeps the first value exactly when it is truthy. */
  lemma CompactStep(x: JsValue, tail: seq<JsValue>)
    ensures |Compact([x] + tail)| == (if Truthy(x) then 1 else 0) + |Compact(tail)|
  {
    assert ([x] + tail)[0] == x && ([x] + tail)[1..] == tail;
  }

  /** When every result is an outcome, `count` is TP + TN + FP + FN. */
  lemma TallyAddsUp(results: seq<JsValue>)
    requires forall i :: 0 <= i < |results| ==> IsOutcome(results[i])
    ensures var s := Summarize(results); s.count == s.raw.tp + s.raw.tn + s.raw.fp + s.raw.fn
  {
    OutcomesCounted(results);
    assert Summarize(results).count == |Compact(results)|;
  }

  /** Every answer `compareClass` gives without an error is an outcome the tally counts. */
  lemma CompareClassGivesOutcome(posClass: JsValue, rowClass: string, err: JsValue, res: JsValue)
    requires !posClass.Null? && !posClass.Undefined?
    requires !Truthy(err)
    ensures IsOutcome(CompareClass(posClass, rowClass, err, res).res)
  {
  }

  // ---------------------------------------------------------------------------
  // normalizeComfortData
  // ---------------------------------------------------------------------------

  /** `serializeKeyVal(glue)(val, key)`: `[key, val].join(glue)`. */
  function SerializeKeyVal(glue: string, val: JsValue, key: string): (r: string)
    ensures r == key + glue + JoinPiece(val)
  {
    var pair := [Str(key), val];
    assert pair[1..] == [val];
    assert JoinValues([val], glue) == JoinPiece(val);
    assert JoinPiece(Str(key)) == key;
    JoinValues(pair, glue)
  }

  /** With glue "=", the key is the text before the first "=" of the feature. */
  lemma SerializedKeyIsRecoverable(val: JsValue, key: string)
    requires '=' !in key
    ensures Text.Before(SerializeKeyVal("=", val, key), '=') == key
  {
    Text.BeforeSeparator(key, JoinPiece(val), '=');
    assert SerializeKeyVal("=", val, key) == key + ['='] + JoinPiece(val);
  }

  /** What becomes of one line of the comfort survey. */
  datatype ComfortPlan =
    | TooShort
    | Indoor(row: seq<string>)
    | Outdoor(cls: string, weatherPath: string, outfit: seq<string>)

  /** `row.split(",").map(x => x.trim())`. */
  function Fields(row: string): (els: seq<string>)
    ensures |els| == |Text.Split(row, ',')|
    ensures forall i :: 0 <= i < |els| ==> els[i] == Text.Trim(Text.Split(row, ',')[i])
  {
    var parts := Text.Split(row, ',');
    seq(|parts|, i requires 0 <= i < |parts| => Text.Trim(parts[i]))
  }

  /**
   * The row filter of `normalizeComfortData`: fewer than three fields give
   * no row (dropped by the final `_.compact`); a weather path mentioning
   * "INDOOR" gives the class, the fixed indoor features and the outfit
   * features; any other row needs its weather file.
   */
  function PlanComfortRow(row: string): (p: ComfortPlan)
    ensures p.TooShort? <==> |Text.Split(row, ',')| < 3
    ensures var els := Fields(row);
      p.Indoor? <==> |els| >= 3 && Text.Contains(els[1], "INDOOR")
    ensures var els := Fields(row);
      p.Indoor? ==> p.row == [els[0]] + IndoorFeatures + els[2..]
    ensures var els := Fields(row);
      p.Outdoor? ==> p.cls == els[0] && p.weatherPath == els[1] && p.outfit == els[2..]
  {
    PlanFields(Fields(row))
  }

  /** The plan for a row already split into trimmed fields. */
  function PlanFields(els: seq<string>): (p: ComfortPlan)
    ensures p.TooShort? <==> |els| < 3
    ensures p.Indoor? ==> |p.row| == |els| + 1 && p.row[0] == els[0] && p.row[1..3] == IndoorFeatures && p.row[3..] == els[2..]
    ensures p.Outdoor? ==> p == Outdoor(els[0], els[1], els[2..]) && !Text.Contains(els[1], "INDOOR")
  {
    if |els| < 3 then TooShort
    else if Text.Contains(els[1], "INDOOR") then Indoor([els[0]] + IndoorFeatures + els[2..])
    else Outdoor(els[0], els[1], els[2..])
  }

  /** A field the survey line can carry as is: no comma, no surrounding white space. */
  predicate PlainField(x: string) {
    ',' !in x && (|x| == 0 || (!Text.IsJsWhitespace(x[0]) && !Text.IsJsWhitespace(x[|x| - 1])))
  }

  /** White space only, such as the blank after the comma of a `", "` separator. */
  predicate Blank(pad: string) {
    forall i :: 0 <= i < |pad| ==> Text.IsJsWhitespace(pad[i])
  }

  /** The pieces of a survey line: each field after its leading white space. */
  function PaddedFields(pads: seq<string>, fields: seq<string>): (pieces: seq<string>)
    requires |pads| == |fields|
    ensures |pieces| == |fields|
    ensures forall i :: 0 <= i < |fields| ==> pieces[i] == pads[i] + fields[i]
  {
    seq(|fields|, i requires 0 <= i < |fields| => pads[i] + fields[i])
  }

  /**
   * The fields of a line written from plain fields, each after some white
   * space (none, or the blank of `", "`), are those fields.
   */
  lemma FieldsOfJoin(pads: seq<string>, fields: seq<string>)
    requires |fields| >= 1 && |pads| == |fields|
    requires forall i :: 0 <= i < |fields| ==> PlainField(fields[i]) && Blank(pads[i])
    ensures Fields(Text.Join(PaddedFields(pads, fields), ',')) == fields
  {
    var pieces := PaddedFields(pads, fields);
    forall i | 0 <= i < |pieces| ensures ',' !in pieces[i] {
      forall k | 0 <= k < |pieces[i]| ensures pieces[i][k] != ',' {
        if k < |pads[i]| {
          assert Text.IsJsWhitespace(pads[i][k]);
        } else {
          assert pieces[i][k] == fields[i][k - |pads[i]|];
        }
      }
    }
    Text.SplitJoin(pieces, ',');
    forall i | 0 <= i < |fields| ensures Text.Trim(pieces[i]) == fields[i] {
      Text.TrimLeadingSpace(pads[i], fields[i]);
    }
  }

  /** The plan of such a line is the plan of its fields. */
  lemma PlanOfJoin(pads: seq<string>, fields: seq<string>)
    requires |fields| >= 1 && |pads| == |fields|
    requires forall i :: 0 <= i < |fields| ==> PlainField(fields[i]) && Blank(pads[i])
    ensures PlanComfortRow(Text.Join(PaddedFields(pads, fields), ',')) == PlanFields(fields)
  {
    FieldsOfJoin(pads, fields);
  }

  /**
   * A survey line written from its fields, with or without a blank after
   * each comma, is planned from exactly those fields.
   */
  lemma PlanComfortRowOfFields(pads: seq<string>, cls: string, weatherPath: string, outfit: seq<string>)
    requires |outfit| >= 1 && |pads| == |outfit| + 2
    requires forall i :: 0 <= i < |pads| ==> Blank(pads[i])
    requires PlainField(cls) && PlainField(weatherPath)
    requires forall i :: 0 <= i < |outfit| ==> PlainField(outfit[i])
    ensures PlanComfortRow(Text.Join(PaddedFields(pads, [cls, weatherPath] + outfit), ',')) ==
      if Text.Contains(weatherPath, "INDOOR") then Indoor([cls] + IndoorFeatures + outfit)
      else Outdoor(cls, weatherPath, outfit)
  {
    PlainFieldsOfRow(cls, weatherPath, outfit);
    PlanOfJoin(pads, [cls, weatherPath] + outfit);
    PlanFieldsOfParts(cls, weatherPath, outfit);
  }

  /** A survey line's fields are plain when each part is. */
  lemma PlainFieldsOfRow(cls: string, weatherPath: string, outfit: seq<string>)
    requires PlainField(cls) && PlainField(weatherPath)
    requires forall i :: 0 <= i < |outfit| ==> PlainField(outfit[i])
    ensures forall i :: 0 <= i < |[cls, weatherPath] + outfit| ==> PlainField(([cls, weatherPath] + outfit)[i])
  {
    var fields := [cls, weatherPath] + outfit;
    forall i | 0 <= i < |fields| ensures PlainField(fields[i]) {
      if i >= 2 { assert fields[i] == outfit[i - 2]; }
    }
  }

  /** The plan of the fields `cls, weatherPath, outfit...`. */
  lemma PlanFieldsOfParts(cls: string, weatherPath: string, outfit: seq<string>)
    requires |outfit| >= 1
    ensures PlanFields([cls, weatherPath] + outfit) ==
      if Text.Contains(weatherPath, "INDOOR") then Indoor([cls] + IndoorFeatures + outfit)
      else Outdoor(cls, weatherPath, outfit)
  {
    var fields := [cls, weatherPath] + outfit;
    assert fields[0] == cls && fields[1] == weatherPath && fields[2..] == outfit;
  }
}
