/**
 * The namespaced feature dictionary in front of the node-svm classifier.
 *
 * For each namespace the dictionary keeps the class labels seen so far (in
 * first-seen order), the feature values seen so far, and the training rows,
 * each a vector of feature indices with a class index. `Train` validates its
 * arguments, merges the label and the features into the namespace, turns the
 * observation into an index row and upserts it; `Classify` and `Dump` only
 * read the dictionary.
 */
module Svm {
  import opened Js
  import opened Utils

  /** One training row: `[featureIdxVector, classIdx]`. */
  datatype Row = Row(featureIdxs: seq<int>, classIdx: int)

  /** The record kept per namespace. */
  datatype NamespaceDict = NamespaceDict(classifications: seq<string>, features: seq<JsValue>, rows: seq<Row>)

  /** A row mapped back to values: `[featureValues, classification]`. */
  datatype LabeledRow = LabeledRow(features: seq<JsValue>, classification: JsValue)

  /**
   * The arguments the adapter's callback receives: an Error with its message
   * (None for null), and the result (None when none or null is passed).
   */
  datatype Reply<T> = Reply(err: Option<string>, res: Option<T>)

  /** What node-svm's `predict` does with an index row: settle on a class id, or throw. */
  datatype Prediction = Predicted(classId: int) | PredictThrew

  const BadArgsMessage := "Bad args"
  const NotTrainedMessage := "Namespace not trained yet"
  const ClassifyProblemMessage := "Problem classifying features"
  /** The TypeError `dump` catches when the namespace has no dictionary. */
  const NoDictionaryMessage := "Cannot read property 'rows' of undefined"

  /** The record a namespace starts from on its first training. */
  const FreshDict := NamespaceDict([], [], [])

  // ---------------------------------------------------------------------------
  // create
  // ---------------------------------------------------------------------------

  /**
   * `create(options)`: always a classifier object exposing `train` and
   * `predict`; options that are not a non-empty plain object are replaced by
   * `{}` (node-svm then uses its own defaults).
   */
  function Create(options: JsValue): (svm: JsValue)
    ensures IsObject(svm) && IsFunction(Get(svm, "train")) && IsFunction(Get(svm, "predict"))
    ensures IsNonEmptyObject(options) ==> svm == Svm(options)
    ensures !IsNonEmptyObject(options) ==> svm == Svm(Obj([]))
  {
    Svm(if IsNonEmptyObject(options) then options else Obj([]))
  }

  // ---------------------------------------------------------------------------
  // Argument checks
  // ---------------------------------------------------------------------------

  /** The `badSvm` test: the classifier must be an object with a `train` function. */
  predicate HasTrainFunction(svm: JsValue) {
    IsObject(svm) && IsFunction(Get(svm, "train"))
  }

  /** What `train` accepts: a classifier, a non-empty label, and non-empty object or array features. */
  predicate TrainArgsOk(svm: JsValue, classification: JsValue, features: JsValue) {
    HasTrainFunction(svm) && IsNonEmptyString(classification)
    && (IsNonEmptyObject(features) || IsNonEmptyArray(features))
  }

  // ---------------------------------------------------------------------------
  // Index lookups
  // ---------------------------------------------------------------------------

  /** `k` is where `_.indexOf(s, x)` finds `x`: its first position, or -1 when absent. */
  predicate IsFirstIndex<T(==)>(s: seq<T>, x: T, k: int) {
    (k == -1 && x !in s) || (0 <= k < |s| && s[k] == x && x !in s[..k])
  }

  /** `indexedClassification`: the position of the label in the namespace's classifications, or -1. */
  function IndexedClassification(d: NamespaceDict, classification: string): (k: int)
    ensures IsFirstIndex(d.classifications, classification, k)
  {
    IndexOf(d.classifications, classification)
  }

  /**
   * `indexedFeaturesRow`: one index per value `_.map` visits in `features`
   * (the elements of an array, the VALUES of an object, or `obj[0]` onwards
   * for an object with an array `length`), in the same order;
   * each is the first position of that value among the known features, or -1.
   */
  function IndexedFeaturesRow(d: NamespaceDict, features: JsValue): (r: seq<int>)
    ensures |r| == |MapValues(features)|
    ensures forall i :: 0 <= i < |r| ==> IsFirstIndex(d.features, MapValues(features)[i], r[i])
  {
    var vals := MapValues(features);
    seq(|vals|, i requires 0 <= i < |vals| => IndexOf(d.features, vals[i]))
  }

  /**
   * The values `train` adds to the feature list: the elements of an array,
   * but the KEYS of an object (so object features are indexed by keys and
   * looked up by values).
   */
  function FeatureVals(features: JsValue): (r: seq<JsValue>)
    ensures features.Arr? ==> r == features.items
    ensures features.Obj? ==> r == Keys(features.props)
  {
    match features
    case Arr(items) => items
    case Obj(props) => Keys(props)
    case _ => []
  }

  // ---------------------------------------------------------------------------
  // upsertRow
  // ---------------------------------------------------------------------------

  /** No two rows share a feature vector. */
  predicate DistinctVectors(rows: seq<Row>) {
    forall i, j :: 0 <= i < j < |rows| ==> rows[i].featureIdxs != rows[j].featureIdxs
  }

  /** `_.findIndex` of the first row whose feature vector deep-equals `v`, or -1. */
  function FindRow(rows: seq<Row>, v: seq<int>): (k: int)
    ensures -1 <= k < |rows|
    ensures k == -1 ==> forall i :: 0 <= i < |rows| ==> rows[i].featureIdxs != v
    ensures 0 <= k ==> rows[k].featureIdxs == v && forall i :: 0 <= i < k ==> rows[i].featureIdxs != v
  {
    if |rows| == 0 then -1
    else if rows[0].featureIdxs == v then 0
    else
      var k := FindRow(rows[1..], v);
      if k < 0 then -1 else k + 1
  }

  /**
   * `upsertRow`: when a row with the same feature vector exists, the first
   * such row takes the new class and nothing else changes; otherwise the new
   * row is appended.
   */
  function UpsertRow(rows: seq<Row>, row: Row): (r: seq<Row>)
    ensures (forall i :: 0 <= i < |rows| ==> rows[i].featureIdxs != row.featureIdxs) ==> r == rows + [row]
    ensures forall k ::
              (&& 0 <= k < |rows| && rows[k].featureIdxs == row.featureIdxs
               && (forall i :: 0 <= i < k ==> rows[i].featureIdxs != row.featureIdxs)) ==>
              && |r| == |rows|
              && r[k] == Row(rows[k].featureIdxs, row.classIdx)
              && (forall i :: 0 <= i < |rows| && i != k ==> r[i] == rows[i])
  {
    var k := FindRow(rows, row.featureIdxs);
    if k < 0 then rows + [row]
    else rows[k := Row(rows[k].featureIdxs, row.classIdx)]
  }

  /** Upserting keeps the feature vectors distinct. */
  lemma UpsertKeepsVectorsDistinct(rows: seq<Row>, row: Row)
    requires DistinctVectors(rows)
    ensures DistinctVectors(UpsertRow(rows, row))
  {
    var k := FindRow(rows, row.featureIdxs);
    var r := UpsertRow(rows, row);
    if k >= 0 {
      forall i, j | 0 <= i < j < |r| ensures r[i].featureIdxs != r[j].featureIdxs {
        assert r[i].featureIdxs == rows[i].featureIdxs && r[j].featureIdxs == rows[j].featureIdxs;
      }
    }
  }

  /**
   * After an upsert the new row's vector is found, with the new class (last
   * write wins), and the table grew by at most one row.
   */
  lemma UpsertStoresClass(rows: seq<Row>, row: Row)
    ensures var r := UpsertRow(rows, row);
      var k := FindRow(r, row.featureIdxs);
      && 0 <= k && r[k].classIdx == row.classIdx
      && (|r| == |rows| || |r| == |rows| + 1)
  {
    var k := FindRow(rows, row.featureIdxs);
    var r := UpsertRow(rows, row);
    if k < 0 {
      assert r[|rows|] == row;
      assert FindRow(r, row.featureIdxs) == |rows| by {
        assert forall i :: 0 <= i < |rows| ==> r[i] == rows[i];
        var f := FindRow(r, row.featureIdxs);
        assert f >= 0 by { assert r[|rows|].featureIdxs == row.featureIdxs; }
      }
    } else {
      assert FindRow(r, row.featureIdxs) == k by {
        var f := FindRow(r, row.featureIdxs);
        assert r[k].featureIdxs == row.featureIdxs;
        assert forall i :: 0 <= i < k ==> r[i] == rows[i];
      }
    }
  }

  // ---------------------------------------------------------------------------
  // stringifyDataset
  // ---------------------------------------------------------------------------

  /** `features[i]` in JavaScript: undefined outside the list (also for -1). */
  function FeatureAt(features: seq<JsValue>, i: int): JsValue {
    if 0 <= i < |features| then features[i] else Undefined
  }

  /** `classifications[i]` in JavaScript. */
  function ClassAt(classifications: seq<string>, i: int): JsValue {
    if 0 <= i < |classifications| then Str(classifications[i]) else Undefined
  }

  /** `stringifyDataset`: every row's indices mapped back to the namespace's values. */
  function StringifyDataset(d: NamespaceDict, dataset: seq<Row>): (r: seq<LabeledRow>)
    ensures |r| == |dataset|
    ensures forall i :: 0 <= i < |dataset| ==>
              && r[i].classification == ClassAt(d.classifications, dataset[i].classIdx)
              && |r[i].features| == |dataset[i].featureIdxs|
              && (forall j :: 0 <= j < |dataset[i].featureIdxs| ==>
                    r[i].features[j] == FeatureAt(d.features, dataset[i].featureIdxs[j]))
  {
    seq(|dataset|, i requires 0 <= i < |dataset| =>
      var fi := dataset[i].featureIdxs;
      LabeledRow(seq(|fi|, j requires 0 <= j < |fi| => FeatureAt(d.features, fi[j])),
                 ClassAt(d.classifications, dataset[i].classIdx)))
  }

  /**
   * Stringifying an index row inverts the indexing: every known value comes
   * back as itself, and every unknown one as undefined.
   */
  lemma StringifyInvertsIndexing(d: NamespaceDict, features: JsValue, classIdx: int)
    ensures var vals := MapValues(features);
      var back := StringifyDataset(d, [Row(IndexedFeaturesRow(d, features), classIdx)])[0];
      && |back.features| == |vals|
      && (forall j :: 0 <= j < |vals| ==>
            back.features[j] == (if vals[j] in d.features then vals[j] else Undefined))
  {
    var vals := MapValues(features);
    var idxs := IndexedFeaturesRow(d, features);
    var back := StringifyDataset(d, [Row(idxs, classIdx)])[0];
    forall j | 0 <= j < |vals|
      ensures back.features[j] == (if vals[j] in d.features then vals[j] else Undefined)
    {
      assert IsFirstIndex(d.features, vals[j], idxs[j]);
    }
  }

  /**
   * Indexing a stringified row gives its indices back, when the features
   * list has no duplicates and every index is valid.
   */
  lemma IndexingInvertsStringify(d: NamespaceDict, row: Row)
    requires NoDups(d.features)
    requires forall j :: 0 <= j < |row.featureIdxs| ==> 0 <= row.featureIdxs[j] < |d.features|
    ensures IndexedFeaturesRow(d, Arr(StringifyDataset(d, [row])[0].features)) == row.featureIdxs
  {
    var back := StringifyDataset(d, [row])[0].features;
    var r := IndexedFeaturesRow(d, Arr(back));
    forall j | 0 <= j < |r| ensures r[j] == row.featureIdxs[j] {
      var k := row.featureIdxs[j];
      assert back[j] == d.features[k];
      assert IsFirstIndex(d.features, back[j], r[j]);
      assert back[j] in d.features;
      assert 0 <= r[j] < |d.features| && d.features[r[j]] == d.features[k];
    }
  }

  // ---------------------------------------------------------------------------
  // train, as a function of the namespace's record
  // ---------------------------------------------------------------------------

  /** Every row's class index names a label; every feature index is -1 or names a value. */
  predicate RowInRange(d: NamespaceDict, row: Row) {
    && 0 <= row.classIdx < |d.classifications|
    && forall j :: 0 <= j < |row.featureIdxs| ==> -1 <= row.featureIdxs[j] < |d.features|
  }

  /** The invariant `train` keeps for every namespace. */
  predicate DictValid(d: NamespaceDict) {
    && NoDups(d.classifications) && NoDups(d.features) && DistinctVectors(d.rows)
    && forall i :: 0 <= i < |d.rows| ==> RowInRange(d, d.rows[i])
  }

  /** The record after the dictionary update of `train`: label and features merged in. */
  function Merged(d: NamespaceDict, classification: string, features: JsValue): (m: NamespaceDict)
    ensures m.rows == d.rows
    ensures NoDups(m.classifications) && NoDups(m.features)
    ensures classification in m.classifications
    ensures forall i :: 0 <= i < |m.classifications| ==> m.classifications[i] in d.classifications || m.classifications[i] == classification
    ensures forall v :: v in m.features <==> v in d.features || v in FeatureVals(features)
  {
    assert [classification][0] == classification;
    d.(classifications := Union(d.classifications, [classification]),
       features := Union(d.features, FeatureVals(features)))
  }

  /** The normalized row `train` builds: `[featuresIdxs, classIdx]` against the merged record. */
  function NewRow(d: NamespaceDict, classification: string, features: JsValue): (r: Row)
    ensures |r.featureIdxs| == |MapValues(features)|
    ensures forall j :: 0 <= j < |r.featureIdxs| ==>
      (r.featureIdxs[j] == -1 <==> MapValues(features)[j] !in d.features && MapValues(features)[j] !in FeatureVals(features))
    ensures 0 <= r.classIdx
  {
    var m := Merged(d, classification, features);
    Row(IndexedFeaturesRow(m, features), IndexedClassification(m, classification))
  }

  /** The record `train` stores for the namespace. */
  function Trained(d: NamespaceDict, classification: string, features: JsValue): (t: NamespaceDict)
    ensures t.classifications == Merged(d, classification, features).classifications
    ensures t.features == Merged(d, classification, features).features
    ensures |t.rows| == |d.rows| || |t.rows| == |d.rows| + 1
    ensures DistinctVectors(d.rows) ==> DistinctVectors(t.rows)
  {
    var m := Merged(d, classification, features);
    var row := NewRow(d, classification, features);
    UpsertStoresClass(m.rows, row);
    if DistinctVectors(m.rows) then
      UpsertKeepsVectorsDistinct(m.rows, row);
      m.(rows := UpsertRow(m.rows, row))
    else m.(rows := UpsertRow(m.rows, row))
  }

  /**
   * Object features are merged by their keys but indexed by their values:
   * values that are not strings and not yet known all get index -1. An
   * object with an array `length` is read as `obj[0]` to `obj[length - 1]`,
   * where a missing entry is `undefined`, which is indexed only when it is
   * already a known feature.
   */
  lemma ObjectValuesUnindexed(d: NamespaceDict, classification: string, props: seq<Prop>)
    requires forall i :: 0 <= i < |props| ==> !props[i].val.Str? && props[i].val !in d.features
    ensures var row := NewRow(d, classification, Obj(props));
      && |row.featureIdxs| == Size(Obj(props))
      && forall j :: 0 <= j < |row.featureIdxs| ==>
           (row.featureIdxs[j] == -1 <==>
              !(HasArrayLength(props) && MapValues(Obj(props))[j] == Undefined && Undefined in d.features))
  {
    var row := NewRow(d, classification, Obj(props));
    var vals := MapValues(Obj(props));
    forall j | 0 <= j < |row.featureIdxs|
      ensures row.featureIdxs[j] == -1 <==>
              !(HasArrayLength(props) && vals[j] == Undefined && Undefined in d.features)
    {
      if HasArrayLength(props) {
        assert vals[j] == Lookup(props, NatToString(j));
        LookupFromProps(props, NatToString(j));
      } else {
        assert vals[j] == props[j].val;
      }
      ObjectValueUnindexed(d, props, vals[j]);
    }
  }

  /** One visited value of such an object: a known feature only if it is a known `undefined`. */
  lemma ObjectValueUnindexed(d: NamespaceDict, props: seq<Prop>, v: JsValue)
    requires forall i :: 0 <= i < |props| ==> !props[i].val.Str? && props[i].val !in d.features
    requires v == Undefined || exists i :: 0 <= i < |props| && v == props[i].val
    ensures (v in d.features || v in Keys(props)) <==> v == Undefined && Undefined in d.features
  {
    assert !v.Str?;
  }

  /**
   * The classifications and features after training are order-preserving
   * unions: old entries keep their positions, new ones are added, nothing
   * is duplicated.
   */
  lemma TrainedMergesInOrder(d: NamespaceDict, classification: string, features: JsValue)
    requires DictValid(d)
    ensures var t := Trained(d, classification, features);
      && NoDups(t.classifications) && NoDups(t.features)
      && |t.classifications| >= |d.classifications| && t.classifications[..|d.classifications|] == d.classifications
      && |t.features| >= |d.features| && t.features[..|d.features|] == d.features
      && (forall c :: c in t.classifications <==> c in d.classifications || c == classification)
      && (forall v :: v in t.features <==> v in d.features || v in FeatureVals(features))
  {
    UnionSpec(d.classifications, [classification]);
    UnionSpec(d.features, FeatureVals(features));
  }

  /** A new label goes to the end of the classifications; a known one changes nothing. */
  lemma TrainedAppendsLabel(d: NamespaceDict, classification: string, features: JsValue)
    requires DictValid(d)
    ensures Trained(d, classification, features).classifications ==
      if classification in d.classifications then d.classifications
      else d.classifications + [classification]
  {
    UnionNone(d.classifications);
    UnionAppend(d.classifications, [], classification);
    assert [] + [classification] == [classification];
  }

  /** The new row's class index names the trained label. */
  lemma TrainedClassIndex(d: NamespaceDict, classification: string, features: JsValue)
    requires DictValid(d)
    ensures var t := Trained(d, classification, features);
      var k := NewRow(d, classification, features).classIdx;
      0 <= k < |t.classifications| && t.classifications[k] == classification
  {
    UnionSpec(d.classifications, [classification]);
  }

  /**
   * For array features every index of the new row is valid, and the row
   * maps back to exactly the given features and label.
   */
  lemma TrainedArrayRoundTrip(d: NamespaceDict, classification: string, features: JsValue)
    requires DictValid(d) && features.Arr?
    ensures var t := Trained(d, classification, features);
      var row := NewRow(d, classification, features);
      && (forall j :: 0 <= j < |row.featureIdxs| ==> 0 <= row.featureIdxs[j] < |t.features|)
      && StringifyDataset(t, [row]) == [LabeledRow(features.items, Str(classification))]
  {
    var t := Trained(d, classification, features);
    var row := NewRow(d, classification, features);
    UnionSpec(d.features, features.items);
    TrainedClassIndex(d, classification, features);
    StringifyInvertsIndexing(t, features, row.classIdx);
    var back := StringifyDataset(t, [row])[0];
    assert back.features == features.items;
  }

  /** Training keeps the namespace invariant. */
  lemma TrainedValid(d: NamespaceDict, classification: string, features: JsValue)
    requires DictValid(d)
    ensures DictValid(Trained(d, classification, features))
  {
    var m := Merged(d, classification, features);
    var row := NewRow(d, classification, features);
    var t := Trained(d, classification, features);
    TrainedMergesInOrder(d, classification, features);
    TrainedClassIndex(d, classification, features);
    UpsertKeepsVectorsDistinct(m.rows, row);
    assert RowInRange(m, row);
    forall i | 0 <= i < |t.rows| ensures RowInRange(t, t.rows[i]) {
      if i < |m.rows| {
        assert RowInRange(m, m.rows[i]);
        if t.rows[i] != m.rows[i] {
          assert t.rows[i] == Row(m.rows[i].featureIdxs, row.classIdx);
        }
      } else {
        assert t.rows[i] == row;
      }
    }
  }

  /**
   * After training, the trained features are found among the rows with the
   * trained label's index.
   */
  lemma TrainedStoresLabel(d: NamespaceDict, classification: string, features: JsValue)
    requires DictValid(d)
    ensures var t := Trained(d, classification, features);
      var k := FindRow(t.rows, IndexedFeaturesRow(t, features));
      0 <= k && ClassAt(t.classifications, t.rows[k].classIdx) == Str(classification)
  {
    var m := Merged(d, classification, features);
    UpsertStoresClass(m.rows, NewRow(d, classification, features));
    TrainedClassIndex(d, classification, features);
  }

  /**
   * Training the same features again with another label relabels the
   * existing row: the number of rows and the feature list do not change.
   */
  lemma RetrainRelabels(d: NamespaceDict, first: string, second: string, features: JsValue)
    requires DictValid(d)
    ensures var t1 := Trained(d, first, features);
      var t2 := Trained(t1, second, features);
      && |t2.rows| == |t1.rows|
      && t2.features == t1.features
  {
    var t1 := Trained(d, first, features);
    TrainedValid(d, first, features);
    UnionSpec(d.features, FeatureVals(features));
    UnionIdempotent(d.features, FeatureVals(features));
    var m2 := Merged(t1, second, features);
    assert m2.features == t1.features;
    var row2 := NewRow(t1, second, features);
    assert row2.featureIdxs == IndexedFeaturesRow(t1, features);
    UpsertStoresClass(Merged(d, first, features).rows, NewRow(d, first, features));
    assert FindRow(m2.rows, row2.featureIdxs) >= 0;
  }

  // ---------------------------------------------------------------------------
  // The in-memory store
  // ---------------------------------------------------------------------------

  /** The module-level `FeatureDictionary`: namespace name to record, in memory only. */
  class FeatureDictionary {
    var namespaces: map<string, NamespaceDict>

    ghost predicate Valid()
      reads this
    {
      forall ns :: ns in namespaces ==> DictValid(namespaces[ns])
    }

    constructor ()
      ensures Valid() && namespaces == map[]
    {
      namespaces := map[];
    }

    /** `FeatureDictionary[namespace] || {...}`: the stored record, or a fresh one. */
    function RecordFor(namespace: string): NamespaceDict
      reads this
    {
      if namespace in namespaces then namespaces[namespace] else FreshDict
    }

    /**
     * `train(svm, namespace, classification, features, callback)`. On bad
     * arguments: the error "Bad args", no result, nothing stored, and the
     * classifier is not trained. Otherwise the namespace's record becomes
     * `Trained(...)` of the old one (other namespaces are untouched), the
     * classifier is handed the whole row table (`trainingSet`), and the reply
     * is the NEW ROW ONLY, mapped back to values; the outcome of the
     * classifier's own training does not change the reply.
     */
    method Train(svm: JsValue, namespace: string, classification: JsValue, features: JsValue)
      returns (reply: Reply<seq<LabeledRow>>, trainingSet: Option<seq<Row>>)
      requires Valid()
      modifies this
      ensures Valid()
      ensures !TrainArgsOk(svm, classification, features) ==>
        && reply == Reply(Some(BadArgsMessage), None)
        && trainingSet == None
        && namespaces == old(namespaces)
      ensures TrainArgsOk(svm, classification, features) ==>
        var before := old(RecordFor(namespace));
        var after := Trained(before, classification.s, features);
        && namespaces == old(namespaces)[namespace := after]
        && trainingSet == Some(after.rows)
        && reply == Reply(None, Some(StringifyDataset(after, [NewRow(before, classification.s, features)])))
      ensures forall other :: other != namespace ==>
        (other in namespaces <==> other in old(namespaces))
        && (other in namespaces ==> namespaces[other] == old(namespaces)[other])
    {
      if !TrainArgsOk(svm, classification, features) {
        reply, trainingSet := Reply(Some(BadArgsMessage), None), None;
        return;
      }
      var cls := classification.s;
      var dict := RecordFor(namespace);
      ghost var before := dict;

      // Update the dictionary
      dict := dict.(classifications := Union(dict.classifications, [cls]));
      var featureVals := FeatureVals(features);
      dict := dict.(features := Union(dict.features, featureVals));

      // Construct a normalized dataset row
      var featuresIdxs := IndexedFeaturesRow(dict, features);
      var classIdx := IndexedClassification(dict, cls);
      var newRow := Row(featuresIdxs, classIdx);
      dict := dict.(rows := UpsertRow(dict.rows, newRow));

      // Preserve the updated dictionary
      namespaces := namespaces[namespace := dict];
      TrainedValid(before, cls, features);

      trainingSet := Some(dict.rows);
      reply := Reply(None, Some(StringifyDataset(dict, [newRow])));
    }

    /**
     * `classify(svm, namespace, features, callback)`, with node-svm's
     * `predict` as the parameter `predict`. A bad classifier or empty
     * features answer null/null; an untrained namespace answers "Namespace
     * not trained yet"; a predictor that throws answers "Problem classifying
     * features"; otherwise the predicted class id is mapped to its label
     * (undefined when the id names no label). Nothing is stored.
     */
    function Classify(svm: JsValue, namespace: string, features: JsValue, predict: seq<int> -> Prediction)
      : (reply: Reply<JsValue>)
      reads this
      ensures !HasTrainFunction(svm) || IsEmpty(features) ==> reply == Reply(None, None)
      ensures HasTrainFunction(svm) && !IsEmpty(features) && namespace !in namespaces ==>
        reply == Reply(Some(NotTrainedMessage), None)
      ensures HasTrainFunction(svm) && !IsEmpty(features) && namespace in namespaces ==>
        var d := namespaces[namespace];
        match predict(IndexedFeaturesRow(d, features))
        case PredictThrew => reply == Reply(Some(ClassifyProblemMessage), None)
        case Predicted(id) =>
          && reply.err == None && reply.res.Some?
          && (0 <= id < |d.classifications| ==> reply.res.value == Str(d.classifications[id]))
          && (id < 0 || |d.classifications| <= id ==> reply.res.value == Undefined)
    {
      if !HasTrainFunction(svm) || IsEmpty(features) then Reply(None, None)
      else if namespace !in namespaces then Reply(Some(NotTrainedMessage), None)
      else
        var d := namespaces[namespace];
        match predict(IndexedFeaturesRow(d, features))
        case PredictThrew => Reply(Some(ClassifyProblemMessage), None)
        case Predicted(id) => Reply(None, Some(ClassAt(d.classifications, id)))
    }

    /**
     * `dump(namespace, callback)`: every stored row mapped back to values,
     * in table order; an unknown namespace answers the TypeError caught
     * while reading its rows.
     */
    function Dump(namespace: string): (reply: Reply<seq<LabeledRow>>)
      reads this
      ensures namespace !in namespaces ==> reply == Reply(Some(NoDictionaryMessage), None)
      ensures namespace in namespaces ==>
        && reply.err == None && reply.res.Some?
        && |reply.res.value| == |namespaces[namespace].rows|
        && forall i :: 0 <= i < |reply.res.value| ==>
             var d, row := namespaces[namespace], namespaces[namespace].rows[i];
             && reply.res.value[i].classification == ClassAt(d.classifications, row.classIdx)
             && |reply.res.value[i].features| == |row.featureIdxs|
             && forall j :: 0 <= j < |row.featureIdxs| ==>
                  reply.res.value[i].features[j] == FeatureAt(d.features, row.featureIdxs[j])
    {
      if namespace !in namespaces then Reply(Some(NoDictionaryMessage), None)
      else
        var d := namespaces[namespace];
        Reply(None, Some(StringifyDataset(d, d.rows)))
    }
  }

  /** A classifier that answers the class stored for an exact training row, and throws otherwise. */
  function Recall(rows: seq<Row>): seq<int> -> Prediction {
    v => var k := FindRow(rows, v); if k < 0 then PredictThrew else Predicted(rows[k].classIdx)
  }

  /**
   * Right after a namespace was trained on `features` with a label, a
   * node-svm classifier that recalls its training rows makes `classify`
   * answer that label for the same features.
   */
  lemma ClassifyAfterTrain(fd: FeatureDictionary, svm: JsValue, namespace: string,
                           d: NamespaceDict, classification: string, features: JsValue)
    requires DictValid(d) && svm.Svm? && |classification| > 0
    requires IsNonEmptyObject(features) || IsNonEmptyArray(features)
    requires namespace in fd.namespaces && fd.namespaces[namespace] == Trained(d, classification, features)
    ensures fd.Classify(svm, namespace, features, Recall(fd.namespaces[namespace].rows))
              == Reply(None, Some(Str(classification)))
  {
    TrainedStoresLabel(d, classification, features);
  }

  /**
   * Right after training with array features, `dump` lists a row that maps
   * back to exactly those features and that label.
   */
  lemma DumpAfterTrain(fd: FeatureDictionary, namespace: string,
                       d: NamespaceDict, classification: string, features: JsValue)
    requires DictValid(d) && features.Arr?
    requires namespace in fd.namespaces && fd.namespaces[namespace] == Trained(d, classification, features)
    ensures fd.Dump(namespace).res.Some?
    ensures LabeledRow(features.items, Str(classification)) in fd.Dump(namespace).res.value
  {
    var t := Trained(d, classification, features);
    var m := Merged(d, classification, features);
    var row := NewRow(d, classification, features);
    TrainedArrayRoundTrip(d, classification, features);
    UpsertStoresClass(m.rows, row);
    var k := FindRow(t.rows, row.featureIdxs);
    assert t.rows[k] == row;
    var dumped := StringifyDataset(t, t.rows);
    assert dumped[k] == StringifyDataset(t, [row])[0];
  }
}
