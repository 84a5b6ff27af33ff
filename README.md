# GearSmarts core, modelled in Dafny

GearSmarts is a small Node.js service that learns which clothing suits the
weather. The heart of it is the **namespaced feature dictionary** in front of
the node-svm classifier (`lib/machineLearning/svm.js`). For every namespace it
keeps three lists:

- the class labels seen so far, in first-seen order;
- the feature values seen so far;
- the training rows, each a vector of feature indices with a class index.

`train` validates its arguments, merges the label and the features in by
order-preserving union, turns the observation into an index row, and upserts
it. The upsert relabels an existing row with an equal vector, or appends the
row. `classify` and `dump` only read the dictionary.

Around it the project models:

- the Underscore mixins of `lib/utils/main.js`;
- the LIBSVM sparse-text reader shared by the evaluation and a1a scripts;
- the request construction, row checks, progress spinner, confusion-outcome
  labels and tally of the evaluation script;
- the argument shifting and request bodies of the a1a script;
- the version helpers of `lib/utils/version.js`.

The Underscore primitives follow Underscore 1.8 and later (the code uses
`_.findIndex` and `_.mapObject`, which arrived in that release). There an
object whose `length` is a number from 0 to 2^53 - 1 is array-like:
`_.size` reports that length and `_.map` visits `obj[0]` to
`obj[length - 1]`, but `_.isEmpty` still counts the object's keys.

Files, one module each:

| file | module | models |
|---|---|---|
| `js.dfy` | `Js` | JavaScript values and the Underscore primitives the code relies on (`_.indexOf`, `_.union`, `_.map`, `_.compact`, `_.extend`, `String(v)`, `join`) |
| `text.dfy` | `Text` | `split`/`join` on one character, `trim`, substring `indexOf`, ASCII case conversion |
| `utils.dfy` | `Utils` | `lib/utils/main.js` |
| `svm.dfy` | `Svm` | `lib/machineLearning/svm.js`: the `FeatureDictionary` class with `Train`, `Classify` and `Dump` |
| `libsvm_text.dfy` | `LibSvmText` | `getData` of `eval/main.js` and `scripts/a1a/script.js` (identical code) |
| `http.dfy` | `Http` | `resHandler` of both scripts (identical code apart from logging) |
| `eval.dfy` | `Eval` | `eval/main.js` |
| `a1a_script.dfy` | `A1aScript` | `scripts/a1a/script.js` |
| `version.dfy` | `Version` | `lib/utils/version.js` |

State that the source updates in place is modelled imperatively:

- The module-level `FeatureDictionary` is the class `Svm.FeatureDictionary`,
  holding a `map` from namespace to record. `Train` is a method whose new
  state is tied to the function `Svm.Trained`, and it keeps the invariant
  `Valid()`. The class invariant says:
  - no duplicate labels and no duplicate features;
  - no two rows with the same feature vector;
  - every index in range.
- The evaluation script's spinner counter `ind` is the class `Eval.Progress`.
- `releases.sort(...)` is an insertion sort on an array
  (`Version.SortDesc`).

The node-svm calls are parameters:

- `svm.train` becomes the out-parameter `trainingSet` of `Train` (the rows
  handed to it);
- `svm.predict` becomes a function argument of `Classify` that either
  returns a class id or throws.

## Model

| member | source | states |
|---|---|---|
| Js.IndexOf | lib/machineLearning/svm.js:169-171 | `_.indexOf`: -1 exactly when absent; otherwise the element is at the result and not before it |
| Js.MapValues | lib/machineLearning/svm.js:172-176 | `_.map` visits an array's elements unchanged, a string's characters, `obj[0]` to `obj[length - 1]` of an object whose `length` is a number from 0 to 2^53 - 1 (Underscore's array-like test), any other object's property VALUES in order, `fn.length` undefined entries for a function; as many values as `_.size` reports for every value other than a classifier or Error instance |
| Js.UnionSpec | lib/machineLearning/svm.js:69-71 | `_.union` of a duplicate-free list: no duplicates, old entries keep their positions, and it holds exactly the elements of both lists |
| Js.UnionNone | lib/machineLearning/svm.js:69-71 | a union with an empty second list leaves a duplicate-free list unchanged |
| Js.UnionAppend | lib/machineLearning/svm.js:69-71 | new entries are appended in their own order: `union(a, b + [x])` is `union(a, b)`, followed by `x` exactly when `x` is not already in it |
| Js.UnionIdempotent | lib/machineLearning/svm.js:69-71 | taking the union again with the same new entries changes nothing |
| Js.Union | lib/machineLearning/svm.js:69-71 | `_.union` of any two lists has no duplicates, and holds every element of both and nothing else |
| Js.Filter | eval/main.js:464-466 | `_.compact`/filter keeps only accepted elements, exactly the accepted ones of the input, never more of them |
| Js.FilterCount | eval/main.js:204 | filtering keeps every occurrence of an accepted value, so `_.compact` does not change the count of a non-null outcome |
| Js.FilterAppend | eval/main.js:464-466 | filtering keeps order: the filter of a concatenation is the concatenation of the filters |
| Js.Compact | eval/main.js:204-213 | `_.compact` keeps only truthy values, every truthy value, and every occurrence of each |
| Js.IsEmpty | lib/utils/main.js:32-38 | `_.isEmpty`: a string or array exactly when `_.size` is 0; an object exactly when it has no keys (so `{length: 0}`, of `_.size` 0, is not empty); every other value, a function of any arity included, is empty |
| Js.ToString | eval/main.js:279-280 | `String` of a number is a `-` exactly when it is negative, then digits; of an Error it starts with "Error" |
| Js.JoinValuesIsTextJoin | lib/utils/version.js:99 | `join` with a one-character separator is the text join of the rendered elements (null and undefined as "") |
| Js.Assign | scripts/a1a/script.js:101 | after `obj[key] = val` the key reads `val` and every other key reads as before |
| Js.AssignKeyNames | scripts/a1a/script.js:101 | assignment adds exactly the assigned name to the names an object already has |
| Js.AssignKeys | scripts/a1a/script.js:101 | assignment keeps an object's names distinct |
| Js.AssignAll | scripts/a1a/script.js:101 | copying a source's properties: each key reads the source's last value for it, or the target's own when the source lacks it |
| Js.LastValueUnique | scripts/a1a/script.js:101 | in a real object (distinct names) the last value of a name is its only value |
| Js.LastValueDefault | scripts/a1a/script.js:101 | the last property of a name wins whatever value came before; without the name the earlier value stays |
| Js.ExtendKeepsUnique | scripts/a1a/script.js:101 | `_.extend` keeps the names of an object distinct |
| Js.ExtendKeepsUntouched | scripts/a1a/script.js:101 | after `_.extend` a name no source has keeps the target's value |
| Js.ExtendLastSourceWins | scripts/a1a/script.js:101 | after `_.extend` a name the last source has reads that source's (last) value for it |
| Text.Split | eval/main.js:460-461 | `split` on one character: at least one piece, no piece contains the separator, `"".split(c)` is `[""]` |
| Text.JoinSplit | eval/main.js:460-461 | joining the pieces of a split restores the string |
| Text.SplitJoin | eval/main.js:460-461 | splitting a join of separator-free pieces gives back the pieces |
| Text.Join | eval/main.js:246 | the join starts with the first piece, followed by the separator when there are more |
| Text.Before | eval/main.js:465 | `x.split(c)[0]` holds no separator |
| Text.BeforeIsPrefix | eval/main.js:465 | `x.split(c)[0]` is a prefix of `x`, followed by the separator when shorter |
| Text.BeforeSeparator | eval/main.js:465 | the text before a separator that follows a separator-free prefix is that prefix |
| Text.SplitAppend | eval/main.js:246 | splitting at a separator splits both sides independently |
| Text.Trim | eval/main.js:363-365 | `trim` leaves no white space at either end |
| Text.TrimUnpadded | eval/main.js:363-365 | `trim` leaves a string without white space at either end unchanged |
| Text.TrimLeadingSpace | eval/main.js:363-365 | `trim` removes exactly the white space in front of a string without surrounding white space |
| Text.TrimIsSlice | eval/main.js:363-365 | what `trim` keeps is a contiguous slice with only white space around it |
| Text.IndexOfFrom | eval/main.js:373 | `s.indexOf(sub)` is the first position where `sub` occurs, or -1 when it occurs nowhere after the start |
| Text.ContainsIff | eval/main.js:373 | `indexOf(sub) >= 0` exactly when `sub` occurs somewhere |
| Text.Lower | lib/utils/main.js:41 | `toLowerCase` keeps the length and lowers every ASCII capital |
| Text.Upper | lib/utils/main.js:44 | `toUpperCase` keeps the length and raises every ASCII lower-case letter |
| Utils.IsNonEmptyString | lib/utils/main.js:31-33 | holds exactly for strings of length > 0 |
| Utils.IsNonEmptyObject | lib/utils/main.js:34-36 | holds exactly for plain objects with at least one own key; never for arrays |
| Utils.IsNonEmptyArray | lib/utils/main.js:37-39 | holds exactly for arrays with at least one element |
| Utils.IsTrueParam | lib/utils/main.js:40-42 | a string is true exactly when it spells "true" in any case; another value only when it is `true` |
| Utils.LowerSpellsTrue | lib/utils/main.js:41 | `s.toLowerCase() === 'true'` exactly when `s` is t-r-u-e in any mix of cases |
| Utils.ToUpperCase | lib/utils/main.js:43-45 | null exactly for values that are not non-empty strings; otherwise a string of the same length, equal up to case, without ASCII lower-case letters |
| Utils.ToLowerCase | lib/utils/main.js:46-48 | null exactly for values that are not non-empty strings; otherwise a string of the same length, equal up to case, without ASCII capitals |
| Utils.SafeCallback | lib/utils/main.js:64-74 | an incoming error becomes a new Error with the producer's message ("Ran into a problem" by default) and no result; success passes `(null, res)` unchanged |
| Utils.SafeCallbackHidesErrors | lib/utils/main.js:64-74 | without a producer any two failures reach the callback identically |
| Svm.Create | lib/machineLearning/svm.js:31-42 | always a classifier object with `train` and `predict` functions; options are kept only when they are a non-empty plain object, else `{}` |
| Svm.IndexedClassification | lib/machineLearning/svm.js:169-171 | the first position of the label among the classifications, or -1 when absent |
| Svm.IndexedFeaturesRow | lib/machineLearning/svm.js:172-176 | one index per value `_.map` visits (array elements, object VALUES, or `obj[0..length-1]` of an array-like object), same order; each the first position among the features, or -1 |
| Svm.FeatureVals | lib/machineLearning/svm.js:70 | arrays contribute their elements, objects their KEYS |
| Svm.FindRow | lib/machineLearning/svm.js:154-158 | `_.findIndex` with deep equality: the first row with the vector, or -1 when no row has it |
| Svm.UpsertRow | lib/machineLearning/svm.js:153-168 | with a matching row: same length, the first match takes the new class, all else unchanged; without: old rows then the new row |
| Svm.UpsertKeepsVectorsDistinct | lib/machineLearning/svm.js:153-168 | upserting keeps feature vectors pairwise distinct |
| Svm.UpsertStoresClass | lib/machineLearning/svm.js:153-168 | afterwards the vector is found with the new class (last write wins), and the table grew by at most one |
| Svm.StringifyDataset | lib/machineLearning/svm.js:177-187 | same number of rows and of features per row; each class index maps to its label and each feature index to its value, undefined when out of range (also -1) |
| Svm.StringifyInvertsIndexing | lib/machineLearning/svm.js:172-187 | stringifying an indexed row gives back every known value and undefined for unknown ones |
| Svm.IndexingInvertsStringify | lib/machineLearning/svm.js:172-187 | indexing a stringified row with valid indices gives the indices back |
| Svm.TrainedMergesInOrder | lib/machineLearning/svm.js:69-71 | after training, classifications and features have no duplicates, keep old entries at their positions, and hold exactly the old ones plus the new label / feature values |
| Svm.TrainedAppendsLabel | lib/machineLearning/svm.js:69 | after training, the classifications are exactly the old list, with the label appended at the end when it is new |
| Svm.Merged | lib/machineLearning/svm.js:69-71 | the merged record keeps the rows, has no duplicate labels or features, holds the label, and holds exactly the old features plus the feature VALS (array elements, object keys) |
| Svm.NewRow | lib/machineLearning/svm.js:73-75 | one index per value `_.map` visits; an index is -1 exactly when that value is neither an old feature nor among the feature vals; the class index is found |
| Svm.Trained | lib/machineLearning/svm.js:69-76 | the stored record has the merged lists, at most one more row, and keeps row vectors distinct |
| Svm.ObjectValuesUnindexed | lib/machineLearning/svm.js:70-73 | object features are merged by key but indexed by value: with non-string values not yet known, the row has `_.size` indices, and each is -1 except an `undefined` entry of an array-like object when `undefined` is already a known feature |
| Svm.TrainedClassIndex | lib/machineLearning/svm.js:69-76 | the new row's class index is non-negative and names the trained label |
| Svm.TrainedArrayRoundTrip | lib/machineLearning/svm.js:70-90 | for array features every index of the new row is valid, and the reply row is exactly `[features, classification]` |
| Svm.TrainedValid | lib/machineLearning/svm.js:62-80 | training keeps the namespace invariant |
| Svm.TrainedStoresLabel | lib/machineLearning/svm.js:69-77 | after training, looking the features up among the rows finds the trained label |
| Svm.RetrainRelabels | lib/machineLearning/svm.js:69-77 | training the same features with another label keeps the row count and the feature list |
| Svm.FeatureDictionary.constructor | lib/machineLearning/svm.js:18 | the store starts empty and valid |
| Svm.FeatureDictionary.Train | lib/machineLearning/svm.js:53-96 | bad args: "Bad args", no result, store and classifier untouched; else only this namespace becomes `Trained(old)`, the classifier gets all rows, and the reply is the new row as values; invariant kept |
| Svm.FeatureDictionary.Classify | lib/machineLearning/svm.js:108-134 | bad classifier or empty features: `(null, null)`; unknown namespace: "Namespace not trained yet"; a throwing predictor: "Problem classifying features"; otherwise the label of the predicted id, undefined when the id names none |
| Svm.FeatureDictionary.Dump | lib/machineLearning/svm.js:137-146 | unknown namespace: the caught TypeError; otherwise one row per stored row, in order, each with its label and each feature index mapped to its value (undefined when out of range) |
| Svm.ClassifyAfterTrain | lib/machineLearning/svm.js:117-127 | right after training, a node-svm classifier that recalls its rows makes `classify` answer the trained label for the same features |
| Svm.DumpAfterTrain | lib/machineLearning/svm.js:137-142 | right after training with array features, `dump` lists `[features, classification]` |
| LibSvmText.FeatureNames | eval/main.js:463-466 | the feature names are non-empty and hold no `:` |
| LibSvmText.FeatureNamesAppend | eval/main.js:463-466 | the names of consecutive tokens are the names of each part, in order |
| LibSvmText.FeatureNamesOne | eval/main.js:463-466 | one token gives its text before `:`, or nothing when that is empty |
| LibSvmText.FeatureNamesOfTokens | eval/main.js:463-466 | the names of written `<f>:<v>` tokens and empty tokens are the feature names in order, values dropped, empty tokens skipped |
| LibSvmText.ParseLine | scripts/a1a/script.js:165-171 | the class is the text before the first space; every feature is non-empty and `:`-free |
| LibSvmText.ParseDataset | eval/main.js:460-468 | one example per line, in line order (a trailing newline gives a last, empty example) |
| LibSvmText.ParseRenderLine | scripts/a1a/script.js:164-172 | reading a written line `<class> <f>:1 ...` gives back the class and the features in order |
| LibSvmText.ParseSpacedLine | scripts/a1a/script.js:164-172 | a line `<class>` then `<f>:<v>` tokens with any values and extra spaces anywhere after the class reads as the class and the feature names in order |
| LibSvmText.ParseRenderDataset | eval/main.js:460-468 | reading a written file gives back every example, in order |
| Js.FilterKeepsAll | eval/main.js:464-466 | `_.compact` of non-empty names changes nothing |
| Http.ResHandler | eval/main.js:307-325 | a transport error is passed on alone; ok: `(null, body)`; not ok: `(body, null)` |
| Http.ResHandlerDeliversBody | scripts/a1a/script.js:116-130 | without a transport error the body is delivered once, and the callback sees an error exactly when a failed response has a truthy body |
| Eval.DatasetGate | eval/main.js:143-150 | a reading error passes on; a non-array dataset is "Expecting dataset to be array of data rows"; an array's rows go on |
| Eval.CheckRow | eval/main.js:237-245 | error exactly when the suite is not a non-empty string or `_.size(row) != 2` (an object with `length: 2` passes); skip exactly when otherwise the class `row[1]` is not a non-empty string |
| Eval.ParsedRowsAreAccepted | eval/main.js:262-270 | every parsed line passes the row checks: with a class it is sent, without one it is skipped, never an error |
| Eval.TrainUrl | eval/main.js:246 | `<URL>_<suite>/train/<class>` |
| Eval.ClassifyUrl | eval/main.js:286 | `<URL>_<suite>/classify` |
| Eval.FeaturesBody | eval/main.js:250 | the request body has the one property `features`, which reads `row[0]` |
| Eval.TrainUrlEndsWithClass | eval/main.js:246 | the class is the last path segment, after "train" |
| Eval.Progress.constructor | eval/main.js:228-229 | the spinner starts at the first indicator |
| Eval.Progress.TrainRow | eval/main.js:237-254 | error / skip without advancing the spinner; else post `{features: row[0]}` to the train URL, write the indicator line ending in a carriage return, advance the spinner modulo 4 |
| Eval.Progress.TestRow | eval/main.js:262-294 | as `TrainRow`, to the classify URL |
| Eval.CompareClass | eval/main.js:272-284 | error passed on; empty answer: `(null, null)`; else a two-letter code, T exactly when the prediction's string equals the row class, P exactly when it equals the positive class |
| Eval.CompareClassGivesOutcome | eval/main.js:272-284 | without an error the answer is null or one of TP, TN, FP, FN |
| Eval.Summarize | eval/main.js:204-213 | each of TP/TN/FP/FN counts exactly its results; `count` is at most the number of results |
| Eval.OutcomesCounted | eval/main.js:204-213 | among null and outcome results, the non-null ones number TP + TN + FP + FN |
| Eval.TallyAddsUp | eval/main.js:204-213 | when every result is null or an outcome code, `count == TP + TN + FP + FN` |
| Eval.SerializeKeyVal | eval/main.js:397-401 | `key + glue + val` (null and undefined as "") |
| Eval.SerializedKeyIsRecoverable | eval/main.js:397-401 | with glue "=" the key is the text before the first "=" |
| Eval.Fields | eval/main.js:363-365 | one trimmed field per comma-separated piece |
| Eval.FieldsOfJoin | eval/main.js:363-365 | the fields of a line written from plain fields, each after some white space (`,` or `, ` separators), are those fields |
| Eval.PlanOfJoin | eval/main.js:362-375 | the plan of such a line is the plan of its fields |
| Eval.PlanComfortRow | eval/main.js:362-375 | under three fields no row; an indoor row exactly when the second trimmed field contains "INDOOR", made of the first field, the two indoor features and the fields from the third on; otherwise class, weather path and outfit are the trimmed fields in order |
| Eval.PlanFields | eval/main.js:366-375 | under three fields no row; with "INDOOR" in the weather path: class, the indoor features, then the outfit fields; otherwise the fields as class, path and outfit |
| Eval.PlanComfortRowOfFields | eval/main.js:362-375 | a survey line written from its fields, with or without a blank after each comma, is planned from exactly those fields |
| Eval.PlanFieldsOfParts | eval/main.js:366-375 | the fields `cls, weatherPath, outfit...` plan as an indoor row when the path contains "INDOOR", else as an outdoor row |
| A1aScript.ShiftOptionalQuery | scripts/a1a/script.js:91-94 | a function as query becomes the callback and the query is undefined; afterwards the query is never a function |
| A1aScript.Train | scripts/a1a/script.js:60-72 | a non-array dataset is "Expecting dataset to be array of data rows"; otherwise every row is dispatched, without the query |
| A1aScript.RequestBodyFields | scripts/a1a/script.js:101 | the body has `features = row[0]`, overriding the query's, and the query's other fields, with distinct names |
| A1aScript.TrainRow | scripts/a1a/script.js:90-105 | not an array of exactly two: the row error; otherwise post to `TRAIN_URL/<row[1]>` the query fields with `features` |
| Version.VersionFromPackageJson | lib/utils/version.js:89-92 | the truthy `version` of an object record, else null (also for every non-object) |
| Version.PackageVersion | lib/utils/version.js:36-39 | never an error; the package version or null |
| Version.BuildVersionHandler | lib/utils/version.js:93-102 | never an error; null unless results, tag and short hash are all present, else `tag-short` |
| Version.GitVersionOfStrings | lib/utils/version.js:98-99 | for a string tag and hash the version is `tag + "-" + short` |
| Version.GitVersionEndsWithShort | lib/utils/version.js:98-99 | the short hash is the last `-` segment of the version |
| Version.JsonHandler | lib/utils/version.js:125-133 | an error passes on alone, otherwise the version record unchanged |
| Version.Pick | lib/utils/version.js:121 | `_.pick`: no more properties than listed keys, each a listed key the object has, with the object's value; `{}` for a non-object |
| Version.PickKeepsListed | lib/utils/version.js:121 | `_.pick` leaves out no listed key the object has |
| Version.SortDesc | lib/utils/version.js:115-117 | the array ends sorted by descending version and is a permutation of the original |
| Version.InsertNext | lib/utils/version.js:115-117 | one insertion step extends the sorted prefix by one, permutes the array and leaves everything after the step untouched |
| Version.FindFirst | lib/utils/version.js:118-120 | `_.find`: the first element accepted, none accepted before it |
| Version.IsDeploy | lib/utils/version.js:119 | a deploy release is one whose description is a string in which "Deploy" occurs |
| Version.FirstMatchHasLargestKey | lib/utils/version.js:115-120 | in a list sorted descending, the first deploy release has the highest version of all deploy releases |
| Version.ReorderKeepsLatestDeploy | lib/utils/version.js:115-120 | sorting keeps which releases are deploys and which is the latest |
| Version.DeployedVersionHandler | lib/utils/version.js:103-124 | error or non-array: `(null, null)`; else never an error, `{}` without a deploy release, otherwise the picked fields of a deploy release of the highest version |

## Left out

- Floating point: numbers are integers. NaN, the infinities and fractions are not modelled. Also left out: the accuracy, precision, recall and specificity ratios with `Math.round` (eval/main.js:207-218), and `bucketizer`, `log2` and `formatWeather` (eval/main.js:403-440).
- Feature values are compared by value. JavaScript's `===` in `_.indexOf`/`_.union` compares arrays and objects by identity, so two equal compound features count as distinct there.
- Aliasing and interleaving are not modelled:
  - `upsertRow` writes the new class into the inner row shared with the old row table, which node-svm may already hold;
  - the JavaScript record object is shared between calls;
  - asynchronous callbacks run after later training.
- node-svm itself is not part of this model. Training and prediction are parameters, and the model always answers. In the source, `.done` (lib/machineLearning/svm.js:89-90, 126-127) registers a success handler only: a rejected training or prediction promise never calls back. The `catch` (lib/machineLearning/svm.js:92-95, 130-133) catches only a synchronous throw.
- `Svm.Create`: node-svm's constructor and its defaults are not modelled. A classifier instance is taken to have no own enumerable keys.
- `Svm.FeatureDictionary.Dump`: the error is the TypeError raised when reading `rows` of undefined. Its exact message depends on the JavaScript engine.
- Namespaces whose names collide with `Object.prototype` members (`constructor`, `__proto__`) are not modelled. Their lookup in `FeatureDictionary` is not a plain miss in JavaScript.
- The unused `columns` field of a fresh record is not modelled. A fresh record's `features` is undefined, which `_.union` treats as an empty list.
- `Js.Call`: a script callback invoked with fewer arguments and one invoked with `undefined` are modelled alike. `Svm.Reply` tells them apart: `None` is an argument not passed (`callback(new Error(...))`), `Some(Undefined)` an explicit undefined (the label of an unknown class id).
- Logging (`util.log.*`, `console.log`) and the bunyan set-up are not modelled: they have no effect on results.
- HTTP is not modelled. Requests are returned as values (URL and body). The non-function `callback` fallback of `resHandler` only logs.
- File reading, `partitionData` (random shuffle) and `getTrainingData`/`getTestingData` are not modelled. The weather-file branch of `normalizeComfortData` depends on files and floating point.
- `async.mapLimit`/`async.parallel` fan-out is not modelled. Nor are the git and Heroku lookups in `buildVersion`, `deployVersion` and `json`: only their handlers are modelled.
- `asyncConstant` (lib/utils/main.js:87-93) depends on `_.parseArguments`, which is defined nowhere in the code base.
- The XOR and `indexFeaturesReducer` tests in test/machineLearning/svm.test.js:90-166 target another revision of the adapter. No property is taken from them.
- Utils.ToUpperCase, Text.Upper: only ASCII letters change case. Full Unicode case mapping is not modelled, so the length is always kept; in JavaScript `"ß".toUpperCase()` is "SS".
- Eval.CompareClass: requires a positive class other than null/undefined, for which `posClass.toString()` throws.
- Version.DeployedVersionHandler: the source sorts the caller's `releases` array in place (lib/utils/version.js:115-117), while the model sorts a copy and leaves the argument as it was; nothing reads the array afterwards.
- Js.Size, Js.MapValues, Js.At: a JavaScript string is a sequence of UTF-16 code units, while a Dafny `char` is a Unicode scalar value, so a character outside the Basic Multilingual Plane counts once here and twice in JavaScript (`_.size("😀")` is 2 there, 1 here). `Eval.CheckRow` inherits this for string rows.
- Version.DeployedVersionHandler: requires every release to have a numeric `version`. With a missing version the comparator yields NaN, and the ECMAScript sort order is then implementation-defined. Among deploy releases of equal version the one chosen is not specified, because the sort is not stable in every engine.
- Js.ToString: a function prints as its name. `String(fn)` in JavaScript is the function's source text.
- Utils.ToLowerCase, Text.Lower: only ASCII letters change case. Full Unicode lowering is not modelled, so the length is always kept; in JavaScript U+0130 lowers to two code units and changes the length.
- `_.extend` copies nothing from functions, Error instances or classifier instances. Their inherited enumerable properties are not modelled.
