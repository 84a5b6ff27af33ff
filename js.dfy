/**
 * The JavaScript values this code base inspects, and the few Underscore.js
 * primitives (`_.isObject`, `_.isEmpty`, `_.size`, `_.keys`, `_.map`,
 * `_.indexOf`, `_.union`, `String(v)`, `Array.prototype.join`) whose exact
 * behaviour the modelled functions depend on.
 */
module Js {
  import Text

  datatype Option<+T> = None | Some(value: T)

  /**
   * A JavaScript value. Numbers are integers (the code never relies on
   * fractions, NaN or the infinities). An object's properties are listed in
   * the engine's enumeration order. `Fn` is a function value with its name and
   * arity (`fn.length`), `ErrorObj` an `Error` instance, and `Svm` an instance
   * of node-svm's `SVM` class holding the options it was built with.
   */
  datatype JsValue =
    | Undefined
    | Null
    | Bool(b: bool)
    | Num(n: int)
    | Str(s: string)
    | Arr(items: seq<JsValue>)
    | Obj(props: seq<Prop>)
    | Fn(name: string, arity: nat)
    | ErrorObj(message: string)
    | Svm(config: JsValue)

  datatype Prop = Prop(key: string, val: JsValue)

  /** The two arguments a Node-style callback `callback(err, res)` receives. */
  datatype Call = Call(err: JsValue, res: JsValue)

  // ---------------------------------------------------------------------------
  // Type tests and truthiness
  // ---------------------------------------------------------------------------

  /** `_.isObject`: typeof is 'function' or a non-null 'object'. */
  predicate IsObject(v: JsValue) {
    v.Arr? || v.Obj? || v.Fn? || v.ErrorObj? || v.Svm?
  }

  predicate IsArray(v: JsValue) { v.Arr? }

  predicate IsString(v: JsValue) { v.Str? }

  predicate IsFunction(v: JsValue) { v.Fn? }

  /** JavaScript truthiness: `if (v)`. */
  predicate Truthy(v: JsValue) {
    match v
    case Undefined => false
    case Null => false
    case Bool(b) => b
    case Num(n) => n != 0
    case Str(s) => |s| > 0
    case _ => true
  }

  /** The largest length Underscore (1.8 and later) accepts as array-like, 2^53 - 1. */
  const MaxArrayIndex: int := 0x1F_FFFF_FFFF_FFFF

  /**
   * Underscore's `isArrayLike` on a plain object: its `length` property is a
   * number from 0 to 2^53 - 1. `_.size` and `_.map` then treat the object as
   * an array of that length.
   */
  predicate HasArrayLength(props: seq<Prop>) {
    var l := Lookup(props, "length");
    l.Num? && 0 <= l.n <= MaxArrayIndex
  }

  /**
   * `_.isEmpty`: null and undefined are empty; arrays and strings by length;
   * everything else by its own enumerable keys (none for numbers, booleans,
   * functions, Error instances and node-svm instances in this model), so an
   * object is empty only without keys, even when it has a `length` of 0.
   */
  predicate IsEmpty(v: JsValue): (r: bool)
    ensures v.Str? || v.Arr? ==> (r <==> Size(v) == 0)
    ensures v.Obj? ==> (r <==> |KeyNames(v.props)| == 0)
    ensures !v.Str? && !v.Arr? && !v.Obj? ==> r
    ensures v.Obj? && !HasArrayLength(v.props) ==> (r <==> Size(v) == 0)
  {
    match v
    case Str(s) => |s| == 0
    case Arr(items) => |items| == 0
    case Obj(props) => |props| == 0
    case _ => true
  }

  /**
   * `_.size`: the length of an array-like value (arrays, strings, functions
   * through their arity, objects with an array length), otherwise the number
   * of own keys.
   */
  function Size(v: JsValue): nat {
    match v
    case Str(s) => |s|
    case Arr(items) => |items|
    case Obj(props) => if HasArrayLength(props) then Lookup(props, "length").n else |props|
    case Fn(_, arity) => arity
    case _ => 0
  }

  // ---------------------------------------------------------------------------
  // Properties
  // ---------------------------------------------------------------------------

  /** The value of the first property named `key`, or undefined. */
  function Lookup(props: seq<Prop>, key: string): (r: JsValue)
    ensures (forall i :: 0 <= i < |props| ==> props[i].key != key) ==> r == Undefined
    ensures forall i ::
              (0 <= i < |props| && props[i].key == key && forall j :: 0 <= j < i ==> props[j].key != key)
              ==> r == props[i].val
  {
    if |props| == 0 then Undefined
    else if props[0].key == key then props[0].val
    else Lookup(props[1..], key)
  }

  /** A lookup finds one of the object's own values, or nothing. */
  lemma {:induction false} LookupFromProps(props: seq<Prop>, key: string)
    ensures var r := Lookup(props, key);
      r == Undefined || exists i :: 0 <= i < |props| && r == props[i].val
  {
    if |props| > 0 && props[0].key != key {
      LookupFromProps(props[1..], key);
      var r := Lookup(props[1..], key);
      if r != Undefined {
        var i :| 0 <= i < |props[1..]| && r == props[1..][i].val;
        assert r == props[i + 1].val;
      }
    }
  }

  /** The property names of an object, in order. */
  function KeyNames(props: seq<Prop>): (r: seq<string>)
    ensures |r| == |props|
    ensures forall i :: 0 <= i < |props| ==> r[i] == props[i].key
  {
    seq(|props|, i requires 0 <= i < |props| => props[i].key)
  }

  /** A JavaScript object never has two properties of the same name. */
  predicate UniqueKeys(props: seq<Prop>) {
    NoDups(KeyNames(props))
  }

  /**
   * `obj[key] = val`: an existing property keeps its place and takes the new
   * value; a new one is added last.
   */
  function Assign(props: seq<Prop>, key: string, val: JsValue): (r: seq<Prop>)
    ensures Lookup(r, key) == val
    ensures forall k :: k != key ==> Lookup(r, k) == Lookup(props, k)
  {
    if |props| == 0 then [Prop(key, val)]
    else if props[0].key == key then [Prop(key, val)] + props[1..]
    else [props[0]] + Assign(props[1..], key, val)
  }

  /** Dropping the first property of an object leaves an object that lacks that name. */
  lemma UniqueTail(props: seq<Prop>)
    requires |props| > 0 && UniqueKeys(props)
    ensures UniqueKeys(props[1..]) && props[0].key !in KeyNames(props[1..])
  {
    var tail := props[1..];
    forall i, j | 0 <= i < j < |tail| ensures KeyNames(tail)[i] != KeyNames(tail)[j] {
      assert KeyNames(props)[i + 1] != KeyNames(props)[j + 1];
    }
    forall i | 0 <= i < |tail| ensures KeyNames(tail)[i] != props[0].key {
      assert KeyNames(props)[0] != KeyNames(props)[i + 1];
    }
  }

  /** Assignment adds at most the assigned name. */
  lemma {:induction false} AssignKeyNames(props: seq<Prop>, key: string, val: JsValue)
    ensures forall k :: k in KeyNames(Assign(props, key, val)) <==> k in KeyNames(props) || k == key
  {
    if |props| > 0 {
      assert KeyNames(props) == [props[0].key] + KeyNames(props[1..]);
      if props[0].key != key {
        AssignKeyNames(props[1..], key, val);
        assert KeyNames(Assign(props, key, val)) == [props[0].key] + KeyNames(Assign(props[1..], key, val));
      } else {
        assert KeyNames(Assign(props, key, val)) == KeyNames(props);
      }
    }
  }

  /** Assignment keeps the names of an object distinct. */
  lemma {:induction false} AssignKeys(props: seq<Prop>, key: string, val: JsValue)
    ensures UniqueKeys(props) ==> UniqueKeys(Assign(props, key, val))
  {
    if |props| > 0 && UniqueKeys(props) {
      var r := Assign(props, key, val);
      if props[0].key == key {
        assert KeyNames(r) == KeyNames(props);
      } else {
        var rest := Assign(props[1..], key, val);
        UniqueTail(props);
        AssignKeys(props[1..], key, val);
        AssignKeyNames(props[1..], key, val);
        assert r == [props[0]] + rest;
        ConsKeys(props[0], rest);
      }
    }
  }

  /** A property in front of an object that lacks its name leaves the names distinct. */
  lemma ConsKeys(p: Prop, rest: seq<Prop>)
    requires UniqueKeys(rest) && p.key !in KeyNames(rest)
    ensures UniqueKeys([p] + rest)
  {
    var names := KeyNames([p] + rest);
    assert names == [p.key] + KeyNames(rest);
    forall i, j | 0 <= i < j < |names| ensures names[i] != names[j] {
      assert names[j] == KeyNames(rest)[j - 1];
      if i > 0 {
        assert names[i] == KeyNames(rest)[i - 1];
      }
    }
  }

  /** The value the last property named `key` in `source` holds, or `dflt` when there is none. */
  function LastValue(source: seq<Prop>, key: string, dflt: JsValue): JsValue
    decreases |source|
  {
    if |source| == 0 then dflt
    else LastValue(source[1..], key, if source[0].key == key then source[0].val else dflt)
  }

  /** In an object (unique names) the last property of a name is its only one. */
  lemma {:induction false} LastValueUnique(source: seq<Prop>, key: string, dflt: JsValue)
    requires UniqueKeys(source)
    ensures LastValue(source, key, dflt) == if key in KeyNames(source) then Lookup(source, key) else dflt
    decreases |source|
  {
    if |source| > 0 {
      var tail := source[1..];
      assert KeyNames(source) == [source[0].key] + KeyNames(tail);
      UniqueTail(source);
      LastValueUnique(tail, key, if source[0].key == key then source[0].val else dflt);
    }
  }

  /** Assigning every property of `source` in turn, as `_.extend(target, source)` does. */
  function AssignAll(target: seq<Prop>, source: seq<Prop>): (r: seq<Prop>)
    ensures forall k :: Lookup(r, k) == LastValue(source, k, Lookup(target, k))
    ensures UniqueKeys(target) ==> UniqueKeys(r)
    decreases |source|
  {
    if |source| == 0 then target
    else
      AssignKeys(target, source[0].key, source[0].val);
      AssignAll(Assign(target, source[0].key, source[0].val), source[1..])
  }

  /**
   * The properties `_.extend` copies from a source: an object's properties,
   * an array's elements under their index names, and nothing from any other
   * value (functions, Error instances and classifier instances have no
   * enumerable properties in this model).
   */
  function OwnProps(v: JsValue): seq<Prop> {
    match v
    case Obj(props) => props
    case Arr(items) => seq(|items|, i requires 0 <= i < |items| => Prop(NatToString(i), items[i]))
    case _ => []
  }

  /** The last property of a name wins whatever came before; with no such property the default stays. */
  lemma {:induction false} LastValueDefault(source: seq<Prop>)
    ensures forall k, d :: LastValue(source, k, d) == if k in KeyNames(source) then LastValue(source, k, Undefined) else d
    decreases |source|
  {
    if |source| > 0 {
      assert KeyNames(source) == [source[0].key] + KeyNames(source[1..]);
      LastValueDefault(source[1..]);
    }
  }

  /** `_.extend(obj, ...sources)` on a plain object. */
  function Extend(target: seq<Prop>, sources: seq<JsValue>): seq<Prop>
    decreases |sources|
  {
    if |sources| == 0 then target else Extend(AssignAll(target, OwnProps(sources[0])), sources[1..])
  }

  /** `_.extend` keeps the names of an object distinct. */
  lemma {:induction false} ExtendKeepsUnique(target: seq<Prop>, sources: seq<JsValue>)
    ensures UniqueKeys(target) ==> UniqueKeys(Extend(target, sources))
    decreases |sources|
  {
    if |sources| > 0 {
      ExtendKeepsUnique(AssignAll(target, OwnProps(sources[0])), sources[1..]);
    }
  }

  /** A name that no source has keeps the target's value. */
  lemma {:induction false} ExtendKeepsUntouched(target: seq<Prop>, sources: seq<JsValue>, k: string)
    requires forall i :: 0 <= i < |sources| ==> k !in KeyNames(OwnProps(sources[i]))
    ensures Lookup(Extend(target, sources), k) == Lookup(target, k)
    decreases |sources|
  {
    if |sources| > 0 {
      var next := AssignAll(target, OwnProps(sources[0]));
      LastValueDefault(OwnProps(sources[0]));
      assert k !in KeyNames(OwnProps(sources[0]));
      assert forall i :: 0 <= i < |sources[1..]| ==> sources[1..][i] == sources[i + 1];
      ExtendKeepsUntouched(next, sources[1..], k);
    }
  }

  /** A name the last source has reads that source's (last) value for it: the last source wins. */
  lemma {:induction false} ExtendLastSourceWins(target: seq<Prop>, sources: seq<JsValue>, k: string)
    requires |sources| > 0 && k in KeyNames(OwnProps(sources[|sources| - 1]))
    ensures Lookup(Extend(target, sources), k) == LastValue(OwnProps(sources[|sources| - 1]), k, Undefined)
    decreases |sources|
  {
    var next := AssignAll(target, OwnProps(sources[0]));
    if |sources| == 1 {
      LastValueDefault(OwnProps(sources[0]));
      assert Extend(target, sources) == Extend(next, []) == next;
    } else {
      assert sources[1..][|sources[1..]| - 1] == sources[|sources| - 1];
      ExtendLastSourceWins(next, sources[1..], k);
    }
  }

  /** `v.key` for a named (non-index) property. */
  function Get(v: JsValue, key: string): JsValue {
    match v
    case Obj(props) => Lookup(props, key)
    case Svm(_) =>
      if key == "train" then Fn("train", 1)
      else if key == "predict" then Fn("predict", 1)
      else Undefined
    case ErrorObj(message) => if key == "message" then Str(message) else Undefined
    case _ => Undefined
  }

  /** `v[i]`: an array element, a one-character string, or the property named by `i`. */
  function At(v: JsValue, i: nat): JsValue {
    match v
    case Arr(items) => if i < |items| then items[i] else Undefined
    case Str(s) => if i < |s| then Str([s[i]]) else Undefined
    case Obj(props) => Lookup(props, NatToString(i))
    case _ => Undefined
  }

  /** `_.keys` of a plain object, as strings. */
  function Keys(props: seq<Prop>): (r: seq<JsValue>)
    ensures |r| == |props|
    ensures forall i :: 0 <= i < |props| ==> r[i] == Str(props[i].key)
  {
    seq(|props|, i requires 0 <= i < |props| => Str(props[i].key))
  }

  /**
   * The values `_.map(v, f)` visits, in order: array elements, the characters
   * of a string, `obj[0]` to `obj[length - 1]` of an object with an array
   * length, any other object's property values, and `fn.length` undefined
   * entries for a function; nothing for other values.
   */
  function MapValues(v: JsValue): (r: seq<JsValue>)
    ensures v.Arr? ==> r == v.items
    ensures v.Obj? && !HasArrayLength(v.props) ==>
      |r| == |v.props| && forall i :: 0 <= i < |r| ==> r[i] == v.props[i].val
    ensures v.Obj? && HasArrayLength(v.props) ==>
      |r| == Lookup(v.props, "length").n && forall i :: 0 <= i < |r| ==> r[i] == Lookup(v.props, NatToString(i))
    ensures v.Str? ==> |r| == |v.s| && forall i :: 0 <= i < |r| ==> r[i] == Str([v.s[i]])
    ensures v.Fn? ==> |r| == v.arity && forall i :: 0 <= i < |r| ==> r[i] == Undefined
    ensures |r| == Size(v) || v.Svm? || v.ErrorObj?
  {
    match v
    case Arr(items) => items
    case Str(s) => seq(|s|, i requires 0 <= i < |s| => Str([s[i]]))
    case Obj(props) =>
      if HasArrayLength(props) then
        seq(Lookup(props, "length").n, i requires 0 <= i => Lookup(props, NatToString(i)))
      else seq(|props|, i requires 0 <= i < |props| => props[i].val)
    case Fn(_, arity) => seq(arity, i => Undefined)
    case _ => []
  }

  // ---------------------------------------------------------------------------
  // Conversion to string
  // ---------------------------------------------------------------------------

  function DigitChar(d: nat): char
    requires d < 10
  {
    "0123456789"[d]
  }

  /** Decimal notation of a natural number, without leading zeros. */
  function NatToString(n: nat): (r: string)
    ensures |r| >= 1
    ensures forall i :: 0 <= i < |r| ==> '0' <= r[i] <= '9'
    ensures n >= 10 ==> r[0] != '0'
  {
    if n < 10 then [DigitChar(n)] else NatToString(n / 10) + [DigitChar(n % 10)]
  }

  function IntToString(n: int): string {
    if n < 0 then "-" + NatToString(-n) else NatToString(n)
  }

  /**
   * `String(v)`. A function prints as its name; the engine prints its source.
   * An Error prints as "Error", followed by ": " and its message when that is not empty.
   */
  function ToString(v: JsValue): (r: string)
    ensures v.Num? ==> |r| > 0 && (r[0] == '-' <==> v.n < 0) && forall i :: 0 < i < |r| ==> '0' <= r[i] <= '9'
    ensures v.ErrorObj? ==> |r| >= 5 && r[..5] == "Error"
    decreases v, 1
  {
    match v
    case Undefined => "undefined"
    case Null => "null"
    case Bool(b) => if b then "true" else "false"
    case Num(n) => IntToString(n)
    case Str(s) => s
    case Arr(items) => JoinValues(items, ",")
    case Obj(_) => "[object Object]"
    case Fn(name, _) => name
    case ErrorObj(message) => if message == "" then "Error" else "Error: " + message
    case Svm(_) => "[object Object]"
  }

  /** How `Array.prototype.join` renders one element: null and undefined as "". */
  function JoinPiece(v: JsValue): string
    decreases v, 2
  {
    if v.Null? || v.Undefined? then "" else ToString(v)
  }

  /** `items.join(sep)`. */
  function JoinValues(items: seq<JsValue>, sep: string): string
    decreases items
  {
    if |items| == 0 then ""
    else if |items| == 1 then JoinPiece(items[0])
    else JoinPiece(items[0]) + sep + JoinValues(items[1..], sep)
  }

  /** With a one-character separator, `join` is the text join of the rendered elements. */
  lemma {:induction false} JoinValuesIsTextJoin(items: seq<JsValue>, c: char)
    ensures JoinValues(items, [c]) == Text.Join(seq(|items|, i requires 0 <= i < |items| => JoinPiece(items[i])), c)
    decreases |items|
  {
    if |items| > 1 {
      JoinValuesIsTextJoin(items[1..], c);
      var pieces := seq(|items|, i requires 0 <= i < |items| => JoinPiece(items[i]));
      assert pieces[1..] == seq(|items[1..]|, i requires 0 <= i < |items[1..]| => JoinPiece(items[1..][i]));
    }
  }

  // ---------------------------------------------------------------------------
  // _.filter, _.compact
  // ---------------------------------------------------------------------------

  /** `_.filter(s, keep)`: the elements `keep` accepts, in their order. */
  function Filter<T(!new)>(s: seq<T>, keep: T -> bool): (r: seq<T>)
    ensures |r| <= |s|
    ensures forall i :: 0 <= i < |r| ==> keep(r[i])
    ensures forall x :: x in r <==> x in s && keep(x)
  {
    if |s| == 0 then []
    else if keep(s[0]) then [s[0]] + Filter(s[1..], keep)
    else Filter(s[1..], keep)
  }

  /** When every element is accepted, filtering changes nothing. */
  lemma {:induction false} FilterKeepsAll<T(!new)>(s: seq<T>, keep: T -> bool)
    requires forall i :: 0 <= i < |s| ==> keep(s[i])
    ensures Filter(s, keep) == s
  {
    if |s| > 0 {
      FilterKeepsAll(s[1..], keep);
      assert s == [s[0]] + s[1..];
    }
  }

  /** Filtering keeps every occurrence of an accepted value. */
  lemma {:induction false} FilterCount<T(!new)>(s: seq<T>, keep: T -> bool, x: T)
    requires keep(x)
    ensures multiset(Filter(s, keep))[x] == multiset(s)[x]
  {
    if |s| > 0 {
      var t := Filter(s[1..], keep);
      FilterCount(s[1..], keep, x);
      assert s == [s[0]] + s[1..];
      assert multiset(s) == multiset{s[0]} + multiset(s[1..]);
      if keep(s[0]) {
        assert Filter(s, keep) == [s[0]] + t;
        assert multiset(Filter(s, keep)) == multiset{s[0]} + multiset(t);
      } else {
        assert Filter(s, keep) == t;
      }
    }
  }

  /** Filtering a concatenation filters each part and keeps the parts in order. */
  lemma {:induction false} FilterAppend<T(!new)>(a: seq<T>, b: seq<T>, keep: T -> bool)
    ensures Filter(a + b, keep) == Filter(a, keep) + Filter(b, keep)
    decreases |a|
  {
    if |a| == 0 {
      assert a + b == b;
    } else {
      assert (a + b)[0] == a[0];
      assert (a + b)[1..] == a[1..] + b;
      FilterAppend(a[1..], b, keep);
    }
  }

  lemma FilterCounts<T(!new)>(s: seq<T>, keep: T -> bool)
    ensures forall x :: keep(x) ==> multiset(Filter(s, keep))[x] == multiset(s)[x]
  {
    forall x | keep(x) ensures multiset(Filter(s, keep))[x] == multiset(s)[x] {
      FilterCount(s, keep, x);
    }
  }

  /** `_.compact`: the truthy values, every occurrence of each, and nothing else. */
  function Compact(s: seq<JsValue>): (r: seq<JsValue>)
    ensures forall i :: 0 <= i < |r| ==> Truthy(r[i])
    ensures forall x :: x in r <==> x in s && Truthy(x)
    ensures forall x :: Truthy(x) ==> multiset(r)[x] == multiset(s)[x]
  {
    FilterCounts(s, Truthy);
    Filter(s, Truthy)
  }

  // ---------------------------------------------------------------------------
  // _.indexOf, _.uniq, _.union
  // ---------------------------------------------------------------------------

  predicate NoDups<T(==)>(s: seq<T>) {
    forall i, j :: 0 <= i < j < |s| ==> s[i] != s[j]
  }

  /** `_.indexOf(s, x)`: the first position of `x` in `s`, or -1. */
  function IndexOf<T(==)>(s: seq<T>, x: T): (r: int)
    ensures -1 <= r < |s|
    ensures r == -1 <==> x !in s
    ensures 0 <= r ==> s[r] == x && x !in s[..r]
  {
    if |s| == 0 then -1
    else if s[0] == x then 0
    else
      var k := IndexOf(s[1..], x);
      if k < 0 then -1
      else
        assert s[..k + 1] == [s[0]] + s[1..][..k];
        k + 1
  }

  /** The scan behind `_.uniq`: append each element of `s` to `seen` unless already there. */
  function UniqInto<T(==)>(seen: seq<T>, s: seq<T>): seq<T>
    decreases |s|
  {
    if |s| == 0 then seen
    else UniqInto(if s[0] in seen then seen else seen + [s[0]], s[1..])
  }

  /** `_.union(a, b)` for two arrays: `_.uniq` of their concatenation. */
  function Union<T(==)>(a: seq<T>, b: seq<T>): (r: seq<T>)
    ensures NoDups(r)
    ensures forall i :: 0 <= i < |r| ==> r[i] in a || r[i] in b
    ensures forall i :: 0 <= i < |a| ==> a[i] in r
    ensures forall i :: 0 <= i < |b| ==> b[i] in r
  {
    UnionMembers(a, b);
    UniqInto([], a + b)
  }

  lemma UnionMembers<T>(a: seq<T>, b: seq<T>)
    ensures var r := UniqInto([], a + b);
      && NoDups(r)
      && (forall i :: 0 <= i < |r| ==> r[i] in a || r[i] in b)
      && (forall i :: 0 <= i < |a| ==> a[i] in r)
      && (forall i :: 0 <= i < |b| ==> b[i] in r)
  {
    UniqIntoSpec([], a + b);
    var r := UniqInto([], a + b);
    forall i | 0 <= i < |r| ensures r[i] in a || r[i] in b {
      UniqIntoMember([], a + b, r[i]);
    }
  }

  /** What the scan returns was already seen or comes from the scanned sequence. */
  lemma {:induction false} UniqIntoMember<T>(seen: seq<T>, s: seq<T>, x: T)
    requires x in UniqInto(seen, s)
    ensures x in seen || x in s
    decreases |s|
  {
    if |s| > 0 {
      UniqIntoMember(if s[0] in seen then seen else seen + [s[0]], s[1..], x);
      if x in s[1..] {
        assert s == [s[0]] + s[1..];
      }
    }
  }

  lemma {:induction false} UniqIntoSpec<T>(seen: seq<T>, s: seq<T>)
    requires NoDups(seen)
    ensures var r := UniqInto(seen, s);
      && NoDups(r)
      && |r| >= |seen| && r[..|seen|] == seen
      && (forall x :: x in r <==> x in seen || x in s)
    decreases |s|
  {
    if |s| > 0 {
      var next := if s[0] in seen then seen else seen + [s[0]];
      UniqIntoSpec(next, s[1..]);
      var r := UniqInto(next, s[1..]);
      assert r[..|seen|] == r[..|next|][..|seen|];
      forall x ensures x in s <==> x == s[0] || x in s[1..] {
        assert s == [s[0]] + s[1..];
      }
    }
  }

  /** On a duplicate-free `seen`, the scan is the same as skipping what `seen` already holds. */
  lemma {:induction false} UniqIntoSkipsSeen<T>(seen: seq<T>, pre: seq<T>, s: seq<T>)
    requires forall x :: x in pre ==> x in seen
    ensures UniqInto(seen, pre + s) == UniqInto(seen, s)
    decreases |pre|
  {
    if |pre| > 0 {
      assert (pre + s)[0] == pre[0] && pre[0] in seen;
      assert (pre + s)[1..] == pre[1..] + s;
      UniqIntoSkipsSeen(seen, pre[1..], s);
    } else {
      assert pre + s == s;
    }
  }

  lemma {:induction false} UniqIntoKeepsNoDups<T>(s: seq<T>, n: nat)
    requires NoDups(s) && n <= |s|
    ensures UniqInto(s[..n], s[n..]) == s
    decreases |s| - n
  {
    if n < |s| {
      assert s[n] !in s[..n];
      assert s[..n] + [s[n]] == s[..n + 1];
      assert s[n..][1..] == s[n + 1..];
      UniqIntoKeepsNoDups(s, n + 1);
    } else {
      assert s[..n] == s;
    }
  }

  /**
   * The order-preserving union: when `a` has no duplicates, its entries keep
   * their positions, the result has no duplicates, and it holds exactly the
   * elements of `a` and `b`.
   */
  lemma UnionSpec<T>(a: seq<T>, b: seq<T>)
    requires NoDups(a)
    ensures var r := Union(a, b);
      && NoDups(r)
      && |r| >= |a| && r[..|a|] == a
      && (forall x :: x in r <==> x in a || x in b)
  {
    UniqIntoPrefix([], a, b);
    UniqIntoKeepsNoDups(a, 0);
    assert a[..0] == [] && a[0..] == a;
    UniqIntoSpec(a, b);
  }

  lemma {:induction false} UniqIntoPrefix<T>(seen: seq<T>, a: seq<T>, b: seq<T>)
    ensures UniqInto(seen, a + b) == UniqInto(UniqInto(seen, a), b)
    decreases |a|
  {
    if |a| > 0 {
      assert (a + b)[0] == a[0];
      assert (a + b)[1..] == a[1..] + b;
      UniqIntoPrefix(if a[0] in seen then seen else seen + [a[0]], a[1..], b);
    } else {
      assert a + b == b;
    }
  }

  /** A union with nothing new leaves a duplicate-free list as it is. */
  lemma UnionNone<T>(a: seq<T>)
    requires NoDups(a)
    ensures Union(a, []) == a
  {
    UniqIntoKeepsNoDups(a, 0);
    assert a[..0] == [] && a[0..] == a;
    assert a + [] == a;
  }

  /**
   * Entries of the second list are appended in their own order: one more
   * entry is added at the end unless it is already there.
   */
  lemma UnionAppend<T>(a: seq<T>, b: seq<T>, x: T)
    ensures Union(a, b + [x]) == if x in Union(a, b) then Union(a, b) else Union(a, b) + [x]
  {
    assert a + (b + [x]) == (a + b) + [x];
    UniqIntoPrefix([], a + b, [x]);
    var r := Union(a, b);
    assert UniqInto(r, [x]) == UniqInto(if x in r then r else r + [x], []);
  }

  /** Taking the union again with the same new entries changes nothing. */
  lemma UnionIdempotent<T>(a: seq<T>, b: seq<T>)
    requires NoDups(a)
    ensures Union(Union(a, b), b) == Union(a, b)
  {
    var r := Union(a, b);
    UnionSpec(a, b);
    UniqIntoKeepsNoDups(r, 0);
    assert r[..0] == [] && r[0..] == r;
    UniqIntoPrefix([], r, b);
    UniqIntoSkipsSeen(r, b, []);
    assert b + [] == b;
  }
}
