/**
 * The version helpers: the package version, the `tag-short` git version,
 * the latest deployed release, and the handler that forwards the combined
 * version record. The git and Heroku lookups themselves are callbacks whose
 * results arrive here as parameters.
 */
module Version {
  import opened Js
  import Text

  /** `typeof v === 'object'`: null and every object that is not a function. */
  predicate TypeofObject(v: JsValue) {
    v.Null? || v.Arr? || v.Obj? || v.ErrorObj? || v.Svm?
  }

  /**
   * `versionFromPackageJson(pkgJson)`: the `version` of a package record
   * when that is truthy, and null otherwise (also for anything that is not
   * an object).
   */
  function VersionFromPackageJson(pkg: JsValue): (v: JsValue)
    ensures v == Null || Truthy(v)
    ensures !pkg.Obj? ==> v == Null
    ensures pkg.Obj? && Truthy(Lookup(pkg.props, "version")) ==> v == Lookup(pkg.props, "version")
    ensures pkg.Obj? && !Truthy(Lookup(pkg.props, "version")) ==> v == Null
  {
    var version := if Truthy(pkg) && TypeofObject(pkg) then Get(pkg, "version") else Null;
    if Truthy(version) then version else Null
  }

  /** `packageVersion(callback)` for the loaded `package.json`: never an error. */
  function PackageVersion(pkg: JsValue): (c: Call)
    ensures c.err == Null
    ensures c.res == Null || (pkg.Obj? && c.res == Lookup(pkg.props, "version"))
  {
    Call(Null, VersionFromPackageJson(pkg))
  }

  /**
   * `buildVersionHandler(callback)(err, results)`: never an error (a git
   * error is only logged); the version is `gitTag + '-' + gitShort` when the
   * results and both parts are present, and null otherwise.
   */
  function BuildVersionHandler(err: JsValue, results: JsValue): (c: Call)
    ensures c.err == Null
    ensures var tag := Get(results, "gitTag"); var short := Get(results, "gitShort");
      && (!Truthy(results) || !Truthy(tag) || !Truthy(short) ==> c.res == Null)
      && (Truthy(results) && Truthy(tag) && Truthy(short) ==>
            c.res == Str(ToString(tag) + "-" + ToString(short)))
  {
    if !Truthy(results) || !Truthy(Get(results, "gitTag")) || !Truthy(Get(results, "gitShort")) then Call(Null, Null)
    else
      var parts := [Get(results, "gitTag"), Get(results, "gitShort")];
      assert parts[1..] == [parts[1]];
      assert JoinValues([parts[1]], "-") == JoinPiece(parts[1]) == ToString(parts[1]);
      assert JoinPiece(parts[0]) == ToString(parts[0]);
      Call(Null, Str(JoinValues(parts, "-")))
  }

  /** With a string tag and short hash, the git version is `tag-short`. */
  lemma GitVersionOfStrings(tag: string, short: string)
    requires |tag| > 0 && |short| > 0
    ensures BuildVersionHandler(Null, Obj([Prop("gitTag", Str(tag)), Prop("gitShort", Str(short))]))
              == Call(Null, Str(tag + "-" + short))
  {
    var results := Obj([Prop("gitTag", Str(tag)), Prop("gitShort", Str(short))]);
    assert Get(results, "gitTag") == Str(tag);
    assert "gitTag"[3] != "gitShort"[3];
    assert results.props[1..] == [Prop("gitShort", Str(short))];
    assert Lookup(results.props[1..], "gitShort") == Str(short);
    assert Get(results, "gitShort") == Str(short);
  }

  /** The short commit hash is the last `-` segment of `tag-short`. */
  lemma GitVersionEndsWithShort(tag: string, short: string)
    requires '-' !in short
    ensures Text.Split(tag + "-" + short, '-') == Text.Split(tag, '-') + [short]
  {
    assert tag + "-" + short == tag + ['-'] + short;
    Text.SplitAppend(tag, short, '-');
    Text.SplitNoSeparator(short, '-');
  }

  /** `jsonHandler(callback)(err, versionInfo)`: an error alone, or the record unchanged. */
  function JsonHandler(err: JsValue, versionInfo: JsValue): (c: Call)
    ensures Truthy(err) ==> c == Call(err, Undefined)
    ensures !Truthy(err) ==> c == Call(Null, versionInfo)
  {
    if Truthy(err) then Call(err, Undefined) else Call(Null, versionInfo)
  }

  // ---------------------------------------------------------------------------
  // deployedVersionHandler
  // ---------------------------------------------------------------------------

  /** A release's numeric `version` (0 stands in when it has none). */
  function VersionOf(rel: JsValue): int {
    var v := Get(rel, "version");
    if v.Num? then v.n else 0
  }

  predicate HasNumericVersion(rel: JsValue) {
    Get(rel, "version").Num?
  }

  /** A release whose `description` is a string containing "Deploy". */
  predicate IsDeploy(rel: JsValue): (r: bool)
    ensures r <==> Get(rel, "description").Str? && exists i :: Text.OccursAt(Get(rel, "description").s, "Deploy", i)
  {
    var d := Get(rel, "description");
    if d.Str? then
      Text.ContainsIff(d.s, "Deploy");
      Text.Contains(d.s, "Deploy")
    else false
  }

  /** Some release is a deploy. */
  predicate HasDeploy(releases: seq<JsValue>) {
    exists r :: r in releases && IsDeploy(r)
  }

  /** `r` is a deploy release, and no deploy release has a higher version. */
  predicate IsLatestDeploy(releases: seq<JsValue>, r: JsValue) {
    && r in releases && IsDeploy(r)
    && forall x :: x in releases && IsDeploy(x) ==> VersionOf(x) <= VersionOf(r)
  }

  /** `s` is in descending order of `key`. */
  predicate SortedDesc(s: seq<JsValue>, key: JsValue -> int) {
    forall i, j :: 0 <= i < j < |s| ==> key(s[i]) >= key(s[j])
  }

  /** The fields reported for the deployed release. */
  const ReleaseKeys := ["version", "description", "created_at", "updated_at"]

  /**
   * `_.pick(v, keys)`: the listed properties the object has, in the order of
   * `keys`; nothing from a non-object (`_.pick(undefined, ...)` is `{}`).
   */
  function Pick(v: JsValue, keys: seq<string>): (r: seq<Prop>)
    ensures |r| <= |keys|
    ensures forall i :: 0 <= i < |r| ==>
      && v.Obj? && r[i].key in keys && r[i].key in KeyNames(v.props)
      && r[i].val == Lookup(v.props, r[i].key)
  {
    if |keys| == 0 || !v.Obj? then []
    else
      var rest := Pick(v, keys[1..]);
      if keys[0] in KeyNames(v.props) then
        var r := [Prop(keys[0], Lookup(v.props, keys[0]))] + rest;
        assert forall i :: 1 <= i < |r| ==> r[i] == rest[i - 1] && rest[i - 1].key in keys[1..];
        r
      else
        assert forall i :: 0 <= i < |rest| ==> rest[i].key in keys[1..];
        rest
  }

  /** `_.pick` leaves out no listed key the object has. */
  lemma {:induction false} PickKeepsListed(v: JsValue, keys: seq<string>, k: string)
    requires v.Obj? && k in keys && k in KeyNames(v.props)
    ensures k in KeyNames(Pick(v, keys))
  {
    var r := Pick(v, keys);
    if keys[0] == k {
      assert r[0].key == k;
    } else {
      assert k in keys[1..];
      PickKeepsListed(v, keys[1..], k);
      var rest := Pick(v, keys[1..]);
      if keys[0] in KeyNames(v.props) {
        assert KeyNames(r) == [keys[0]] + KeyNames(rest);
      } else {
        assert r == rest;
      }
    }
  }

  /**
   * `releases.sort((a, b) => b.version - a.version)` with `key` the version:
   * in place, by descending key (insertion sort; ties keep no particular order).
   */
  method SortDesc(a: array<JsValue>, key: JsValue -> int)
    modifies a
    ensures SortedDesc(a[..], key)
    ensures multiset(a[..]) == old(multiset(a[..]))
  {
    var i := 0;
    while i < a.Length
      invariant 0 <= i <= a.Length
      invariant SortedDesc(a[..i], key)
      invariant multiset(a[..]) == old(multiset(a[..]))
    {
      InsertNext(a, i, key);
      i := i + 1;
    }
    assert a[..] == a[..a.Length];
  }

  /**
   * The state of an insertion step on `s`: the element being inserted sits at
   * `j`, everything else up to `i` is in descending order, and the element at
   * `j` has a larger key than everything after it up to `i`.
   */
  predicate Inserting(s: seq<JsValue>, i: nat, j: nat, key: JsValue -> int) {
    && j <= i < |s|
    && (forall k, l :: 0 <= k < l <= i && k != j && l != j ==> key(s[k]) >= key(s[l]))
    && (forall l :: j < l <= i ==> key(s[j]) > key(s[l]))
  }

  /** Inserting starts with the new element at the end of a sorted prefix. */
  lemma InsertingStart(s: seq<JsValue>, i: nat, key: JsValue -> int)
    requires i < |s| && SortedDesc(s[..i], key)
    ensures Inserting(s, i, i, key)
  {
    forall k, l | 0 <= k < l <= i && k != i && l != i ensures key(s[k]) >= key(s[l]) {
      assert s[k] == s[..i][k] && s[l] == s[..i][l];
    }
  }

  /** Swapping the inserted element with a smaller left neighbour keeps the insertion state. */
  lemma InsertingSwap(s: seq<JsValue>, i: nat, j: nat, key: JsValue -> int)
    requires Inserting(s, i, j, key) && 0 < j && key(s[j - 1]) < key(s[j])
    ensures Inserting(s[j - 1 := s[j]][j := s[j - 1]], i, j - 1, key)
  {
    var t := s[j - 1 := s[j]][j := s[j - 1]];
    forall k, l | 0 <= k < l <= i && k != j - 1 && l != j - 1 ensures key(t[k]) >= key(t[l]) {
      if l == j {
        assert t[l] == s[j - 1];
        if k < j - 1 {
          assert key(s[k]) >= key(s[j - 1]);
        }
      } else if k == j {
        assert t[k] == s[j - 1] && key(s[j - 1]) < key(s[j]) && key(s[j]) > key(s[l]);
        assert key(s[j - 1]) >= key(s[l]);
      }
    }
    forall l | j - 1 < l <= i ensures key(t[j - 1]) > key(t[l]) {
      if l == j {
        assert t[l] == s[j - 1];
      }
    }
  }

  /** When the inserted element has no smaller left neighbour, the prefix up to `i` is sorted. */
  lemma InsertingDone(s: seq<JsValue>, i: nat, j: nat, key: JsValue -> int)
    requires Inserting(s, i, j, key) && (j == 0 || key(s[j - 1]) >= key(s[j]))
    ensures SortedDesc(s[..i + 1], key)
  {
    forall k, l | 0 <= k < l <= i ensures key(s[k]) >= key(s[l]) {
      if l == j && k < j - 1 {
        assert key(s[k]) >= key(s[j - 1]);
      }
    }
  }

  /** Swaps `a[j]` with its left neighbour. */
  method SwapLeft(a: array<JsValue>, j: nat)
    requires 0 < j < a.Length
    modifies a
    ensures a[..] == old(a[..])[j - 1 := old(a[j])][j := old(a[j - 1])]
    ensures multiset(a[..]) == old(multiset(a[..]))
  {
    a[j - 1], a[j] := a[j], a[j - 1];
  }

  /** One insertion step: moves `a[i]` left past every element of smaller key. */
  method InsertNext(a: array<JsValue>, i: nat, key: JsValue -> int)
    requires i < a.Length && SortedDesc(a[..i], key)
    modifies a
    ensures SortedDesc(a[..i + 1], key)
    ensures multiset(a[..]) == old(multiset(a[..]))
    ensures forall k :: i < k < a.Length ==> a[k] == old(a[k])
  {
    InsertingStart(a[..], i, key);
    var j: nat := i;
    while 0 < j && key(a[j - 1]) < key(a[j])
      invariant Inserting(a[..], i, j, key)
      invariant multiset(a[..]) == old(multiset(a[..]))
      invariant forall k :: i < k < a.Length ==> a[k] == old(a[k])
    {
      InsertingSwap(a[..], i, j, key);
      SwapLeft(a, j);
      j := j - 1;
    }
    InsertingDone(a[..], i, j, key);
  }

  /** `_.find`: the position of the first element `p` accepts, or the length when there is none. */
  method FindFirst(a: array<JsValue>, p: JsValue -> bool) returns (k: nat)
    ensures k <= a.Length
    ensures forall m :: 0 <= m < k ==> !p(a[m])
    ensures k < a.Length ==> p(a[k])
  {
    k := 0;
    while k < a.Length && !p(a[k])
      invariant k <= a.Length
      invariant forall m :: 0 <= m < k ==> !p(a[m])
    {
      k := k + 1;
    }
  }

  /** In a list sorted by descending key, the first accepted element has the largest key of all accepted ones. */
  lemma FirstMatchHasLargestKey(s: seq<JsValue>, key: JsValue -> int, p: JsValue -> bool, k: nat)
    requires SortedDesc(s, key) && k < |s| && p(s[k])
    requires forall m :: 0 <= m < k ==> !p(s[m])
    ensures forall x :: x in s && p(x) ==> key(x) <= key(s[k])
  {
    forall x | x in s && p(x) ensures key(x) <= key(s[k]) {
      var m :| 0 <= m < |s| && s[m] == x;
      assert k <= m;
    }
  }

  /** A reordering keeps the deploy releases and which of them is the latest. */
  lemma ReorderKeepsLatestDeploy(items: seq<JsValue>, sorted: seq<JsValue>, r: JsValue)
    requires multiset(items) == multiset(sorted)
    ensures HasDeploy(items) <==> HasDeploy(sorted)
    ensures IsLatestDeploy(items, r) <==> IsLatestDeploy(sorted, r)
  {
    assert forall x :: x in items <==> x in multiset(items);
    assert forall x :: x in sorted <==> x in multiset(sorted);
  }

  /** When the search found nothing, there is no deploy release. */
  lemma NoneFoundNoDeploy(sorted: seq<JsValue>)
    requires forall m :: 0 <= m < |sorted| ==> !IsDeploy(sorted[m])
    ensures !HasDeploy(sorted)
  {
  }

  /**
   * `deployedVersionHandler(callback)(err, releases)`: an error or a
   * non-array answers `(null, null)`; otherwise the answer is never an
   * error, and it is the picked fields of a deploy release of the highest
   * version, or `{}` when there is no deploy release.
   */
  method DeployedVersionHandler(err: JsValue, releases: JsValue) returns (c: Call)
    requires releases.Arr? ==> forall i :: 0 <= i < |releases.items| ==> HasNumericVersion(releases.items[i])
    ensures Truthy(err) || !releases.Arr? ==> c == Call(Null, Null)
    ensures !Truthy(err) && releases.Arr? ==> c.err == Null && c.res.Obj?
    ensures !Truthy(err) && releases.Arr? && !HasDeploy(releases.items) ==> c.res == Obj([])
    ensures !Truthy(err) && releases.Arr? && HasDeploy(releases.items) ==>
      exists r :: IsLatestDeploy(releases.items, r) && c.res == Obj(Pick(r, ReleaseKeys))
  {
    if Truthy(err) || !IsArray(releases) {
      return Call(Null, Null);
    }
    var items := releases.items;
    var a := new JsValue[|items|](i requires 0 <= i < |items| => items[i]);
    assert a[..] == items;
    SortDesc(a, VersionOf);
    var k := FindFirst(a, IsDeploy);
    if k == a.Length {
      NoneFoundNoDeploy(a[..]);
      ReorderKeepsLatestDeploy(items, a[..], Undefined);
      return Call(Null, Obj(Pick(Undefined, ReleaseKeys)));
    }
    var release := a[k];
    FirstMatchHasLargestKey(a[..], VersionOf, IsDeploy, k);
    assert IsLatestDeploy(a[..], release);
    ReorderKeepsLatestDeploy(items, a[..], release);
    c := Call(Null, Obj(Pick(release, ReleaseKeys)));
  }
}
