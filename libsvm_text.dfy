/**
 * The reader for the LIBSVM sparse text format, `<class> <idx>:<val> ...`
 * one example per line, shared (in identical form) by the evaluation script
 * and the a1a script. Each line becomes `[features, class]`: the class is the
 * first space-separated token, and the features are the indices in front of
 * the `:` of the remaining tokens; the values are dropped.
 */
module LibSvmText {
  import opened Js
  import Text

  /** One parsed line: `[fts, cls]`. */
  datatype Example = Example(features: seq<string>, cls: string)

  /** A string is truthy when it is not empty. */
  predicate NonEmpty(x: string) { |x| > 0 }

  /** `_.compact(fObjs.map(x => x.split(':')[0]))`: the non-empty texts before the first `:`. */
  function FeatureNames(tokens: seq<string>): (r: seq<string>)
    ensures forall i :: 0 <= i < |r| ==> |r[i]| > 0 && ':' !in r[i]
  {
    var names := seq(|tokens|, i requires 0 <= i < |tokens| => Text.Before(tokens[i], ':'));
    var r := Filter(names, NonEmpty);
    assert forall i :: 0 <= i < |r| ==> r[i] in names;
    r
  }

  /** The names of consecutive tokens are the names of each part, in order. */
  lemma FeatureNamesAppend(a: seq<string>, b: seq<string>)
    ensures FeatureNames(a + b) == FeatureNames(a) + FeatureNames(b)
  {
    var ab := a + b;
    var na := seq(|a|, i requires 0 <= i < |a| => Text.Before(a[i], ':'));
    var nb := seq(|b|, i requires 0 <= i < |b| => Text.Before(b[i], ':'));
    var nab := seq(|ab|, i requires 0 <= i < |ab| => Text.Before(ab[i], ':'));
    assert nab == na + nb;
    FilterAppend(na, nb, NonEmpty);
  }

  /** A single token gives its text before `:`, unless that is empty. */
  lemma FeatureNamesOne(t: string)
    ensures FeatureNames([t]) == if Text.Before(t, ':') == "" then [] else [Text.Before(t, ':')]
  {
    var names := seq(1, i requires 0 <= i < 1 => Text.Before([t][i], ':'));
    assert names == [Text.Before(t, ':')];
    assert Filter(names[1..], NonEmpty) == [];
  }

  /**
   * One line: the class is the text before the first space (the whole line
   * when there is none, "" for an empty line), and the features come from the
   * remaining space-separated tokens, in order.
   */
  function ParseLine(row: string): (e: Example)
    ensures e.cls == Text.Before(row, ' ') && ' ' !in e.cls
    ensures forall i :: 0 <= i < |e.features| ==> |e.features[i]| > 0 && ':' !in e.features[i]
  {
    var els := Text.Split(row, ' ');
    Example(FeatureNames(els[1..]), els[0])
  }

  /**
   * `data.split("\n").map(...)`: one example per line, in line order. A
   * trailing newline yields a last example with no features and class "".
   */
  function ParseDataset(data: string): (r: seq<Example>)
    ensures |r| == |Text.Split(data, '\n')| >= 1
    ensures forall i :: 0 <= i < |r| ==> r[i] == ParseLine(Text.Split(data, '\n')[i])
  {
    var lines := Text.Split(data, '\n');
    seq(|lines|, i requires 0 <= i < |lines| => ParseLine(lines[i]))
  }

  // ---------------------------------------------------------------------------
  // The format as written, for the round trip
  // ---------------------------------------------------------------------------

  /** The tokens of a line: the class, then `<feature>:1` per feature. */
  function Tokens(e: Example): seq<string> {
    [e.cls] + seq(|e.features|, i requires 0 <= i < |e.features| => e.features[i] + ":1")
  }

  /** An example written as one line of the format. */
  function RenderLine(e: Example): string {
    Text.Join(Tokens(e), ' ')
  }

  /** An example that the format can carry: no separators inside the class or the feature names. */
  predicate WellFormed(e: Example) {
    && ' ' !in e.cls && '\n' !in e.cls
    && forall i :: 0 <= i < |e.features| ==>
         |e.features[i]| > 0 && ' ' !in e.features[i] && ':' !in e.features[i] && '\n' !in e.features[i]
  }

  /** No token of a well-formed example holds a space or a line break. */
  lemma TokensAvoidSeparators(e: Example)
    requires WellFormed(e)
    ensures forall i :: 0 <= i < |Tokens(e)| ==> ' ' !in Tokens(e)[i] && '\n' !in Tokens(e)[i]
  {
    var toks := Tokens(e);
    forall i | 0 <= i < |toks| ensures ' ' !in toks[i] && '\n' !in toks[i] {
      if i > 0 {
        var f := e.features[i - 1];
        assert toks[i] == f + ":1";
        assert forall c :: c in f + ":1" ==> c in f || c == ':' || c == '1';
      }
    }
  }

  /** The names before `:` of the written feature tokens are the features. */
  lemma FeatureTokensNames(e: Example)
    requires WellFormed(e)
    ensures FeatureNames(Tokens(e)[1..]) == e.features
  {
    var fts := Tokens(e)[1..];
    var names := seq(|fts|, i requires 0 <= i < |fts| => Text.Before(fts[i], ':'));
    forall i | 0 <= i < |names| ensures names[i] == e.features[i] {
      var f := e.features[i];
      assert fts[i] == f + [':'] + "1";
      Text.BeforeSeparator(f, "1", ':');
    }
    assert names == e.features;
    FilterKeepsAll(e.features, NonEmpty);
  }

  /** Reading a written line gives the example back. */
  lemma ParseRenderLine(e: Example)
    requires WellFormed(e)
    ensures ParseLine(RenderLine(e)) == e
    ensures '\n' !in RenderLine(e)
  {
    var toks := Tokens(e);
    TokensAvoidSeparators(e);
    Text.SplitJoin(toks, ' ');
    Text.JoinAvoids(toks, ' ', '\n');
    FeatureTokensNames(e);
  }

  // ---------------------------------------------------------------------------
  // Lines with values and extra spaces
  // ---------------------------------------------------------------------------

  /**
   * A token after the class as a writer may leave it: a feature with any
   * value (`3:1`, `7:0.5`), or nothing at all, which is what a doubled or a
   * trailing space produces.
   */
  datatype FeatureToken = Feature(name: string, value: string) | Gap

  function TokenText(t: FeatureToken): string {
    match t
    case Feature(name, value) => name + ":" + value
    case Gap => ""
  }

  function TokenTexts(ts: seq<FeatureToken>): (r: seq<string>)
    ensures |r| == |ts| && forall i :: 0 <= i < |ts| ==> r[i] == TokenText(ts[i])
  {
    seq(|ts|, i requires 0 <= i < |ts| => TokenText(ts[i]))
  }

  /** The feature names of the tokens, in order, skipping the gaps. */
  function TokenNames(ts: seq<FeatureToken>): seq<string> {
    if |ts| == 0 then []
    else if ts[0].Gap? then TokenNames(ts[1..])
    else [ts[0].name] + TokenNames(ts[1..])
  }

  /** A token the line can carry: a non-empty name without separators, a value without spaces. */
  predicate TokenWellFormed(t: FeatureToken) {
    t.Feature? ==>
      && |t.name| > 0 && ' ' !in t.name && ':' !in t.name && '\n' !in t.name
      && ' ' !in t.value && '\n' !in t.value
  }

  /** Reading the written tokens gives their names in order: values are dropped, gaps skipped. */
  lemma {:induction false} FeatureNamesOfTokens(ts: seq<FeatureToken>)
    requires forall i :: 0 <= i < |ts| ==> TokenWellFormed(ts[i])
    ensures FeatureNames(TokenTexts(ts)) == TokenNames(ts)
  {
    if |ts| > 0 {
      var t := ts[0];
      assert TokenTexts(ts) == [TokenText(t)] + TokenTexts(ts[1..]);
      FeatureNamesAppend([TokenText(t)], TokenTexts(ts[1..]));
      FeatureNamesOne(TokenText(t));
      FeatureNamesOfTokens(ts[1..]);
      if t.Feature? {
        Text.BeforeSeparator(t.name, t.value, ':');
        assert TokenText(t) == t.name + [':'] + t.value;
      } else {
        assert Text.Split("", ':') == [""];
      }
    }
  }

  /**
   * A line with a class followed by features with any values, and with extra
   * spaces anywhere after the class, reads as the class and the feature names.
   */
  lemma ParseSpacedLine(cls: string, ts: seq<FeatureToken>)
    requires ' ' !in cls
    requires forall i :: 0 <= i < |ts| ==> TokenWellFormed(ts[i])
    ensures ParseLine(Text.Join([cls] + TokenTexts(ts), ' ')) == Example(TokenNames(ts), cls)
  {
    var toks := [cls] + TokenTexts(ts);
    forall i | 0 <= i < |toks| ensures ' ' !in toks[i] {
      if i > 0 {
        var t := ts[i - 1];
        assert toks[i] == TokenText(t);
        if t.Feature? {
          assert forall c :: c in t.name + ":" + t.value ==> c in t.name || c == ':' || c in t.value;
        }
      }
    }
    Text.SplitJoin(toks, ' ');
    assert toks[1..] == TokenTexts(ts);
    FeatureNamesOfTokens(ts);
  }

  /** A whole file written from examples. */
  function RenderDataset(es: seq<Example>): string {
    Text.Join(seq(|es|, i requires 0 <= i < |es| => RenderLine(es[i])), '\n')
  }

  /** Reading a written file gives the examples back, one per line. */
  lemma ParseRenderDataset(es: seq<Example>)
    requires |es| >= 1
    requires forall i :: 0 <= i < |es| ==> WellFormed(es[i])
    ensures ParseDataset(RenderDataset(es)) == es
  {
    var lines := seq(|es|, i requires 0 <= i < |es| => RenderLine(es[i]));
    forall i | 0 <= i < |lines| ensures '\n' !in lines[i] && ParseLine(lines[i]) == es[i] {
      ParseRenderLine(es[i]);
    }
    Text.SplitJoin(lines, '\n');
  }
}
