/**
 * `_parse_www_auth`: the parameters of a `WWW-Authenticate` challenge such
 * as `Bearer realm="https://auth.example",service="registry"`. The text
 * after the first space, up to the next space, is split at `,` and each
 * item at `=`; the key is the text before the first `=`, the value the
 * text between the first and the second `=` with surrounding `"` removed.
 * A challenge without a space, or an item without `=`, is the IndexError
 * of the source, modelled as `None`.
 */
module WwwAuth {
  import opened Wrappers
  import opened Text

  /** One `key=value` item, or `None` when it has no `=`. */
  function ParseParam(item: string): (r: Option<(string, string)>)
    ensures r.Some? <==> '=' in item
    ensures r.Some? ==> var y := Split(item, '=');
      |y| >= 2 && r.value == (y[0], Strip(y[1], '"'))
    ensures r.Some? ==> var key := r.value.0;
      && '=' !in key
      && |key| < |item|
      && item[..|key|] == key
      && item[|key|] == '='
    ensures r.Some? ==> var value := r.value.1;
      && '=' !in value
      && (value == [] || (value[0] != '"' && value[|value| - 1] != '"'))
  {
    var y := Split(item, '=');
    SplitSeveral(item, '=');
    if |y| < 2 then None
    else
      assert Join(y, '=') == y[0] + ['='] + Join(y[1..], '=');
      var value := Strip(y[1], '"');
      assert '=' !in value by {
        var i :| StrippedAt(y[1], '"', i, value);
        assert forall k :: 0 <= k < |value| ==> value[k] == y[1][i + k];
      }
      Some((y[0], value))
  }

  /**
   * The value ends at the second `=`: whatever follows it in the item is
   * dropped, so `realm="https://h/token?a=b"` reads as `https://h/token?a`.
   */
  lemma ValueEndsAtSecondEquals(key: string, value: string, rest: string)
    requires '=' !in key && '=' !in value
    ensures ParseParam(key + ['='] + value + ['='] + rest) == Some((key, Strip(value, '"')))
  {
    var item := key + ['='] + value + ['='] + rest;
    SplitTwoParts(key, value, rest, '=');
    assert item[|key|] == '=';
  }

  /** Every element mapped by `f`, in order, or `None` at the first element `f` refuses. */
  function MapAll<A, B>(xs: seq<A>, f: A -> Option<B>): (r: Option<seq<B>>)
    ensures r.Some? <==> forall i :: 0 <= i < |xs| ==> f(xs[i]).Some?
    ensures r.Some? ==> |r.value| == |xs|
    ensures r.Some? ==> forall i :: 0 <= i < |xs| ==> f(xs[i]) == Some(r.value[i])
    decreases |xs|
  {
    if xs == [] then Some([])
    else
      var init := xs[..|xs| - 1];
      assert forall i :: 0 <= i < |init| ==> init[i] == xs[i];
      match MapAll(init, f)
      case None => None
      case Some(ys) =>
        match f(xs[|xs| - 1])
        case None => None
        case Some(y) =>
          var all := ys + [y];
          assert forall i :: 0 <= i < |ys| ==> all[i] == ys[i];
          Some(all)
  }

  /** The list comprehension over the items: every item parsed, or `None` if one has no `=`. */
  function ParseParams(items: seq<string>): (r: Option<seq<(string, string)>>)
    ensures r.Some? <==> forall i :: 0 <= i < |items| ==> '=' in items[i]
    ensures r.Some? ==> |r.value| == |items|
    ensures r.Some? ==> forall i :: 0 <= i < |items| ==> ParseParam(items[i]) == Some(r.value[i])
  {
    MapAll(items, ParseParam)
  }

  /** `dict(pairs)`: the pairs entered in order, a later key replacing an earlier one. */
  function DictOf(pairs: seq<(string, string)>): map<string, string>
    decreases |pairs|
  {
    if pairs == [] then map[]
    else
      var last := pairs[|pairs| - 1];
      DictOf(pairs[..|pairs| - 1])[last.0 := last.1]
  }

  /** The keys of `dict(pairs)` are exactly the keys of the pairs. */
  lemma {:induction false} DictOfKeys(pairs: seq<(string, string)>, k: string)
    ensures k in DictOf(pairs) <==> exists i :: 0 <= i < |pairs| && pairs[i].0 == k
    decreases |pairs|
  {
    if pairs != [] {
      var init := pairs[..|pairs| - 1];
      DictOfKeys(init, k);
      if k in DictOf(init) {
        var i :| 0 <= i < |init| && init[i].0 == k;
        assert pairs[i].0 == k;
      }
      if exists i :: 0 <= i < |pairs| && pairs[i].0 == k {
        var i :| 0 <= i < |pairs| && pairs[i].0 == k;
        if i < |init| {
          assert init[i].0 == k;
        }
      }
    }
  }

  /** The value of a key is that of the last pair with that key. */
  lemma {:induction false} DictOfLast(pairs: seq<(string, string)>, i: nat)
    requires i < |pairs| && LastWithKey(pairs, i)
    ensures pairs[i].0 in DictOf(pairs) && DictOf(pairs)[pairs[i].0] == pairs[i].1
    decreases |pairs|
  {
    if i < |pairs| - 1 {
      var init := pairs[..|pairs| - 1];
      assert init[i] == pairs[i];
      assert LastWithKey(init, i) by {
        forall j | i < j < |init|
          ensures init[j].0 != init[i].0
        {
          assert init[j] == pairs[j];
        }
      }
      DictOfLast(init, i);
    }
  }

  /** No pair after the `i`-th has its key. */
  predicate LastWithKey(pairs: seq<(string, string)>, i: int)
    requires 0 <= i < |pairs|
  {
    forall j :: i < j < |pairs| ==> pairs[j].0 != pairs[i].0
  }

  /** `_parse_www_auth(s)`. */
  function ParseWwwAuth(s: string): (r: Option<map<string, string>>)
    ensures r.Some? <==> ' ' in s && forall i :: 0 <= i < |Items(s)| ==> '=' in Items(s)[i]
    ensures r.Some? ==> r == Some(DictOf(ParseParams(Items(s)).value))
  {
    SplitSeveral(s, ' ');
    var words := Split(s, ' ');
    if |words| < 2 then None
    else
      assert Items(s) == Split(words[1], ',');
      match ParseParams(Split(words[1], ','))
      case None => None
      case Some(pairs) => Some(DictOf(pairs))
  }

  /** The comma-separated items of the second word, or nothing when there is no second word. */
  function Items(s: string): seq<string>
  {
    var words := Split(s, ' ');
    if |words| < 2 then [] else Split(words[1], ',')
  }

  /** Only the second word is read: a space ends the parameters. */
  lemma SecondWordOnly(scheme: string, body: string, rest: string)
    requires ' ' !in scheme && ' ' !in body
    ensures ParseWwwAuth(scheme + " " + body + " " + rest) == ParseWwwAuth(scheme + " " + body)
  {
    SplitAfterPart(scheme, ' ', body + " " + rest);
    SplitAfterPart(body, ' ', rest);
    assert scheme + " " + body + " " + rest == scheme + [' '] + (body + [' '] + rest);
    SplitPair(scheme, ' ', body);
  }

  /** The challenge text for a scheme and parameters, every value quoted. */
  function Challenge(scheme: string, params: seq<(string, string)>): string
  {
    scheme + [' '] + Join(seq(|params|, i requires 0 <= i < |params| => Quoted(params[i])), ',')
  }

  /** `key="value"`. */
  function Quoted(param: (string, string)): string
  {
    param.0 + ['='] + (['"'] + param.1 + ['"'])
  }

  /** A parameter that survives the round trip: no separator inside, no quote at either end of the value. */
  predicate PlainParam(param: (string, string))
  {
    && ' ' !in param.0 && ',' !in param.0 && '=' !in param.0
    && ' ' !in param.1 && ',' !in param.1 && '=' !in param.1
    && (param.1 == [] || (param.1[0] != '"' && param.1[|param.1| - 1] != '"'))
  }

  /** A plain parameter, quoted, parses back to itself. */
  lemma QuotedParses(param: (string, string))
    requires PlainParam(param)
    ensures ' ' !in Quoted(param) && ',' !in Quoted(param)
    ensures ParseParam(Quoted(param)) == Some(param)
  {
    var (k, v) := param;
    var q := ['"'] + v + ['"'];
    var item := Quoted(param);
    assert item == k + ['='] + q;
    assert '=' !in q && ' ' !in q && ',' !in q by {
      assert forall j :: 0 <= j < |q| ==> q[j] == '"' || q[j] in v;
    }
    SplitPair(k, '=', q);
    StripQuoted(v, '"');
    assert Split(item, '=')[1] == q;
  }

  /**
   * Parsing a challenge built from a scheme and at least one plain
   * parameter gives the dictionary of those parameters.
   */
  lemma ChallengeRoundTrip(scheme: string, params: seq<(string, string)>)
    requires ' ' !in scheme
    requires |params| >= 1
    requires forall i :: 0 <= i < |params| ==> PlainParam(params[i])
    ensures ParseWwwAuth(Challenge(scheme, params)) == Some(DictOf(params))
  {
    var items := seq(|params|, i requires 0 <= i < |params| => Quoted(params[i]));
    forall i | 0 <= i < |items|
      ensures ' ' !in items[i] && ',' !in items[i]
      ensures ParseParam(items[i]) == Some(params[i])
    {
      QuotedParses(params[i]);
    }
    var body := Join(items, ',');
    JoinAvoids(items, ',', ' ');
    SplitPair(scheme, ' ', body);
    SplitJoin(items, ',');
    MapAllIs(items, ParseParam, params);
  }

  /** Mapping succeeds with `ys` when every element maps to its counterpart in `ys`. */
  lemma MapAllIs<A, B>(xs: seq<A>, f: A -> Option<B>, ys: seq<B>)
    requires |xs| == |ys|
    requires forall i :: 0 <= i < |xs| ==> f(xs[i]) == Some(ys[i])
    ensures MapAll(xs, f) == Some(ys)
  {
    var r := MapAll(xs, f);
    assert r.Some?;
    assert r.value == ys;
  }
}
