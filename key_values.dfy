/**
  The `key=value` parser of the command line (`parse_key_values`).

  Each argument is split at its FIRST `=` (Rust's `splitn(2, '=')`); an argument
  with no `=` is dropped; the surviving pairs are collected into a map in input
  order, so a later duplicate key overwrites an earlier one. The parser is a
  left fold of `Step` over the arguments, starting from the empty map.
*/
module KeyValues {
  import opened Wrappers

  const Separator: char := '='

  /** Index of the first `=` in `s`, if any. */
  function FindSeparator(s: string): (r: Option<nat>)
    ensures r.None? <==> Separator !in s
    ensures r.Some? ==> r.value < |s| && s[r.value] == Separator && Separator !in s[..r.value]
  {
    if |s| == 0 then None
    else if s[0] == Separator then Some(0)
    else
      match FindSeparator(s[1..])
      case None => None
      case Some(i) =>
        assert s[..i + 1] == [s[0]] + s[1..][..i];
        Some(i + 1)
  }

  /**
    `splitn(2, '=')` followed by the match on its first two parts: `Some((key, value))`
    exactly when `s` holds a `=`, the key being everything before the first `=`
    and the value everything after it.
  */
  function SplitPair(s: string): (r: Option<(string, string)>)
    ensures r.Some? <==> Separator in s
    ensures r.Some? ==> s == r.value.0 + [Separator] + r.value.1 && Separator !in r.value.0
  {
    match FindSeparator(s)
    case None => None
    case Some(i) =>
      assert s == s[..i] + [Separator] + s[i + 1..];
      Some((s[..i], s[i + 1..]))
  }

  /** The key `s` contributes to the map, if it contributes one. */
  function KeyOf(s: string): (r: Option<string>)
    ensures r.Some? <==> Separator in s
    ensures r.Some? ==> Separator !in r.value && r.value < s
  {
    match SplitPair(s)
    case None => None
    case Some(kv) => Some(kv.0)
  }

  /**
    Inserting one argument into the map being collected: an argument with a `=`
    binds its key to its value, overwriting any earlier binding; every other key,
    and the whole map when the argument has no `=`, is left as it was.
  */
  function Step(acc: map<string, string>, s: string): (r: map<string, string>)
    ensures Separator !in s ==> r == acc
    ensures Separator in s ==> SplitPair(s).value.0 in r && r[SplitPair(s).value.0] == SplitPair(s).value.1
    ensures r.Keys == acc.Keys + (if Separator in s then {SplitPair(s).value.0} else {})
    ensures forall k :: k in acc && KeyOf(s) != Some(k) ==> r[k] == acc[k]
  {
    match SplitPair(s)
    case None => acc
    case Some(kv) => acc[kv.0 := kv.1]
  }

  /** Left fold of `Step` over `pairs`, starting from `acc`. */
  function FoldPairs(acc: map<string, string>, pairs: seq<string>): (r: map<string, string>)
    ensures acc.Keys <= r.Keys
    ensures |r| <= |acc| + |pairs|
    ensures forall k :: k in r && k !in acc ==> Separator !in k
    decreases |pairs|
  {
    if |pairs| == 0 then acc
    else
      var next := Step(acc, pairs[0]);
      assert |next| <= |acc| + 1 by {
        if SplitPair(pairs[0]).Some? {
          var k := SplitPair(pairs[0]).value.0;
          assert next.Keys == acc.Keys + {k};
        }
      }
      FoldPairs(next, pairs[1..])
  }

  /** `parse_key_values`: the map built from the command-line `key=value` arguments. */
  function ParseKeyValues(pairs: seq<string>): (r: map<string, string>)
    ensures |r| <= |pairs|
    ensures forall k :: k in r ==> Separator !in k
  {
    FoldPairs(map[], pairs)
  }

  /** The first `=` of a joined pair is the one just after a key free of `=`. */
  lemma {:induction false} SeparatorAfterKey(k: string, v: string)
    requires Separator !in k
    ensures FindSeparator(k + [Separator] + v) == Some(|k|)
  {
    if |k| > 0 {
      assert (k + [Separator] + v)[1..] == k[1..] + [Separator] + v;
      SeparatorAfterKey(k[1..], v);
    }
  }

  /** Splitting a joined pair gives back its parts whenever the key holds no `=`. */
  lemma SplitJoin(k: string, v: string)
    requires Separator !in k
    ensures SplitPair(k + [Separator] + v) == Some((k, v))
  {
    var s := k + [Separator] + v;
    SeparatorAfterKey(k, v);
    assert s[..|k|] == k && s[|k| + 1..] == v;
  }

  /** An argument `"=v"` keeps its empty key. */
  lemma EmptyKeyKept(v: string)
    ensures SplitPair([Separator] + v) == Some(("", v))
  {
    SplitJoin("", v);
    assert "" + [Separator] + v == [Separator] + v;
  }

  /** An argument `"k="` keeps its empty value. */
  lemma EmptyValueKept(k: string)
    requires Separator !in k
    ensures SplitPair(k + [Separator]) == Some((k, ""))
  {
    SplitJoin(k, "");
    assert k + [Separator] + "" == k + [Separator];
  }

  /** Folding over a concatenation folds over each part in turn. */
  lemma {:induction false} FoldAppend(acc: map<string, string>, a: seq<string>, b: seq<string>)
    ensures FoldPairs(acc, a + b) == FoldPairs(FoldPairs(acc, a), b)
    decreases |a|
  {
    if |a| == 0 {
      assert a + b == b;
    } else {
      assert (a + b)[0] == a[0];
      assert (a + b)[1..] == a[1..] + b;
      FoldAppend(Step(acc, a[0]), a[1..], b);
    }
  }

  /** Parsing one more argument applies one more `Step` to the map parsed so far. */
  lemma ParseSnoc(pairs: seq<string>, s: string)
    ensures ParseKeyValues(pairs + [s]) == Step(ParseKeyValues(pairs), s)
  {
    FoldAppend(map[], pairs, [s]);
    assert FoldPairs(Step(ParseKeyValues(pairs), s), []) == Step(ParseKeyValues(pairs), s);
  }

  /** An argument without `=` contributes nothing, wherever it stands. */
  lemma DropUnseparated(before: seq<string>, s: string, after: seq<string>)
    requires Separator !in s
    ensures ParseKeyValues(before + [s] + after) == ParseKeyValues(before + after)
  {
    FoldAppend(map[], before + [s], after);
    FoldAppend(map[], before, [s]);
    FoldAppend(map[], before, after);
  }

  /**
    The keys of the result are exactly the before-the-first-`=` prefixes of the
    arguments that hold a `=`.
  */
  lemma {:induction false} ParseKeys(pairs: seq<string>, k: string)
    ensures k in ParseKeyValues(pairs) <==>
            exists i :: 0 <= i < |pairs| && KeyOf(pairs[i]) == Some(k)
  {
    if |pairs| > 0 {
      var init, last := pairs[..|pairs| - 1], pairs[|pairs| - 1];
      assert pairs == init + [last];
      ParseSnoc(init, last);
      ParseKeys(init, k);
      if k in ParseKeyValues(pairs) && KeyOf(last) != Some(k) {
        var i :| 0 <= i < |init| && KeyOf(init[i]) == Some(k);
        assert pairs[i] == init[i];
      }
      if i :| 0 <= i < |pairs| && KeyOf(pairs[i]) == Some(k) {
        if i < |init| {
          assert init[i] == pairs[i];
        }
      }
    }
  }

  /**
    An argument whose key no later argument repeats decides that key's value:
    a later duplicate overwrites an earlier one.
  */
  lemma {:induction false} ParseLastWins(pairs: seq<string>, i: nat, k: string, v: string)
    requires i < |pairs| && SplitPair(pairs[i]) == Some((k, v))
    requires forall j :: i < j < |pairs| ==> KeyOf(pairs[j]) != Some(k)
    ensures k in ParseKeyValues(pairs) && ParseKeyValues(pairs)[k] == v
  {
    var init, last := pairs[..|pairs| - 1], pairs[|pairs| - 1];
    assert pairs == init + [last];
    ParseSnoc(init, last);
    if i < |init| {
      assert init[i] == pairs[i];
      assert KeyOf(last) != Some(k);
      ParseLastWins(init, i, k, v);
    }
  }

  /** Every value in the result comes from the last argument that carries its key. */
  lemma {:induction false} ParseValueFromLast(pairs: seq<string>, k: string) returns (i: nat)
    requires k in ParseKeyValues(pairs)
    ensures i < |pairs| && SplitPair(pairs[i]) == Some((k, ParseKeyValues(pairs)[k]))
    ensures forall j :: i < j < |pairs| ==> KeyOf(pairs[j]) != Some(k)
  {
    var init, last := pairs[..|pairs| - 1], pairs[|pairs| - 1];
    assert pairs == init + [last];
    ParseSnoc(init, last);
    if KeyOf(last) == Some(k) {
      i := |pairs| - 1;
    } else {
      i := ParseValueFromLast(init, k);
      assert pairs[i] == init[i];
      forall j | i < j < |pairs|
        ensures KeyOf(pairs[j]) != Some(k)
      {
        if j < |init| { assert pairs[j] == init[j]; }
      }
    }
  }

  /** A value may itself hold `=`: only the first `=` separates. */
  lemma ValueKeepsSeparators()
    ensures ParseKeyValues(["a=b=c"]) == map["a" := "b=c"]
  {
    SplitJoin("a", "b=c");
    assert "a" + [Separator] + "b=c" == "a=b=c";
  }

  /** Parsing one more argument that splits to `(k, v)` binds `k` to `v`. */
  lemma ParseSnocBinds(pairs: seq<string>, s: string, k: string, v: string)
    requires SplitPair(s) == Some((k, v))
    ensures ParseKeyValues(pairs + [s]) == ParseKeyValues(pairs)[k := v]
  {
    ParseSnoc(pairs, s);
  }

  /** A malformed argument is dropped and a later duplicate overwrites an earlier one. */
  lemma ParseOverwriteExample()
    ensures ParseKeyValues(["x=1", "flag", "x=2"]) == map["x" := "2"]
  {
    var p1, p2, p3 := "x=1", "flag", "x=2";
    assert ParseKeyValues([p1]) == map["x" := "1"] by {
      SplitJoin("x", "1");
      assert "x" + [Separator] + "1" == p1;
      assert [] + [p1] == [p1];
      ParseSnocBinds([], p1, "x", "1");
    }
    assert ParseKeyValues([p1, p2]) == map["x" := "1"] by {
      assert Separator !in p2;
      DropUnseparated([p1], p2, []);
      assert [p1] + [p2] + [] == [p1, p2] && [p1] + [] == [p1];
    }
    SplitJoin("x", "2");
    assert "x" + [Separator] + "2" == p3;
    assert [p1, p2] + [p3] == [p1, p2, p3];
    ParseSnocBinds([p1, p2], p3, "x", "2");
  }

  /** Empty keys and empty values are kept, malformed arguments dropped, later duplicates win. */
  lemma ParseExample()
    ensures ParseKeyValues(["x=1", "flag", "x=2", "=e", "k="]) == map["x" := "2", "" := "e", "k" := ""]
  {
    var p1, p2, p3, p4, p5 := "x=1", "flag", "x=2", "=e", "k=";
    assert ParseKeyValues([p1, p2, p3, p4]) == map["x" := "2", "" := "e"] by {
      ParseOverwriteExample();
      EmptyKeyKept("e");
      assert [Separator] + "e" == p4;
      assert [p1, p2, p3] + [p4] == [p1, p2, p3, p4];
      ParseSnocBinds([p1, p2, p3], p4, "", "e");
    }
    EmptyValueKept("k");
    assert "k" + [Separator] == p5;
    assert [p1, p2, p3, p4] + [p5] == [p1, p2, p3, p4, p5];
    ParseSnocBinds([p1, p2, p3, p4], p5, "k", "");
  }
}
