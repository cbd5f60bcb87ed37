/**
 * The two string combinators that assemble a regular expression during
 * state elimination: Kleene-star wrapping and alternation joining.
 * Both are total and side-effect free; lengths are counted in characters
 * (the labels are assumed to be ASCII, where characters and bytes agree).
 */
module Combinators {

  /**
   * Adds a Kleene star to `s`. `noWrap` is the optional flag of the source
   * (absent means false): the caller vouches that `s` is already an atomic
   * group, so no parentheses are added around it.
   *   AddKleenStar("", _)          == ""
   *   AddKleenStar("a", _)         == "a*"
   *   AddKleenStar("abc", false)   == "(abc)*"
   *   AddKleenStar("(abc|123)", true) == "(abc|123)*"
   */
  function AddKleenStar(s: string, noWrap: bool): (r: string)
    ensures r == "" <==> s == ""
    ensures s != "" ==> r[|r| - 1] == '*'
    // a one-character operand, or a flagged one, is starred bare ...
    ensures s != "" ==> (r == s + "*" <==> |s| == 1 || noWrap)
    // ... and every other non-empty operand is grouped first
    ensures s != "" ==> (r == "(" + s + ")*" <==> |s| > 1 && !noWrap)
  {
    if |s| == 0 then ""
    else if |s| == 1 then s + "*"
    else if noWrap then s + "*"
    else "(" + s + ")*"
  }

  /** Recovers the operand of a starred expression, given the flag it was built with. */
  function StarOperand(r: string, noWrap: bool): string
  {
    if r == "" then ""
    else if noWrap || |r| < 5 then r[..|r| - 1]
    else r[1..|r| - 2]
  }

  /** AddKleenStar loses no information: its operand can always be recovered. */
  lemma KleenStarRoundTrip(s: string, noWrap: bool)
    ensures StarOperand(AddKleenStar(s, noWrap), noWrap) == s
  {
    var r := AddKleenStar(s, noWrap);
    if |s| > 1 && !noWrap {
      assert r == "(" + s + ")*";
      assert r[1..|r| - 2] == s;
    } else if s != "" {
      assert r == s + "*";
      assert r[..|r| - 1] == s;
    }
  }

  /** The doc-comment examples of the source. */
  lemma KleenStarExamples()
    ensures AddKleenStar("", false) == ""
    ensures AddKleenStar("a", false) == "a*"
    ensures AddKleenStar("abc", false) == "(abc)*"
    ensures AddKleenStar("(abc|123)", true) == "(abc|123)*"
  {
  }

  /** The non-empty entries of `strs`, in their original order. */
  function NonEmpty(strs: seq<string>): (r: seq<string>)
    ensures |r| <= |strs|
    ensures forall i | 0 <= i < |r| :: r[i] != ""
    ensures forall s | s != "" :: multiset(r)[s] == multiset(strs)[s]
  {
    if strs == [] then []
    else
      var last := strs[|strs| - 1];
      assert strs == strs[..|strs| - 1] + [last];
      NonEmpty(strs[..|strs| - 1]) + (if last == "" then [] else [last])
  }

  /** Filtering keeps the relative order: it distributes over concatenation. */
  lemma {:induction false} NonEmptyAppend(a: seq<string>, b: seq<string>)
    ensures NonEmpty(a + b) == NonEmpty(a) + NonEmpty(b)
    decreases |b|
  {
    if b == [] {
      assert a + b == a;
    } else {
      var b' := b[..|b| - 1];
      assert (a + b)[..|a + b| - 1] == a + b';
      NonEmptyAppend(a, b');
    }
  }

  /** With no empty entry, filtering keeps every entry. */
  lemma {:induction false} NonEmptyKeepsAll(strs: seq<string>)
    requires forall i | 0 <= i < |strs| :: strs[i] != ""
    ensures NonEmpty(strs) == strs
    decreases |strs|
  {
    if strs != [] {
      NonEmptyKeepsAll(strs[..|strs| - 1]);
      assert strs[..|strs| - 1] + [strs[|strs| - 1]] == strs;
    }
  }

  /** The entries of `strs` joined with "|" between consecutive ones. */
  function Join(strs: seq<string>): (r: string)
    ensures strs == [] ==> r == ""
    ensures |strs| == 1 ==> r == strs[0]
  {
    if strs == [] then ""
    else if |strs| == 1 then strs[0]
    else Join(strs[..|strs| - 1]) + "|" + strs[|strs| - 1]
  }

  /** Splits `s` at every '|'; the inverse of Join on '|'-free entries. */
  function Split(s: string): (r: seq<string>)
    ensures |r| >= 1
  {
    if s == [] then [""]
    else if s[|s| - 1] == '|' then Split(s[..|s| - 1]) + [""]
    else
      var init := Split(s[..|s| - 1]);
      init[..|init| - 1] + [init[|init| - 1] + [s[|s| - 1]]]
  }

  predicate NoBar(s: string) { forall i | 0 <= i < |s| :: s[i] != '|' }

  lemma {:induction false} SplitNoBar(s: string)
    requires NoBar(s)
    ensures Split(s) == [s]
    decreases |s|
  {
    if s != [] {
      SplitNoBar(s[..|s| - 1]);
      assert s[..|s| - 1] + [s[|s| - 1]] == s;
    }
  }

  lemma {:induction false} SplitAppend(a: string, b: string)
    requires NoBar(b)
    ensures Split(a + "|" + b) == Split(a) + [b]
    decreases |b|
  {
    if b == [] {
      assert (a + "|" + b)[..|a + "|" + b| - 1] == a;
    } else {
      var b' := b[..|b| - 1];
      assert (a + "|" + b)[..|a + "|" + b| - 1] == a + "|" + b';
      SplitAppend(a, b');
      assert b' + [b[|b| - 1]] == b;
    }
  }

  /** Joining '|'-free entries can be undone by splitting at '|'. */
  lemma {:induction false} JoinSplitRoundTrip(strs: seq<string>)
    requires |strs| >= 1
    requires forall i | 0 <= i < |strs| :: NoBar(strs[i])
    ensures Split(Join(strs)) == strs
    decreases |strs|
  {
    if |strs| == 1 {
      SplitNoBar(strs[0]);
    } else {
      var init := strs[..|strs| - 1];
      JoinSplitRoundTrip(init);
      SplitAppend(Join(init), strs[|strs| - 1]);
      assert init + [strs[|strs| - 1]] == strs;
    }
  }

  /**
   * Joins `inputStrs` into an alternation, ignoring empty strings: nothing
   * left gives "", one survivor is returned as it is, and two or more are
   * separated by "|" inside one pair of parentheses.
   *   OrJoin(["a"])          == "a"
   *   OrJoin(["a", "b"])     == "(a|b)"
   *   OrJoin(["", "a", "b"]) == "(a|b)"
   */
  function OrJoin(inputStrs: seq<string>): (r: string)
    ensures r == "" <==> forall i | 0 <= i < |inputStrs| :: inputStrs[i] == ""
    ensures |NonEmpty(inputStrs)| == 1 ==> r == NonEmpty(inputStrs)[0]
    ensures |NonEmpty(inputStrs)| >= 2 ==> |r| >= 2 && r[0] == '(' && r[|r| - 1] == ')'
  {
    var strs := NonEmpty(inputStrs);
    NonEmptyIsEmpty(inputStrs);
    if |strs| == 0 then ""
    else if |strs| == 1 then strs[0]
    else "(" + Join(strs) + ")"
  }

  lemma {:induction false} NonEmptyIsEmpty(strs: seq<string>)
    ensures NonEmpty(strs) == [] <==> forall i | 0 <= i < |strs| :: strs[i] == ""
    decreases |strs|
  {
    if strs != [] {
      NonEmptyIsEmpty(strs[..|strs| - 1]);
      assert forall i | 0 <= i < |strs| - 1 :: strs[..|strs| - 1][i] == strs[i];
    }
  }

  /**
   * With two or more survivors the alternatives of OrJoin can be read back:
   * strip the parentheses and split at '|' (for labels without '|').
   */
  lemma OrJoinRoundTrip(inputStrs: seq<string>)
    requires |NonEmpty(inputStrs)| >= 2
    requires forall i | 0 <= i < |inputStrs| :: NoBar(inputStrs[i])
    ensures var r := OrJoin(inputStrs); Split(r[1..|r| - 1]) == NonEmpty(inputStrs)
  {
    var strs := NonEmpty(inputStrs);
    forall i | 0 <= i < |strs| ensures NoBar(strs[i]) {
      assert strs[i] in multiset(strs);
      assert strs[i] in multiset(inputStrs);
      var j :| 0 <= j < |inputStrs| && inputStrs[j] == strs[i];
    }
    JoinSplitRoundTrip(strs);
    var r := OrJoin(inputStrs);
    assert r == "(" + Join(strs) + ")";
    assert r[1..|r| - 1] == Join(strs);
  }

  /** Empty entries never matter to OrJoin, wherever they stand. */
  lemma OrJoinIgnoresEmpty(a: seq<string>, b: seq<string>)
    ensures OrJoin(a + [""] + b) == OrJoin(a + b)
  {
    NonEmptyAppend(a + [""], b);
    NonEmptyAppend(a, [""]);
    NonEmptyAppend(a, b);
    assert NonEmpty([""]) == [];
    assert NonEmpty(a + [""] + b) == NonEmpty(a + b);
  }

  /** The doc-comment examples of the source. */
  lemma OrJoinExamples()
    ensures OrJoin([]) == ""
    ensures OrJoin(["a"]) == "a"
    ensures OrJoin(["a", "b"]) == "(a|b)"
    ensures OrJoin(["", "a", "b"]) == "(a|b)"
  {
    assert ["a", "b"][..1] == ["a"];
    assert NonEmpty(["a", "b"]) == ["a", "b"];
    assert ["", "a", "b"][..2] == ["", "a"];
    assert ["", "a"][..1] == [""];
    assert NonEmpty(["", "a", "b"]) == ["a", "b"];
  }
}
