/**
 * The container detector (the `getArticleContainer()` declared first in the
 * script, which the later declaration of the same name shadows): find the
 * visible, non-blacklisted paragraph with the most words, then climb its
 * ancestors until two fifths of the page's words are covered.
 *
 * The document is a list of nodes in document order; node 0 is `<body>` and
 * every other node's parent comes before it. `text` is the node's `innerText`
 * and `offsetHeight` its rendered height, both inputs.
 */
module Detector {
  import opened Wrappers
  import opened Strings
  import Locator

  datatype Node = Node(tag: string, id: string, className: string, parent: nat, text: string, offsetHeight: int)

  /** Node 0 is the body; every other node hangs below an earlier one. */
  predicate WellFormed(nodes: seq<Node>) {
    && |nodes| >= 1
    && nodes[0].tag == "BODY"
    && forall v :: 1 <= v < |nodes| ==> nodes[v].parent < v
  }

  /** The substrings that exclude an element by class or id. */
  const Blacklist: seq<string> := ["comment"]

  /** `s.indexOf(w) >= 0`. */
  predicate Contains(s: string, w: string) {
    IndexOf(s, w) >= 0
  }

  /** Some entry of `list` occurs in the class name or the id. */
  function Listed(className: string, id: string, list: seq<string>): (b: bool)
    ensures b <==> exists k :: 0 <= k < |list| && (Contains(className, list[k]) || Contains(id, list[k]))
  {
    if list == [] then false
    else if Contains(className, list[0]) || Contains(id, list[0]) then true
    else
      assert forall k :: 1 <= k < |list| ==> list[k] == list[1..][k - 1];
      Listed(className, id, list[1..])
  }

  /** `checkElementAgainstBlacklist`: the element itself unless its class or id contains a blacklisted word. */
  function CheckElementAgainstBlacklist(elem: Option<Node>): (r: Option<Node>)
    ensures r.Some? ==> r == elem
    ensures r.None? <==> elem.None? || Listed(elem.value.className, elem.value.id, Blacklist)
  {
    match elem
    case None => None
    case Some(e) => if Listed(e.className, e.id, Blacklist) then None else elem
  }

  /** `querySelectorAll(tag)` below the body: the nodes from `from` on with that tag, in document order. */
  function Tagged(nodes: seq<Node>, tag: string, from: nat): (r: seq<nat>)
    decreases |nodes| - from
    ensures forall k :: 0 <= k < |r| ==> from <= r[k] < |nodes| && nodes[r[k]].tag == tag
    ensures forall a, b :: 0 <= a < b < |r| ==> r[a] < r[b]
    ensures forall v :: from <= v < |nodes| && nodes[v].tag == tag ==> v in r
  {
    if from >= |nodes| then []
    else if nodes[from].tag == tag then [from] + Tagged(nodes, tag, from + 1)
    else Tagged(nodes, tag, from + 1)
  }

  /** The candidate paragraphs: every `<p>`, or every `<div>` when there is no `<p>`. */
  function Candidates(nodes: seq<Node>): seq<nat> {
    var ps := Tagged(nodes, "P", 1);
    if |ps| == 0 then Tagged(nodes, "DIV", 1) else ps
  }

  /** A candidate that may be chosen: it and its parent pass the blacklist, it is rendered, it has a word. */
  predicate Eligible(nodes: seq<Node>, v: nat)
    requires WellFormed(nodes) && 1 <= v < |nodes|
  {
    && CheckElementAgainstBlacklist(Some(nodes[v])).Some?
    && CheckElementAgainstBlacklist(Some(nodes[nodes[v].parent])).Some?
    && nodes[v].offsetHeight != 0
    && Words(nodes, v) > 0
  }

  /** The word count of a node's text. */
  function Words(nodes: seq<Node>, v: nat): nat
    requires v < |nodes|
  {
    WordCount(nodes[v].text)
  }

  /** What a candidate weighs in the search: its word count when eligible, otherwise nothing. */
  function Score(nodes: seq<Node>, v: nat): (s: nat)
    requires WellFormed(nodes) && 1 <= v < |nodes|
    ensures s > 0 <==> Eligible(nodes, v)
  {
    if Eligible(nodes, v) then Words(nodes, v) else 0
  }

  /** The weights of the candidates `ps`, in order. */
  function Scores(nodes: seq<Node>, ps: seq<nat>): (s: seq<nat>)
    requires WellFormed(nodes)
    requires forall k :: 0 <= k < |ps| ==> 1 <= ps[k] < |nodes|
    ensures |s| == |ps| && forall k :: 0 <= k < |ps| ==> s[k] == Score(nodes, ps[k])
  {
    seq(|ps|, k requires 0 <= k < |ps| => Score(nodes, ps[k]))
  }

  /**
   * The position of the first greatest positive weight, if any weight is
   * positive: a later candidate wins only with strictly more words.
   */
  function FirstMax(s: seq<nat>): (r: Option<nat>)
    decreases |s|
    ensures r.None? <==> forall k :: 0 <= k < |s| ==> s[k] == 0
    ensures r.Some? ==> r.value < |s| && s[r.value] > 0
    ensures r.Some? ==> forall k :: 0 <= k < |s| ==> s[k] <= s[r.value]
    ensures r.Some? ==> forall k :: 0 <= k < r.value ==> s[k] < s[r.value]
  {
    if s == [] then None
    else
      var n := |s| - 1;
      var prev := FirstMax(s[..n]);
      assert forall k :: 0 <= k < n ==> s[..n][k] == s[k];
      if s[n] > 0 && (prev.None? || s[n] > s[prev.value]) then Some(n) else prev
  }

  /** One more weight takes over only when it is positive and strictly greater than the best so far. */
  lemma FirstMaxStep(s: seq<nat>, i: nat)
    requires i < |s|
    ensures var prev := FirstMax(s[..i]);
            FirstMax(s[..i + 1]) == if s[i] > 0 && (prev.None? || s[i] > s[prev.value]) then Some(i) else prev
  {
    assert s[..i + 1][..i] == s[..i];
  }

  /** The candidate at a chosen position with its weight; the body with 0 when nothing was chosen. */
  function Pick(ps: seq<nat>, s: seq<nat>, choice: Option<nat>): (nat, nat)
    requires |s| == |ps|
    requires choice.Some? ==> choice.value < |ps|
  {
    match choice
    case None => (0, 0)
    case Some(k) => (ps[k], s[k])
  }

  /** The paragraph the climb starts from, with its word count: the body with 0 when there is none. */
  function Start(nodes: seq<Node>, ps: seq<nat>): (nat, nat)
    requires WellFormed(nodes)
    requires forall k :: 0 <= k < |ps| ==> 1 <= ps[k] < |nodes|
  {
    var s := Scores(nodes, ps);
    Pick(ps, s, FirstMax(s))
  }

  /**
   * The start is the body with no words when no candidate is eligible, and
   * otherwise an eligible candidate with its word count, which no eligible
   * candidate exceeds; among candidates with as many words the first wins.
   */
  lemma StartIsMostWords(nodes: seq<Node>, ps: seq<nat>)
    requires WellFormed(nodes)
    requires forall k :: 0 <= k < |ps| ==> 1 <= ps[k] < |nodes|
    ensures var r := Start(nodes, ps);
            && (r.0 == 0 <==> forall k :: 0 <= k < |ps| ==> !Eligible(nodes, ps[k]))
            && (r.0 == 0 ==> r.1 == 0)
            && (r.0 != 0 ==> exists j :: 0 <= j < |ps| && ps[j] == r.0 && Eligible(nodes, r.0) && r.1 == Words(nodes, r.0)
                                          && forall k :: 0 <= k < j && Eligible(nodes, ps[k]) ==> Words(nodes, ps[k]) < r.1)
            && (r.0 != 0 ==> forall k :: 0 <= k < |ps| && Eligible(nodes, ps[k]) ==> Words(nodes, ps[k]) <= r.1)
  {
    var s := Scores(nodes, ps);
    var choice := FirstMax(s);
    if choice.Some? {
      var j := choice.value;
      assert ps[j] == Start(nodes, ps).0;
    }
  }

  /** One more candidate is flagged exactly when it has zero rendered height. */
  lemma HiddenStep(nodes: seq<Node>, ps: seq<nat>, i: nat)
    requires forall k :: 0 <= k < |ps| ==> ps[k] < |nodes|
    requires i < |ps|
    ensures Hidden(nodes, ps[..i + 1]) == Hidden(nodes, ps[..i]) + if nodes[ps[i]].offsetHeight == 0 then [ps[i]] else []
  {
    assert ps[..i + 1][..i] == ps[..i];
  }

  /**
   * One round of the search: a candidate replaces the best so far exactly
   * when it is visible, passes the blacklist for itself and its parent, and
   * has strictly more words.
   */
  lemma SearchStep(nodes: seq<Node>, ps: seq<nat>, scores: seq<nat>, i: nat, best: nat, most: nat)
    requires WellFormed(nodes)
    requires forall k :: 0 <= k < |ps| ==> 1 <= ps[k] < |nodes|
    requires i < |ps| && scores == Scores(nodes, ps)
    requires (best, most) == Pick(ps, scores, FirstMax(scores[..i]))
    ensures var p := ps[i];
            var wordCount := WordCount(nodes[p].text);
            var takes := && CheckElementAgainstBlacklist(Some(nodes[p])).Some?
                         && CheckElementAgainstBlacklist(Some(nodes[nodes[p].parent])).Some?
                         && nodes[p].offsetHeight != 0
                         && wordCount > 0 && wordCount > most;
            (if takes then (p, wordCount) else (best, most)) == Pick(ps, scores, FirstMax(scores[..i + 1]))
  {
    FirstMaxStep(scores, i);
    assert scores[i] == Score(nodes, ps[i]);
  }

  /** The candidates with zero rendered height, in order: those the search flags for deletion. */
  function Hidden(nodes: seq<Node>, ps: seq<nat>): (r: seq<nat>)
    requires forall k :: 0 <= k < |ps| ==> ps[k] < |nodes|
    decreases |ps|
    ensures forall k :: 0 <= k < |r| ==> r[k] in ps && nodes[r[k]].offsetHeight == 0
    ensures forall k :: 0 <= k < |ps| && nodes[ps[k]].offsetHeight == 0 ==> ps[k] in r
  {
    if ps == [] then []
    else
      var n := |ps| - 1;
      assert forall k :: 0 <= k < n ==> ps[..n][k] == ps[k];
      Hidden(nodes, ps[..n]) + if nodes[ps[n]].offsetHeight == 0 then [ps[n]] else []
  }

  /** `a` is `v` or one of its ancestors. */
  predicate AncestorOrSelf(nodes: seq<Node>, a: nat, v: nat)
    requires WellFormed(nodes) && v < |nodes|
    decreases v
  {
    a == v || (v != 0 && AncestorOrSelf(nodes, a, nodes[v].parent))
  }

  /** The climb stops at `v`: two fifths of the page covered, the body reached, or a parent without text. */
  predicate Stops(nodes: seq<Node>, v: nat, count: nat, total: nat)
    requires WellFormed(nodes) && v < |nodes|
  {
    5 * count >= 2 * total || v == 0 || nodes[nodes[v].parent].text == ""
  }

  /**
   * The climb from `v`, which covers `count` of the page's `total` words;
   * `None` when a parent's text has no word, where the script's `.length`
   * on a `null` match throws.
   */
  function Climb(nodes: seq<Node>, v: nat, count: nat, total: nat): (r: Option<nat>)
    requires WellFormed(nodes) && v < |nodes|
    decreases v
    ensures r.Some? ==> r.value <= v && AncestorOrSelf(nodes, r.value, v)
    ensures r.Some? ==> Stops(nodes, r.value, if r.value == v then count else WordCount(nodes[r.value].text), total)
    ensures r.None? ==> !Stops(nodes, v, count, total)
    ensures r.None? ==> exists a: nat :: a <= v && a != 0 && AncestorOrSelf(nodes, a, v)
                                      && nodes[nodes[a].parent].text != "" && WordCount(nodes[nodes[a].parent].text) == 0
  {
    if !Stops(nodes, v, count, total) then
      var p := nodes[v].parent;
      var words := WordCount(nodes[p].text);
      if words == 0 then
        assert AncestorOrSelf(nodes, v, v);
        None
      else
        var r := Climb(nodes, p, words, total);
        if r.None? then
          var a: nat :| a <= p && a != 0 && AncestorOrSelf(nodes, a, p)
                        && nodes[nodes[a].parent].text != "" && WordCount(nodes[nodes[a].parent].text) == 0;
          assert AncestorOrSelf(nodes, a, v);
          r
        else r
    else Some(v)
  }

  /** An ancestor comes no later in document order than its descendant. */
  lemma {:induction false} AncestorBelow(nodes: seq<Node>, a: nat, v: nat)
    requires WellFormed(nodes) && v < |nodes| && AncestorOrSelf(nodes, a, v)
    ensures a <= v
    decreases v
  {
    if a != v {
      AncestorBelow(nodes, a, nodes[v].parent);
    }
  }

  /** The count the climb holds when it stands at `a`, having started at `v` with `count`. */
  function CountAt(nodes: seq<Node>, a: nat, v: nat, count: nat): nat
    requires a < |nodes|
  {
    if a == v then count else WordCount(nodes[a].text)
  }

  /**
   * A climb that succeeds stops at the first node on the way up where it can:
   * every node passed below its end neither stops nor has a wordless parent.
   */
  lemma {:induction false} ClimbFirstStop(nodes: seq<Node>, v: nat, count: nat, total: nat)
    requires WellFormed(nodes) && v < |nodes|
    decreases v
    ensures var r := Climb(nodes, v, count, total);
            r.Some? ==> forall a: nat :: a < |nodes| && AncestorOrSelf(nodes, a, v) && a != r.value && AncestorOrSelf(nodes, r.value, a) ==>
                          !Stops(nodes, a, CountAt(nodes, a, v, count), total) && WordCount(nodes[nodes[a].parent].text) != 0
  {
    var r := Climb(nodes, v, count, total);
    if Stops(nodes, v, count, total) {
      forall a: nat | a < |nodes| && AncestorOrSelf(nodes, a, v) && a != v && AncestorOrSelf(nodes, v, a)
        ensures false
      {
        AncestorBelow(nodes, a, v);
        AncestorBelow(nodes, v, a);
      }
    } else {
      var p := nodes[v].parent;
      var words := WordCount(nodes[p].text);
      if words != 0 {
        ClimbFirstStop(nodes, p, words, total);
        if r.Some? {
          forall a: nat | a < |nodes| && AncestorOrSelf(nodes, a, v) && a != r.value && AncestorOrSelf(nodes, r.value, a)
            ensures !Stops(nodes, a, CountAt(nodes, a, v, count), total) && WordCount(nodes[nodes[a].parent].text) != 0
          {
            if a != v {
              assert AncestorOrSelf(nodes, a, p);
              AncestorBelow(nodes, a, p);
            }
          }
        }
      }
    }
  }

  /**
   * The climb from `v` fails at `a`: the parent of `a` has text but no word,
   * and no node from `v` up to `a` is one where the climb could stop.
   */
  predicate FailsAt(nodes: seq<Node>, a: nat, v: nat, count: nat, total: nat)
    requires WellFormed(nodes) && v < |nodes|
  {
    && a <= v && a != 0 && AncestorOrSelf(nodes, a, v)
    && nodes[nodes[a].parent].text != "" && WordCount(nodes[nodes[a].parent].text) == 0
    && forall b: nat :: b < |nodes| && AncestorOrSelf(nodes, b, v) && AncestorOrSelf(nodes, a, b) ==>
         !Stops(nodes, b, CountAt(nodes, b, v, count), total)
  }

  /** A climb that fails meets its wordless parent before any node where it could stop. */
  lemma {:induction false} ClimbFailsFirst(nodes: seq<Node>, v: nat, count: nat, total: nat)
    requires WellFormed(nodes) && v < |nodes|
    decreases v
    ensures Climb(nodes, v, count, total).None? ==> exists a: nat :: FailsAt(nodes, a, v, count, total)
  {
    if !Stops(nodes, v, count, total) {
      var p := nodes[v].parent;
      var words := WordCount(nodes[p].text);
      if words == 0 {
        forall b: nat | b < |nodes| && AncestorOrSelf(nodes, b, v) && AncestorOrSelf(nodes, v, b)
          ensures b == v
        {
          AncestorBelow(nodes, b, v);
          AncestorBelow(nodes, v, b);
        }
        assert FailsAt(nodes, v, v, count, total);
      } else if Climb(nodes, p, words, total).None? {
        ClimbFailsFirst(nodes, p, words, total);
        var a: nat :| FailsAt(nodes, a, p, words, total);
        assert AncestorOrSelf(nodes, a, v);
        forall b: nat | b < |nodes| && AncestorOrSelf(nodes, b, v) && AncestorOrSelf(nodes, a, b)
          ensures !Stops(nodes, b, CountAt(nodes, b, v, count), total)
        {
          if b != v {
            assert AncestorOrSelf(nodes, b, p);
            AncestorBelow(nodes, b, p);
          }
        }
        assert FailsAt(nodes, a, v, count, total);
      }
    }
  }

  /** The locator built for the chosen node: its id and class, each usable only when non-empty. */
  function LocatorOf(n: Node): (loc: Locator.ContainerLocator)
    ensures loc.id == n.id && loc.className == n.className
    ensures "id" in loc.methods <==> n.id != ""
    ensures "class" in loc.methods <==> n.className != ""
  {
    Locator.ContainerLocator((if n.id != "" then ["id"] else []) + (if n.className != "" then ["class"] else []),
                             n.id, n.className)
  }

  /**
   * The search loop of the detector: the first visible, non-blacklisted
   * candidate with the most words, and the hidden candidates flagged on the way.
   */
  method FindParagraphWithMostWords(nodes: seq<Node>, ps: seq<nat>)
    returns (pWithMostWords: nat, highestWordCount: nat, flagged: seq<nat>)
    requires WellFormed(nodes)
    requires forall k :: 0 <= k < |ps| ==> 1 <= ps[k] < |nodes|
    ensures (pWithMostWords, highestWordCount) == Start(nodes, ps)
    ensures flagged == Hidden(nodes, ps)
  {
    pWithMostWords, highestWordCount, flagged := 0, 0, [];
    ghost var scores := Scores(nodes, ps);
    var i := 0;
    while i < |ps|
      invariant 0 <= i <= |ps|
      invariant (pWithMostWords, highestWordCount) == Pick(ps, scores, FirstMax(scores[..i]))
      invariant flagged == Hidden(nodes, ps[..i])
    {
      SearchStep(nodes, ps, scores, i, pWithMostWords, highestWordCount);
      HiddenStep(nodes, ps, i);
      var p := ps[i];
      if CheckElementAgainstBlacklist(Some(nodes[p])).Some?
         && CheckElementAgainstBlacklist(Some(nodes[nodes[p].parent])).Some?
         && nodes[p].offsetHeight != 0
      {
        var wordCount := WordCount(nodes[p].text);
        if wordCount > 0 && wordCount > highestWordCount {
          highestWordCount := wordCount;
          pWithMostWords := p;
        }
      }
      if nodes[p].offsetHeight == 0 {
        flagged := flagged + [p];
      }
      i := i + 1;
    }
    assert ps[..i] == ps;
    assert scores[..i] == scores;
  }


  /** The outcome of detection: the container with its locator, or the `TypeError` the script throws. */
  datatype Detection = Detected(element: nat, locator: Locator.ContainerLocator) | TypeError

  /** The detector as the script runs it; `flagged` are the candidates marked `simpleDelete`. */
  method GetArticleContainer(nodes: seq<Node>) returns (res: Detection, flagged: seq<nat>)
    requires WellFormed(nodes)
    ensures var total := WordCount(nodes[0].text);
            var best := Start(nodes, Candidates(nodes));
            && (res.TypeError? <==> total == 0 || Climb(nodes, best.0, best.1, total).None?)
            && (res.Detected? ==>
                  var sel := Climb(nodes, best.0, best.1, total).value;
                  && res.element == (if nodes[sel].tag == "P" then nodes[sel].parent else sel)
                  && res.element < |nodes|
                  && res.locator == LocatorOf(nodes[res.element]))
    ensures flagged == if WordCount(nodes[0].text) == 0 then [] else Hidden(nodes, Candidates(nodes))
  {
    flagged := [];
    var numWordsOnPage := WordCount(nodes[0].text);
    if numWordsOnPage == 0 {
      return TypeError, flagged;
    }
    var ps := Tagged(nodes, "P", 1);
    if |ps| == 0 {
      ps := Tagged(nodes, "DIV", 1);
    }
    assert ps == Candidates(nodes);

    var pWithMostWords, highestWordCount;
    pWithMostWords, highestWordCount, flagged := FindParagraphWithMostWords(nodes, ps);

    var selectedContainer: nat := pWithMostWords;
    var wordCountSelected: nat := highestWordCount;
    while !Stops(nodes, selectedContainer, wordCountSelected, numWordsOnPage)
      invariant selectedContainer < |nodes|
      invariant Climb(nodes, selectedContainer, wordCountSelected, numWordsOnPage)
             == Climb(nodes, pWithMostWords, highestWordCount, numWordsOnPage)
      decreases selectedContainer
    {
      selectedContainer := nodes[selectedContainer].parent;
      var words := WordCount(nodes[selectedContainer].text);
      if words == 0 {
        return TypeError, flagged;
      }
      wordCountSelected := words;
    }

    if nodes[selectedContainer].tag == "P" {
      selectedContainer := nodes[selectedContainer].parent;
    }
    res := Detected(selectedContainer, LocatorOf(nodes[selectedContainer]));
  }

  /**
   * The locator built here finds its node again on a later visit, provided the
   * document still indexes that node under its id and class: by id whenever
   * it has one, else by class when the class is unique, and never when it has
   * neither.
   */
  lemma LocatorRoundTrip(n: Node, v: Locator.Element, doc: Locator.Document)
    requires n.id != "" ==> Locator.ElementById(doc, n.id) == Some(v)
    requires n.className != "" ==> v in Locator.ElementsByClassName(doc, n.className)
    ensures Locator.Resolve(LocatorOf(n), doc) ==
              if n.id != "" || (n.className != "" && |Locator.ElementsByClassName(doc, n.className)| == 1)
              then Some(v) else None
  {
    var byClass := Locator.ElementsByClassName(doc, n.className);
    if n.className != "" && |byClass| == 1 {
      assert byClass[0] == v;
    }
  }
}
