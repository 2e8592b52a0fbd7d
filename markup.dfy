/**
 * Paragraph re-identification (`markUpArticleParagraphs`): a single forward
 * cursor into the canonical paragraph list walks the live paragraphs of the
 * container; every live paragraph whose trimmed text equals the entry under
 * the cursor is bound and tagged with its LIVE index, and the cursor moves on.
 * The live paragraphs are given as their already-trimmed texts, in document
 * order; a bound paragraph is represented by its live index, which is also the
 * `paragraphId` stored in its dataset.
 */
module Markup {

  /** Indices strictly increasing. */
  ghost predicate Increasing(b: seq<nat>) {
    forall a, c :: 0 <= a < c < |b| ==> b[a] < b[c]
  }

  /**
   * The bindings after the first `|live|` live paragraphs: the specification of
   * the loop. Past the end of `canon` the candidate is `undefined`, which no
   * string equals.
   */
  function Bound(live: seq<string>, canon: seq<string>): (b: seq<nat>)
    decreases |live|
    ensures |b| <= |canon| && |b| <= |live|
  {
    if live == [] then []
    else
      var n := |live| - 1;
      var prev := Bound(live[..n], canon);
      if |prev| < |canon| && live[n] == canon[|prev|] then prev + [n] else prev
  }

  /**
   * The bindings are sound: strictly increasing live indices, each below
   * `|live|`, and the k-th bound live text is canonical entry k.
   */
  lemma {:induction false} BoundSound(live: seq<string>, canon: seq<string>)
    ensures var b := Bound(live, canon);
            && Increasing(b)
            && forall k :: 0 <= k < |b| ==> b[k] < |live| && live[b[k]] == canon[k]
    decreases |live|
  {
    if live != [] {
      var n := |live| - 1;
      BoundSound(live[..n], canon);
      var prev := Bound(live[..n], canon);
      forall k | 0 <= k < |prev| ensures prev[k] < n && live[prev[k]] == canon[k] {
        assert live[..n][prev[k]] == live[prev[k]];
      }
      if |prev| < |canon| && live[n] == canon[|prev|] {
        AppendIncreasing(prev, n);
      }
    }
  }

  lemma AppendIncreasing(b: seq<nat>, n: nat)
    requires Increasing(b) && forall k :: 0 <= k < |b| ==> b[k] < n
    ensures Increasing(b + [n])
  {
  }

  /** One more live paragraph is bound exactly when it matches the entry under the cursor. */
  lemma BoundStep(live: seq<string>, canon: seq<string>, i: nat)
    requires i < |live|
    ensures var prev := Bound(live[..i], canon);
            Bound(live[..i + 1], canon) == if |prev| < |canon| && live[i] == canon[|prev|] then prev + [i] else prev
  {
    assert live[..i + 1][..i] == live[..i];
  }

  /** `canon` appears in `live` in order, at the strictly increasing positions `idx`. */
  ghost predicate Embeds(canon: seq<string>, live: seq<string>, idx: seq<nat>) {
    && |idx| == |canon|
    && Increasing(idx)
    && forall k :: 0 <= k < |idx| ==> idx[k] < |live| && live[idx[k]] == canon[k]
  }

  /** The loop as the content script runs it; `j` is the cursor into `paragraphs`. */
  method MarkUpArticleParagraphs(live: seq<string>, paragraphs: seq<string>) returns (marked: seq<nat>)
    ensures marked == Bound(live, paragraphs)
    ensures |marked| <= |paragraphs|
    ensures Increasing(marked)
    ensures forall k :: 0 <= k < |marked| ==> marked[k] < |live| && live[marked[k]] == paragraphs[k]
    ensures (exists idx :: Embeds(paragraphs, live, idx)) ==> |marked| == |paragraphs|
  {
    marked := [];
    var j := 0;
    var i := 0;
    while i < |live|
      invariant 0 <= i <= |live|
      invariant marked == Bound(live[..i], paragraphs)
      invariant j == |marked| <= |paragraphs|
    {
      BoundStep(live, paragraphs, i);
      if j < |paragraphs| && live[i] == paragraphs[j] {
        marked := marked + [i];
        j := j + 1;
      }
      i := i + 1;
    }
    assert live[..i] == live;
    BoundSound(live, paragraphs);
    if exists idx :: Embeds(paragraphs, live, idx) {
      var idx :| Embeds(paragraphs, live, idx);
      Complete(live, paragraphs, idx);
    }
  }

  /**
   * Greedy matching loses nothing: if the first `m` canonical entries embed
   * into the first `n` live paragraphs, at least `m` are bound there.
   */
  lemma {:induction false} Covers(live: seq<string>, canon: seq<string>, idx: seq<nat>, n: nat, m: nat)
    requires Embeds(canon, live, idx)
    requires n <= |live| && m <= |canon|
    requires m > 0 ==> idx[m - 1] < n
    ensures |Bound(live[..n], canon)| >= m
    decreases n
  {
    if m > 0 {
      var k := n - 1;
      BoundStep(live, canon, k);
      assert k + 1 == n;
      if idx[m - 1] < k {
        Covers(live, canon, idx, n - 1, m);
      } else {
        Covers(live, canon, idx, n - 1, m - 1);
        var prev := Bound(live[..n - 1], canon);
        if |prev| < m {
          assert live[n - 1] == canon[|prev|];
        }
      }
    }
  }

  /** When the canonical list is an in-order subsequence of the live texts, every entry is bound. */
  lemma Complete(live: seq<string>, canon: seq<string>, idx: seq<nat>)
    requires Embeds(canon, live, idx)
    ensures |Bound(live, canon)| == |canon|
  {
    Covers(live, canon, idx, |live|, |canon|);
    assert live[..|live|] == live;
  }

  /** The first two steps of the sample below: "x" is bound, "AD" is not. */
  lemma SkipsInjectedStart(live: seq<string>, canon: seq<string>)
    requires live == ["x", "AD", "y", "z"] && canon == ["x", "y", "z"]
    ensures Bound(live[..2], canon) == [0]
  {
    assert Bound(live[..1], canon) == [0] by {
      assert live[..0] == [];
      BoundStep(live, canon, 0);
    }
    BoundStep(live, canon, 1);
  }

  /** An injected live paragraph is skipped: `["x","AD","y","z"]` against `["x","y","z"]` binds 0, 2 and 3. */
  lemma SkipsInjected(live: seq<string>, canon: seq<string>)
    requires live == ["x", "AD", "y", "z"] && canon == ["x", "y", "z"]
    ensures Bound(live, canon) == [0, 2, 3]
  {
    SkipsInjectedStart(live, canon);
    assert Bound(live[..3], canon) == [0, 2] by {
      BoundStep(live, canon, 2);
    }
    BoundStep(live, canon, 3);
    assert live[..4] == live;
  }
}
