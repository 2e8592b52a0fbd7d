/**
 * The visibility tracker (`updateParagraphSpies`) and the dominant-paragraph
 * selector (`selectDominantParagraph`). Geometry is exact real arithmetic;
 * `getBoundingClientRect` and `window.innerHeight` are inputs.
 */
module Spies {
  import opened Wrappers

  /** The bounding box of a paragraph relative to the viewport. */
  datatype Rect = Rect(top: real, height: real)

  /** The observable state of one spy. `height` holds the box's TOP, as in the script. */
  datatype SpyView = SpyView(height: real, inViewPort: bool, partialView: bool, boxVisible: real)

  /** One scroll spy: the object literal built for every bound paragraph. */
  class Spy {
    /** `element.dataset.paragraphId`: the live index of the watched paragraph. */
    const id: nat
    /** Named `height` in the script but assigned the box's top. */
    var height: real
    var inViewPort: bool
    var partialView: bool
    var boxVisible: real

    function View(): SpyView
      reads this
    {
      SpyView(height, inViewPort, partialView, boxVisible)
    }

    constructor (id: nat)
      ensures this.id == id
      ensures View() == SpyView(0.0, false, false, 0.0)
    {
      this.id := id;
      height := 0.0;
      inViewPort := false;
      partialView := false;
      boxVisible := 0.0;
    }

    /** One iteration of the visibility pass: reset, then four overlapping tests in order. */
    method Update(r: Rect, windowHeight: real)
      requires windowHeight >= 0.0
      modifies this
      ensures View() == Classify(r, windowHeight)
    {
      height := r.top;
      inViewPort := false;
      partialView := false;
      boxVisible := 0.0;

      if r.top < 0.0 && r.top + r.height > 0.0 {
        inViewPort := true;
        partialView := true;
        boxVisible := (r.top + r.height) / r.height;
      }

      if r.top > 0.0 && r.top < windowHeight && r.top + r.height > windowHeight {
        inViewPort := true;
        partialView := true;
        boxVisible := (windowHeight - r.top) / r.height;
      }

      if r.top < 0.0 && r.top + r.height > windowHeight {
        inViewPort := true;
        partialView := true;
        boxVisible := windowHeight / r.height;
      }

      if r.top > 0.0 && r.top < windowHeight {
        inViewPort := true;
        boxVisible := 1.0;
      }
    }
  }

  /**
   * The net effect of one visibility pass on a box, as disjoint cases:
   * a box whose top is inside the viewport counts as wholly visible (partial
   * only when it runs past the bottom); one clipped at the top and running past
   * the bottom shows `windowHeight / height`; one clipped at the top only shows
   * `(top + height) / height`; anything else is out of view.
   */
  function Classify(r: Rect, windowHeight: real): (v: SpyView)
    requires windowHeight >= 0.0
    ensures v.height == r.top
    ensures !v.inViewPort ==> v == SpyView(r.top, false, false, 0.0)
    ensures windowHeight > 0.0 ==> (v.inViewPort <==> v.boxVisible > 0.0)
    ensures windowHeight > 0.0 ==> 0.0 <= v.boxVisible <= 1.0
    ensures v.inViewPort <==> (0.0 < r.top < windowHeight) || (r.top < 0.0 && r.top + r.height > 0.0)
  {
    if 0.0 < r.top < windowHeight then
      SpyView(r.top, true, r.top + r.height > windowHeight, 1.0)
    else if r.top < 0.0 && r.top + r.height > windowHeight then
      FractionAtMostOne(windowHeight, r.height);
      SpyView(r.top, true, true, windowHeight / r.height)
    else if r.top < 0.0 && r.top + r.height > 0.0 then
      FractionAtMostOne(r.top + r.height, r.height);
      SpyView(r.top, true, true, (r.top + r.height) / r.height)
    else
      SpyView(r.top, false, false, 0.0)
  }

  /** A part no larger than the whole is at most the whole. */
  lemma FractionAtMostOne(part: real, whole: real)
    requires 0.0 <= part <= whole && whole > 0.0
    ensures part / whole <= 1.0
  {
    assert (part / whole) * whole == part;
  }

  /** The views of a list of spies, in list order. */
  function Views(spies: seq<Spy>): (vs: seq<SpyView>)
    reads spies
    ensures |vs| == |spies| && forall k :: 0 <= k < |spies| ==> vs[k] == spies[k].View()
  {
    seq(|spies|, k reads spies requires 0 <= k < |spies| => spies[k].View())
  }

  /**
   * `updateParagraphSpies`: every spy is reclassified from the current box of
   * its paragraph; `layout[p]` is the bounding box of live paragraph `p`.
   */
  method UpdateParagraphSpies(spies: seq<Spy>, layout: seq<Rect>, windowHeight: real)
    requires windowHeight >= 0.0
    requires forall k :: 0 <= k < |spies| ==> spies[k].id < |layout|
    modifies spies
    ensures forall k :: 0 <= k < |spies| ==> spies[k].View() == Classify(layout[spies[k].id], windowHeight)
  {
    var i := 0;
    while i < |spies|
      invariant 0 <= i <= |spies|
      invariant forall k :: 0 <= k < i ==> spies[k].View() == Classify(layout[spies[k].id], windowHeight)
    {
      spies[i].Update(layout[spies[i].id], windowHeight);
      i := i + 1;
    }
  }

  /** A spy passes the selector's filter. */
  predicate Qualifies(v: SpyView) {
    v.inViewPort && v.boxVisible > 0.5
  }

  /**
   * `selectDominantParagraph` over the first `|vs|` spies: filter, sort
   * ascending by the stored top (a stable sort), take the first. As a running
   * minimum: a later spy replaces the current choice only when strictly higher up.
   */
  function Dominant(vs: seq<SpyView>): (r: Option<nat>)
    decreases |vs|
    ensures r.None? <==> forall k :: 0 <= k < |vs| ==> !Qualifies(vs[k])
    ensures r.Some? ==> r.value < |vs| && Qualifies(vs[r.value])
    ensures r.Some? ==> forall k :: 0 <= k < |vs| && Qualifies(vs[k]) ==> vs[r.value].height <= vs[k].height
    ensures r.Some? ==> forall k :: 0 <= k < r.value && Qualifies(vs[k]) ==> vs[k].height > vs[r.value].height
  {
    if vs == [] then None
    else
      var n := |vs| - 1;
      var d := Dominant(vs[..n]);
      assert forall k :: 0 <= k < n ==> vs[..n][k] == vs[k];
      if Qualifies(vs[n]) && (d.None? || vs[n].height < vs[d.value].height) then Some(n) else d
  }

  /** `selectDominantParagraph` on the spy objects: the chosen spy itself, or `null`. */
  function SelectDominantParagraph(spies: seq<Spy>): (r: Option<Spy>)
    reads spies
    ensures r.None? <==> forall k :: 0 <= k < |spies| ==> !Qualifies(spies[k].View())
    ensures r.Some? ==> r.value in spies && Qualifies(r.value.View())
    ensures r.Some? ==> forall k :: 0 <= k < |spies| && Qualifies(spies[k].View()) ==>
                          r.value.height <= spies[k].height
    ensures r.Some? ==> exists i :: 0 <= i < |spies| && r.value == spies[i] &&
                          forall k :: 0 <= k < i && Qualifies(spies[k].View()) ==> spies[k].height > spies[i].height
  {
    var vs := Views(spies);
    match Dominant(vs)
    case None => None
    case Some(i) => Some(spies[i])
  }

  /** The sample geometry: top -50, height 200 in an 800-high viewport is three quarters visible. */
  lemma TopClippedSample()
    ensures Classify(Rect(-50.0, 200.0), 800.0) == SpyView(-50.0, true, true, 0.75)
  {
  }

  /** A zero-high viewport leaves a top-clipped box in view with nothing visible. */
  lemma ZeroViewport()
    ensures Classify(Rect(-10.0, 20.0), 0.0) == SpyView(-10.0, true, true, 0.0)
  {
  }

  /** Two equally visible spies: the one higher up wins. */
  lemma TieBreakSample()
    ensures Dominant([SpyView(100.0, true, false, 0.9), SpyView(50.0, true, false, 0.9)]) == Some(1)
  {
    var vs := [SpyView(100.0, true, false, 0.9), SpyView(50.0, true, false, 0.9)];
    assert vs[..1] == [vs[0]];
  }
}
