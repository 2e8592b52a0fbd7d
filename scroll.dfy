/**
 * The scroll handler (`handleScroll`) and its throttle: the page session keeps
 * the id of the last reported paragraph (initially -1) and sends a
 * `colorUpdate` message only when the dominant paragraph changes.
 * `chrome.runtime.sendMessage` is modelled as appending to an outbox, and
 * `selectColor` (a read of the paragraph's colour input) as the function `colorOf`.
 */
module Scroll {
  import opened Wrappers
  import opened Spies
  import Markup

  datatype Message = ColorUpdate(color: string)

  /** What one scroll does to the session: the new `paragraphId` and the paragraph reported, if any. */
  datatype Decision = Decision(paragraphId: int, report: Option<nat>)

  /** The throttle of `handleScroll` given the id of the dominant paragraph, if there is one. */
  function Throttle(paragraphId: int, dominant: Option<nat>): (d: Decision)
    ensures d.report.Some? <==> dominant.Some? && dominant.value != paragraphId
    ensures d.report.Some? ==> d.paragraphId == d.report.value == dominant.value
    ensures d.report.None? ==> d.paragraphId == paragraphId
  {
    match dominant
    case None => Decision(paragraphId, None)
    case Some(id) => if paragraphId != id then Decision(id, Some(id)) else Decision(paragraphId, None)
  }

  /** The ids reported over a run of scrolls whose dominant paragraphs are `dominants`. */
  function Reports(paragraphId: int, dominants: seq<Option<nat>>): seq<nat>
    decreases |dominants|
  {
    if dominants == [] then []
    else
      var d := Throttle(paragraphId, dominants[0]);
      (if d.report.Some? then [d.report.value] else []) + Reports(d.paragraphId, dominants[1..])
  }

  /** The session's `paragraphId` after a run of scrolls. */
  function Last(paragraphId: int, dominants: seq<Option<nat>>): int
    decreases |dominants|
  {
    if dominants == [] then paragraphId
    else Last(Throttle(paragraphId, dominants[0]).paragraphId, dominants[1..])
  }

  /** A second scroll with the same dominant paragraph sends nothing and changes nothing. */
  lemma ThrottleSettles(paragraphId: int, dominant: Option<nat>)
    ensures var d := Throttle(paragraphId, dominant);
            Throttle(d.paragraphId, dominant) == Decision(d.paragraphId, None)
  {
  }

  /**
   * Over any run of scrolls: at most one report per scroll, the first report
   * differs from the starting id, no two consecutive reports name the same
   * paragraph, and the session ends on the last reported id.
   */
  lemma {:induction false} ReportsChange(paragraphId: int, dominants: seq<Option<nat>>)
    ensures var rs := Reports(paragraphId, dominants);
      && |rs| <= |dominants|
      && (|rs| > 0 ==> rs[0] != paragraphId && rs[|rs| - 1] == Last(paragraphId, dominants))
      && (|rs| == 0 ==> Last(paragraphId, dominants) == paragraphId)
      && forall k :: 0 <= k < |rs| - 1 ==> rs[k] != rs[k + 1]
    decreases |dominants|
  {
    if dominants != [] {
      var d := Throttle(paragraphId, dominants[0]);
      ReportsChange(d.paragraphId, dominants[1..]);
    }
  }

  /** The id of the spy `selectDominantParagraph` picks. */
  function DominantId(spies: seq<Spy>): Option<nat>
    reads spies
  {
    match SelectDominantParagraph(spies)
    case None => None
    case Some(s) => Some(s.id)
  }

  /**
   * `scrollSpyInit` without the event wiring: bind the paragraphs, then make
   * one fresh spy per bound paragraph, in order.
   */
  method ScrollSpyInit(live: seq<string>, paragraphs: seq<string>) returns (spies: seq<Spy>)
    ensures |spies| == |Markup.Bound(live, paragraphs)|
    ensures forall k :: 0 <= k < |spies| ==>
              && fresh(spies[k])
              && spies[k].id == Markup.Bound(live, paragraphs)[k]
              && spies[k].View() == SpyView(0.0, false, false, 0.0)
  {
    var marked := Markup.MarkUpArticleParagraphs(live, paragraphs);
    spies := [];
    var i := 0;
    while i < |marked|
      invariant 0 <= i <= |marked| && |spies| == i
      invariant forall k :: 0 <= k < i ==>
                  fresh(spies[k]) && spies[k].id == marked[k] && spies[k].View() == SpyView(0.0, false, false, 0.0)
    {
      var s := new Spy(marked[i]);
      spies := spies + [s];
      i := i + 1;
    }
  }

  /** The per-page session state that `handleScroll` updates. */
  class Session {
    /** The id of the last paragraph reported; -1 before the first report. */
    var paragraphId: int
    /** Every `colorUpdate` message sent so far, oldest first. */
    var outbox: seq<Message>

    constructor ()
      ensures paragraphId == -1 && outbox == []
    {
      paragraphId := -1;
      outbox := [];
    }

    /**
     * The throttle step of `handleScroll`: report the colour of the dominant
     * paragraph only when its id differs from the last one reported.
     */
    method Notify(dominant: Option<nat>, colorOf: nat -> string)
      modifies this
      ensures var d := Throttle(old(paragraphId), dominant);
              && paragraphId == d.paragraphId
              && outbox == old(outbox) + (if d.report.Some? then [ColorUpdate(colorOf(d.report.value))] else [])
    {
      if dominant.Some? {
        var id := dominant.value;
        if paragraphId != id {
          var color := colorOf(id);
          outbox := outbox + [ColorUpdate(color)];
          paragraphId := id;
        }
      }
    }

    /**
     * `handleScroll`: reclassify the spies, select the dominant one, and report
     * its colour only when its id differs from the last one reported.
     */
    method HandleScroll(spies: seq<Spy>, layout: seq<Rect>, windowHeight: real, colorOf: nat -> string)
      requires windowHeight >= 0.0
      requires forall k :: 0 <= k < |spies| ==> spies[k].id < |layout|
      modifies this, spies
      ensures forall k :: 0 <= k < |spies| ==> spies[k].View() == Classify(layout[spies[k].id], windowHeight)
      ensures var d := Throttle(old(paragraphId), DominantId(spies));
              && paragraphId == d.paragraphId
              && outbox == old(outbox) + (if d.report.Some? then [ColorUpdate(colorOf(d.report.value))] else [])
    {
      UpdateParagraphSpies(spies, layout, windowHeight);
      var dominant := DominantId(spies);
      ghost var views := Views(spies);
      Notify(dominant, colorOf);
      assert Views(spies) == views;
      assert dominant == DominantId(spies);
    }
  }
}
