/**
 * Publication-date extraction: `checkElemForDate` on one element and the
 * cascade of `getArticleDate` over ten fixed queries, followed by the
 * clean-up of the value found. An element is given by the string properties
 * it has (`innerText`, `content`, ...); a property it lacks is `undefined`.
 */
module Dates {
  import opened Wrappers
  import opened Strings

  /** The properties of a found element. */
  type Props = map<string, string>

  /** A property value is taken as a date: non-empty and split by `' '` into fewer than ten pieces. */
  predicate DateLike(v: string) {
    v != "" && CountSpaces(v) + 1 < 10
  }

  predicate Qualifies(elem: Props, attr: string) {
    attr in elem && DateLike(elem[attr])
  }

  /** The position of the last listed property that looks like a date. */
  function LastIndex(elem: Props, attrs: seq<string>): (r: Option<nat>)
    decreases |attrs|
    ensures r.None? <==> forall i :: 0 <= i < |attrs| ==> !Qualifies(elem, attrs[i])
    ensures r.Some? ==> r.value < |attrs| && Qualifies(elem, attrs[r.value])
    ensures r.Some? ==> forall k :: r.value < k < |attrs| ==> !Qualifies(elem, attrs[k])
  {
    if attrs == [] then None
    else
      var n := |attrs| - 1;
      assert forall k :: 0 <= k < n ==> attrs[..n][k] == attrs[k];
      if Qualifies(elem, attrs[n]) then Some(n) else LastIndex(elem, attrs[..n])
  }

  /** The value `checkElemForDate` settles on. */
  function LastDate(elem: Props, attrs: seq<string>): Option<string>
  {
    match LastIndex(elem, attrs)
    case None => None
    case Some(i) => Some(elem[attrs[i]])
  }

  /**
   * The date kept is the value of the LAST listed property that looks like a
   * date, and there is none exactly when no listed property does.
   */
  lemma LastDateIsLastQualifying(elem: Props, attrs: seq<string>)
    ensures var r := LastDate(elem, attrs);
            && (r.None? <==> forall i :: 0 <= i < |attrs| ==> !Qualifies(elem, attrs[i]))
            && (r.Some? ==> exists i :: 0 <= i < |attrs| && Qualifies(elem, attrs[i]) && r.value == elem[attrs[i]]
                                        && forall k :: i < k < |attrs| ==> !Qualifies(elem, attrs[k]))
  {
  }

  /** One more listed property replaces the date kept so far exactly when it qualifies. */
  lemma LastDateStep(elem: Props, attrs: seq<string>, i: nat)
    requires i < |attrs|
    ensures LastDate(elem, attrs[..i + 1]) ==
            if Qualifies(elem, attrs[i]) then Some(elem[attrs[i]]) else LastDate(elem, attrs[..i])
  {
    assert attrs[..i + 1][..i] == attrs[..i];
  }

  /**
   * `checkElemForDate`: `false` (here `None`) for a missing element or when no
   * property qualifies; `flag` is the `simpleDelete` mark set on the element.
   */
  method CheckElemForDate(elem: Option<Props>, attrList: seq<string>, deleteMe: bool)
    returns (date: Option<string>, flag: bool)
    ensures date == if elem.None? then None else LastDate(elem.value, attrList)
    ensures flag <==> deleteMe && date.Some?
  {
    date, flag := None, false;
    if elem.Some? {
      var e := elem.value;
      var i := 0;
      while i < |attrList|
        invariant 0 <= i <= |attrList|
        invariant date == LastDate(e, attrList[..i])
        invariant flag <==> deleteMe && date.Some?
      {
        LastDateStep(e, attrList, i);
        var a := attrList[i];
        if a in e && e[a] != "" && CountSpaces(e[a]) + 1 < 10 {
          date := Some(e[a]);
          if deleteMe {
            flag := true;
          }
        }
        i := i + 1;
      }
      assert attrList[..i] == attrList;
    }
  }

  /** Where a query looks. */
  datatype Scope = InContainer | InBody | InHead

  /** One of the fixed queries: a selector, the properties to read, whether to flag the hit. */
  datatype DateQuery = DateQuery(scope: Scope, selector: string, attrs: seq<string>, deleteMe: bool)

  /** The queries in the order tried; only hits inside the container are flagged. */
  const DateQueries: seq<DateQuery> := [
    DateQuery(InContainer, "[class^=\"date\"]", ["innerText"], true),
    DateQuery(InContainer, "[class*=\"-date\"]", ["innerText"], true),
    DateQuery(InContainer, "[class*=\"_date\"]", ["innerText"], true),
    DateQuery(InBody, "[class^=\"date\"]", ["innerText"], false),
    DateQuery(InBody, "[class*=\"-date\"]", ["innerText"], false),
    DateQuery(InBody, "[class*=\"_date\"]", ["innerText"], false),
    DateQuery(InHead, "meta[name^=\"date\"]", ["content"], false),
    DateQuery(InHead, "meta[name*=\"-date\"]", ["content"], false),
    DateQuery(InContainer, "time", ["datetime", "innerText"], true),
    DateQuery(InBody, "time", ["datetime", "innerText"], false)
  ]

  /** The date a query's hit yields, if any. */
  function Hit(qs: seq<DateQuery>, found: seq<Option<Props>>, i: nat): Option<string>
    requires i < |found| && i < |qs|
  {
    if found[i].None? then None else LastDate(found[i].value, qs[i].attrs)
  }

  /** The first of the first `n` queries whose hit yields a date. */
  function FirstHit(qs: seq<DateQuery>, found: seq<Option<Props>>, n: nat): (r: Option<nat>)
    requires n <= |found| && n <= |qs|
    ensures r.Some? ==> r.value < n && Hit(qs, found, r.value).Some?
  {
    if n == 0 then None
    else
      var prev := FirstHit(qs, found, n - 1);
      if prev.Some? then prev else if Hit(qs, found, n - 1).Some? then Some(n - 1) else None
  }

  /** No query yields a date exactly when there is no first hit; otherwise every earlier query yields none. */
  lemma {:induction false} FirstHitIsFirst(qs: seq<DateQuery>, found: seq<Option<Props>>, n: nat)
    requires n <= |found| && n <= |qs|
    ensures var r := FirstHit(qs, found, n);
            && (r.None? <==> forall k :: 0 <= k < n ==> Hit(qs, found, k).None?)
            && (r.Some? ==> r.value < n && Hit(qs, found, r.value).Some? && forall k :: 0 <= k < r.value ==> Hit(qs, found, k).None?)
  {
    if n > 0 {
      FirstHitIsFirst(qs, found, n - 1);
    }
  }

  /**
   * `date.replace(/on\s/gi, '')` as written: every "on" followed by a space
   * goes, inside words too.
   */
  function StripOnAsWritten(d: string): (r: string)
    ensures |r| <= |d|
  {
    RemoveFrom(d, "on", 0, false)
  }

  /** The evidently intended `/\bon\s/gi`: the word "on" goes, other words keep their letters. */
  function StripOn(d: string): (r: string)
    ensures |r| <= |d|
  {
    RemoveFrom(d, "on", 0, true)
  }

  /**
   * Both removals leave the date unchanged when there is nothing for them to
   * remove: as written, no "on" followed by a space anywhere; with the word
   * boundary, none at the start of a word.
   */
  lemma {:induction false} StripOnKeeps(d: string)
    ensures (forall k :: 0 <= k < |d| ==> !WordSpaceAt(d, "on", k)) ==> StripOnAsWritten(d) == d
    ensures (forall k :: 0 <= k < |d| && WordSpaceAt(d, "on", k) ==> !WordStart(d, k)) ==> StripOn(d) == d
  {
    assert d[0..] == d;
    RemoveNothing(d, "on", 0, false);
    RemoveNothing(d, "on", 0, true);
  }

  /** `replace(/(?:\r\n|\r|\n)/gi, '&nbsp;')`: no line break survives. */
  function ReplaceLineBreaks(s: string): (r: string)
    decreases |s|
    ensures '\r' !in r && '\n' !in r
    ensures '\r' !in s && '\n' !in s ==> r == s
  {
    if s == [] then []
    else if |s| >= 2 && s[0] == '\r' && s[1] == '\n' then "&nbsp;" + ReplaceLineBreaks(s[2..])
    else if s[0] == '\r' || s[0] == '\n' then "&nbsp;" + ReplaceLineBreaks(s[1..])
    else [s[0]] + ReplaceLineBreaks(s[1..])
  }

  /** A `<br` (any case) starts at `i` and a `>` closes it later on. */
  predicate BreakTagAt(s: string, i: nat) {
    i + 3 <= |s| && s[i] == '<' && LowerChar(s[i + 1]) == 'b' && LowerChar(s[i + 2]) == 'r' && '>' in s[i + 3..]
  }

  /** `replace(/[<]br[^>]*[>]/gi, '&nbsp;')`: each `<br ...>` up to its first `>` becomes a space entity. */
  function ReplaceBreakTags(s: string): (r: string)
    decreases |s|
    ensures (forall i :: 0 <= i < |s| ==> !BreakTagAt(s, i)) ==> r == s
  {
    if s == [] then []
    else if BreakTagAt(s, 0) then
      "&nbsp;" + ReplaceBreakTags(s[TagEnd(s)..])
    else
      NoBreakTail(s);
      [s[0]] + ReplaceBreakTags(s[1..])
  }

  /** Just past the first `>` that closes the break tag at the start of `s`. */
  function TagEnd(s: string): (e: nat)
    requires BreakTagAt(s, 0)
    ensures 3 < e <= |s|
  {
    var k :| 0 <= k < |s[3..]| && s[3..][k] == '>';
    assert OccursAt(s[3..], ">", k) by { assert s[3..][k..k + 1] == ">"; }
    3 + IndexOf(s[3..], ">") + 1
  }

  lemma NoBreakTail(s: string)
    requires s != []
    ensures (forall i :: 0 <= i < |s| ==> !BreakTagAt(s, i)) ==> forall i :: 0 <= i < |s[1..]| ==> !BreakTagAt(s[1..], i)
  {
    forall i | 0 <= i < |s[1..]| ensures BreakTagAt(s[1..], i) == BreakTagAt(s, i + 1) {
      if i + 1 + 3 <= |s| { assert s[i + 1 + 3..] == s[1..][i + 3..]; }
    }
  }

  /** A break tag seen past a prefix is one seen in the rest. */
  lemma BreakTagShift(p: string, t: string, i: nat)
    ensures BreakTagAt(p + t, |p| + i) == BreakTagAt(t, i)
  {
    if |p| + i + 3 <= |p + t| {
      assert (p + t)[|p| + i + 3..] == t[i + 3..];
    }
  }

  /** The replacement starts with the first character kept or with `&nbsp;`. */
  lemma BreakTagsHead(s: string)
    requires s != []
    ensures var r := ReplaceBreakTags(s); |r| > 0 && (r[0] == s[0] || r[0] == '&')
  {
  }

  /** The replacement makes no line break. */
  lemma {:induction false} BreakTagsNoLineBreak(s: string)
    requires '\r' !in s && '\n' !in s
    decreases |s|
    ensures '\r' !in ReplaceBreakTags(s) && '\n' !in ReplaceBreakTags(s)
  {
    if s != [] {
      var t := if BreakTagAt(s, 0) then s[TagEnd(s)..] else s[1..];
      assert forall c :: c in t ==> c in s;
      BreakTagsNoLineBreak(t);
      var front: string := if BreakTagAt(s, 0) then "&nbsp;" else [s[0]];
      assert '\r' !in front && '\n' !in front;
      assert ReplaceBreakTags(s) == front + ReplaceBreakTags(t);
    }
  }

  /** A prefix without `<` in front of tag-free text makes no break tag. */
  lemma AppendNoBreak(p: string, t: string)
    requires '<' !in p
    requires forall i :: 0 <= i < |t| ==> !BreakTagAt(t, i)
    ensures forall i :: 0 <= i < |p + t| ==> !BreakTagAt(p + t, i)
  {
    forall i | 0 <= i < |p + t| ensures !BreakTagAt(p + t, i) {
      if i >= |p| {
        BreakTagShift(p, t, i - |p|);
      } else {
        assert (p + t)[i] == p[i];
      }
    }
  }

  /** A `<` kept in front of the replaced rest does not open a break tag there. */
  lemma KeptStart(s: string)
    requires s != [] && !BreakTagAt(s, 0)
    ensures !BreakTagAt([s[0]] + ReplaceBreakTags(s[1..]), 0)
  {
    var r := [s[0]] + ReplaceBreakTags(s[1..]);
    if s[0] == '<' {
      if |s| < 3 || '>' !in s[1..] {
        assert forall i :: 0 <= i < |s[1..]| ==> !BreakTagAt(s[1..], i);
        assert r == s;
      } else {
        var t := s[1..];
        BreakTagsHead(t);
        if LowerChar(s[1]) == 'b' {
          assert !BreakTagAt(t, 0);
          assert ReplaceBreakTags(t) == [t[0]] + ReplaceBreakTags(t[1..]);
          assert t[1..] == s[2..];
          BreakTagsHead(s[2..]);
        }
      }
    }
  }

  /** A character that opens no break tag, in front of tag-free text, makes none. */
  lemma KeptFront(c: char, rest: string)
    requires !BreakTagAt([c] + rest, 0)
    requires forall i :: 0 <= i < |rest| ==> !BreakTagAt(rest, i)
    ensures forall i :: 0 <= i < |[c] + rest| ==> !BreakTagAt([c] + rest, i)
  {
    forall i | 0 <= i < |[c] + rest| ensures !BreakTagAt([c] + rest, i) {
      if i > 0 {
        BreakTagShift([c], rest, i - 1);
      }
    }
  }

  /** No `<br ...>` survives the replacement. */
  lemma {:induction false} NoBreakTagLeft(s: string)
    decreases |s|
    ensures forall i :: 0 <= i < |ReplaceBreakTags(s)| ==> !BreakTagAt(ReplaceBreakTags(s), i)
  {
    var r := ReplaceBreakTags(s);
    if s == [] {
    } else if BreakTagAt(s, 0) {
      var t := s[TagEnd(s)..];
      NoBreakTagLeft(t);
      AppendNoBreak("&nbsp;", ReplaceBreakTags(t));
    } else {
      NoBreakTagLeft(s[1..]);
      KeptStart(s);
      KeptFront(s[0], ReplaceBreakTags(s[1..]));
    }
  }

  /** What each replacement writes: `&nbsp;` for a match at the front, the character itself otherwise. */
  lemma MatchBecomesEntity(s: string)
    requires s != []
    ensures s[0] == '\r' || s[0] == '\n' ==> "&nbsp;" <= ReplaceLineBreaks(s)
    ensures s[0] != '\r' && s[0] != '\n' ==> [s[0]] <= ReplaceLineBreaks(s)
    ensures BreakTagAt(s, 0) ==> "&nbsp;" <= ReplaceBreakTags(s)
    ensures !BreakTagAt(s, 0) ==> [s[0]] <= ReplaceBreakTags(s)
  {
  }

  /** The clean-up of a found date, in the script's order, as line 178 writes it. */
  function NormaliseDate(d: string): string {
    ReplaceBreakTags(ReplaceLineBreaks(StripOnAsWritten(d)))
  }

  /** The clean-up with the evidently intended word-bounded `/\bon\s/gi`. */
  function NormaliseDateIntended(d: string): string {
    ReplaceBreakTags(ReplaceLineBreaks(StripOn(d)))
  }

  /** Either clean-up leaves no line break and no `<br ...>` tag in the date. */
  lemma NormalisedClean(d: string)
    ensures var n := NormaliseDate(d); '\r' !in n && '\n' !in n && forall i :: 0 <= i < |n| ==> !BreakTagAt(n, i)
    ensures var n := NormaliseDateIntended(d); '\r' !in n && '\n' !in n && forall i :: 0 <= i < |n| ==> !BreakTagAt(n, i)
  {
    NoBreakTagLeft(ReplaceLineBreaks(StripOnAsWritten(d)));
    BreakTagsNoLineBreak(ReplaceLineBreaks(StripOnAsWritten(d)));
    NoBreakTagLeft(ReplaceLineBreaks(StripOn(d)));
    BreakTagsNoLineBreak(ReplaceLineBreaks(StripOn(d)));
  }

  const UnknownDate := "Unknown date"

  /** The raw date found among the first `n` queries. */
  function DateAmong(qs: seq<DateQuery>, found: seq<Option<Props>>, n: nat): Option<string>
    requires n <= |found| && n <= |qs|
  {
    var first := FirstHit(qs, found, n);
    if first.None? then None else Hit(qs, found, first.value)
  }

  /** The queries flagged among the first `n`: the deciding one, when it flags. */
  function FlaggedAmong(qs: seq<DateQuery>, found: seq<Option<Props>>, n: nat): seq<nat>
    requires n <= |found| && n <= |qs|
  {
    var first := FirstHit(qs, found, n);
    if first.Some? && qs[first.value].deleteMe then [first.value] else []
  }

  lemma AmongStep(qs: seq<DateQuery>, found: seq<Option<Props>>, i: nat)
    requires i < |found| && i < |qs|
    ensures DateAmong(qs, found, i).Some? ==> DateAmong(qs, found, i + 1) == DateAmong(qs, found, i) && FlaggedAmong(qs, found, i + 1) == FlaggedAmong(qs, found, i)
    ensures DateAmong(qs, found, i).None? ==> DateAmong(qs, found, i + 1) == Hit(qs, found, i) && FlaggedAmong(qs, found, i) == []
    ensures DateAmong(qs, found, i).None? ==> FlaggedAmong(qs, found, i + 1) == if Hit(qs, found, i).Some? && qs[i].deleteMe then [i] else []
  {
  }

  /** The first query to yield a date decides the date and the flag. */
  lemma DateStep(qs: seq<DateQuery>, found: seq<Option<Props>>, i: nat, d: Option<string>, flag: bool)
    requires i < |found| && i < |qs| && DateAmong(qs, found, i).None?
    requires d == Hit(qs, found, i) && (flag <==> qs[i].deleteMe && d.Some?)
    ensures d == DateAmong(qs, found, i + 1)
    ensures FlaggedAmong(qs, found, i + 1) == FlaggedAmong(qs, found, i) + if flag then [i] else []
  {
    AmongStep(qs, found, i);
  }

  /** Only hits inside the article container are ever marked for deletion. */
  lemma FlaggedInContainer(found: seq<Option<Props>>)
    requires |found| == |DateQueries|
    ensures forall k :: 0 <= k < |FlaggedAmong(DateQueries, found, |found|)| ==>
              DateQueries[FlaggedAmong(DateQueries, found, |found|)[k]].scope == InContainer
  {
    var first := FirstHit(DateQueries, found, |found|);
    FirstHitIsFirst(DateQueries, found, |found|);
    if first.Some? {
      var j := first.value;
      assert j < 10;
      assert DateQueries[j].deleteMe ==> DateQueries[j].scope == InContainer;
    }
  }

  /**
   * The chain of queries in `getArticleDate` (`found[i]` answers `qs[i]`):
   * the first query that yields a date decides and later ones are not
   * consulted; `flagged` lists the queries whose hit was marked.
   */
  method RunQueries(qs: seq<DateQuery>, found: seq<Option<Props>>) returns (date: string, flagged: seq<nat>)
    requires |found| == |qs|
    ensures DateAmong(qs, found, |found|).None? ==> date == UnknownDate
    ensures DateAmong(qs, found, |found|).Some? ==> date == NormaliseDate(DateAmong(qs, found, |found|).value)
    ensures flagged == FlaggedAmong(qs, found, |found|)
  {
    var hit: Option<string> := None;
    flagged := [];
    var i := 0;
    while i < |found|
      invariant 0 <= i <= |found|
      invariant hit == DateAmong(qs, found, i)
      invariant flagged == FlaggedAmong(qs, found, i)
    {
      if hit.None? {
        var d, flag := CheckElemForDate(found[i], qs[i].attrs, qs[i].deleteMe);
        DateStep(qs, found, i, d, flag);
        hit := d;
        if flag {
          flagged := flagged + [i];
        }
      } else {
        AmongStep(qs, found, i);
      }
      i := i + 1;
    }
    if hit.Some? {
      date := NormaliseDate(hit.value);
    } else {
      date := UnknownDate;
    }
  }

  /** `getArticleDate`: the chain run over the script's ten queries, `found[i]` answering `DateQueries[i]`. */
  method ArticleDate(found: seq<Option<Props>>) returns (date: string, flagged: seq<nat>)
    requires |found| == |DateQueries|
    ensures DateAmong(DateQueries, found, |found|).None? ==> date == UnknownDate
    ensures DateAmong(DateQueries, found, |found|).Some? ==> date == NormaliseDate(DateAmong(DateQueries, found, |found|).value)
    ensures flagged == FlaggedAmong(DateQueries, found, |found|)
  {
    date, flagged := RunQueries(DateQueries, found);
  }
}

module DateSamples {
  import opened Strings
  import opened Dates

  /** As written, the "on" inside "Mon" goes with the space after it. */
  lemma {:induction false} MondayMangled(s: string)
    requires s == "Mon 5 June"
    ensures StripOnAsWritten(s) == "M5 June"
  {
    MondayFromOne(s);
    assert RemoveFrom(s, "on", 0, false) == "M5 June" by {
      NotWordSpaceAt(s, "on", 0);
      RemoveKeep(s, "on", 0, false);
    }
  }

  /** From the "on " of "Mon 5 June" on, as written: the "on " goes and "5 June" stays. */
  lemma MondayFromOne(s: string)
    requires s == "Mon 5 June"
    ensures RemoveFrom(s, "on", 1, false) == "5 June"
  {
    assert s[4..] == "5 June";
    NoLetterNoRemoval(s, "on", 4, false);
    assert Lower(s[1..3]) == "on";
    RemoveMatch(s, "on", 1, false);
  }


  /** A text without `<` holds no break tag, so the last replacement keeps it. */
  lemma NoAngle(t: string)
    requires '<' !in t
    ensures ReplaceBreakTags(t) == t
  {
    assert forall i :: 0 <= i < |t| ==> !BreakTagAt(t, i);
  }

  /** The whole clean-up of the script turns the date "Mon 5 June" into "M5 June". */
  lemma MondayDate(s: string)
    requires s == "Mon 5 June"
    ensures NormaliseDate(s) == "M5 June"
  {
    MondayMangled(s);
    var t := StripOnAsWritten(s);
    assert '\r' !in t && '\n' !in t && '<' !in t;
    NoAngle(ReplaceLineBreaks(t));
  }

  /** With the word boundary, "Mon" keeps its letters. */
  lemma {:induction false} MondayKept(s: string)
    requires s == "Mon 5 June"
    ensures StripOn(s) == s
  {
    forall k | 0 <= k < |s| ensures WordSpaceAt(s, "on", k) ==> !WordStart(s, k) {
      if k != 1 {
        NotWordSpaceAt(s, "on", k);
      }
    }
    StripOnKeeps(s);
  }

  /** The intended clean-up keeps the date "Mon 5 June" whole. */
  lemma MondayDateIntended(s: string)
    requires s == "Mon 5 June"
    ensures NormaliseDateIntended(s) == s
  {
    MondayKept(s);
    assert '\r' !in s && '\n' !in s && '<' !in s;
    NoAngle(ReplaceLineBreaks(s));
  }

  /** With the word boundary, the word "on" still goes. */
  lemma {:induction false} WordOnStripped(t: string)
    requires t == "on 5 June"
    ensures StripOn(t) == "5 June"
  {
    assert Lower(t[0..2]) == "on";
    assert t[3..] == "5 June";
    NoLetterNoRemoval(t, "on", 3, true);
    RemoveMatch(t, "on", 0, true);
  }
}
