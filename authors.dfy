/**
 * Author extraction: the cascade of `getArticleAuthor` over five places an
 * author may be named, the re-capitalisation of an all-caps name and the
 * removal of a leading "by".
 */
module Authors {
  import opened Wrappers
  import opened Strings

  /** `charAt(0).toUpperCase() + substr(1).toLowerCase()`. */
  function Capitalise(w: string): (c: string)
    ensures |c| == |w|
    ensures |w| > 0 ==> c[0] == UpperChar(w[0])
    ensures forall k :: 1 <= k < |w| ==> c[k] == LowerChar(w[k])
  {
    if w == [] then [] else Upper(w[..1]) + Lower(w[1..])
  }

  /** Changing the case of ASCII letters never makes or removes a space. */
  lemma CaseKeepsSpaces(c: char)
    ensures (UpperChar(c) == ' ') == (c == ' ') && (LowerChar(c) == ' ') == (c == ' ')
  {
  }

  /** Re-casing to `r` keeps the length and the letters up to case, and makes no space. */
  predicate SameUpToCase(w: string, r: string) {
    |r| == |w| && Lower(r) == Lower(w) && (' ' !in w ==> ' ' !in r)
  }

  /** Both case mappings of a word keep it the same up to case. */
  lemma CaseMappings(w: string)
    ensures SameUpToCase(w, Lower(w)) && SameUpToCase(w, Capitalise(w))
  {
    var c := Capitalise(w);
    assert forall k :: 0 <= k < |w| ==> Lower(c)[k] == Lower(w)[k];
    forall k | 0 <= k < |w| ensures c[k] != ' ' || w[k] == ' ' {
      CaseKeepsSpaces(w[k]);
    }
    forall k | 0 <= k < |w| ensures Lower(w)[k] != ' ' || w[k] == ' ' {
      CaseKeepsSpaces(w[k]);
    }
  }

  /**
   * The case given to word `i` of `n` as the loop at line 240 writes it: the
   * guard `i != n` always holds inside the loop, so a short last word is
   * lower-cased like a particle ("de", "van").
   */
  function WordCaseAsWritten(w: string, i: nat, n: nat): (r: string)
    ensures SameUpToCase(w, r)
    ensures (i == 0 || i == n || |w| >= 3) && |w| > 0 ==> r[0] == UpperChar(w[0])
    ensures forall k :: 0 <= k < |w| && (k > 0 || (0 < i && i != n && |w| < 3)) ==> r[k] == LowerChar(w[k])
  {
    CaseMappings(w);
    if |w| < 3 && i != 0 && i != n then Lower(w) else Capitalise(w)
  }

  /**
   * The evidently intended rule: short words between the first and the last
   * are particles and go lower-case, every other word is capitalised.
   */
  function WordCase(w: string, i: nat, n: nat): (r: string)
    ensures SameUpToCase(w, r)
    ensures (i == 0 || i + 1 == n || |w| >= 3) && |w| > 0 ==> r[0] == UpperChar(w[0])
    ensures forall k :: 0 <= k < |w| && (k > 0 || (0 < i && i + 1 != n && |w| < 3)) ==> r[k] == LowerChar(w[k])
  {
    CaseMappings(w);
    if |w| < 3 && i != 0 && i != n - 1 then Lower(w) else Capitalise(w)
  }

  /** Every word re-cased by its position, as line 240 writes it. */
  function RecasedAsWritten(ws: seq<string>): (rs: seq<string>)
    ensures |rs| == |ws| && forall i :: 0 <= i < |ws| ==> rs[i] == WordCaseAsWritten(ws[i], i, |ws|)
  {
    seq(|ws|, i requires 0 <= i < |ws| => WordCaseAsWritten(ws[i], i, |ws|))
  }

  /** Every word re-cased by its position, with the intended last-word rule. */
  function Recased(ws: seq<string>): (rs: seq<string>)
    ensures |rs| == |ws| && forall i :: 0 <= i < |ws| ==> rs[i] == WordCase(ws[i], i, |ws|)
  {
    seq(|ws|, i requires 0 <= i < |ws| => WordCase(ws[i], i, |ws|))
  }

  /** An author in capitals only (`author === author.toUpperCase()`) is re-cased word by word, as written. */
  function Recapitalised(author: string): string {
    if Upper(author) == author then Join(RecasedAsWritten(Split(author))) else author
  }

  /** The re-capitalisation with the intended last-word rule. */
  function RecapitalisedIntended(author: string): string {
    if Upper(author) == author then Join(Recased(Split(author))) else author
  }

  function LowerAll(ws: seq<string>): (ls: seq<string>)
    ensures |ls| == |ws| && forall i :: 0 <= i < |ws| ==> ls[i] == Lower(ws[i])
  {
    seq(|ws|, i requires 0 <= i < |ws| => Lower(ws[i]))
  }

  /** Lower-casing commutes with joining on spaces. */
  lemma {:induction false} LowerJoin(ws: seq<string>)
    ensures Lower(Join(ws)) == Join(LowerAll(ws))
    decreases |ws|
  {
    if |ws| > 1 {
      LowerJoin(ws[1..]);
      assert LowerAll(ws)[1..] == LowerAll(ws[1..]);
      LowerConcat(ws[0] + " ", Join(ws[1..]));
      LowerConcat(ws[0], " ");
    }
  }

  /** Joining words each the same up to case as the originals gives the same up to case. */
  lemma JoinUpToCase(ws: seq<string>, rs: seq<string>)
    requires |rs| == |ws| && forall i :: 0 <= i < |ws| ==> Lower(rs[i]) == Lower(ws[i])
    ensures Lower(Join(rs)) == Lower(Join(ws))
  {
    LowerJoin(rs);
    LowerJoin(ws);
    assert LowerAll(rs) == LowerAll(ws);
  }

  /** Re-capitalising, as written or as intended, changes the case of letters and nothing else. */
  lemma RecapitalisedOnlyCase(author: string)
    ensures Lower(Recapitalised(author)) == Lower(author)
    ensures Lower(RecapitalisedIntended(author)) == Lower(author)
  {
    if Upper(author) == author {
      var ws := Split(author);
      JoinUpToCase(ws, RecasedAsWritten(ws));
      JoinUpToCase(ws, Recased(ws));
      JoinSplit(author);
    }
  }

  /**
   * An all-caps author splits, after re-capitalisation, into the re-cased
   * words of the original, as written and as intended.
   */
  lemma RecapitalisedWords(author: string)
    requires Upper(author) == author
    ensures Split(Recapitalised(author)) == RecasedAsWritten(Split(author))
    ensures Split(RecapitalisedIntended(author)) == Recased(Split(author))
  {
    var ws := Split(author);
    SplitJoin(RecasedAsWritten(ws));
    SplitJoin(Recased(ws));
  }

  /** The re-capitalisation loop of `getArticleAuthor`, words rewritten in place. */
  method Recapitalise(author: string) returns (r: string)
    ensures r == Recapitalised(author)
    ensures Lower(r) == Lower(author)
    ensures Upper(author) != author ==> r == author
  {
    r := author;
    if author == Upper(author) {
      var words := Split(author);
      ghost var original := words;
      var wordsLength := |words|;
      var i := 0;
      while i < wordsLength
        invariant 0 <= i <= wordsLength == |words|
        invariant forall k :: 0 <= k < i ==> words[k] == WordCaseAsWritten(original[k], k, wordsLength)
        invariant forall k :: i <= k < wordsLength ==> words[k] == original[k]
      {
        if |words[i]| < 3 && i != 0 && i != wordsLength {
          words := words[i := Lower(words[i])];
        } else {
          words := words[i := Capitalise(words[i])];
        }
        i := i + 1;
      }
      assert words == RecasedAsWritten(original);
      r := Join(words);
    }
    RecapitalisedOnlyCase(author);
  }

  /** `author.replace(/by\s/ig, '')` as written: "by " goes inside names too. */
  function StripByAsWritten(a: string): (r: string)
    ensures |r| <= |a|
  {
    RemoveFrom(a, "by", 0, false)
  }

  /** The evidently intended `/\bby\s/ig`: only the word "by" goes. */
  function StripBy(a: string): (r: string)
    ensures |r| <= |a|
  {
    RemoveFrom(a, "by", 0, true)
  }

  /**
   * Both removals leave the name unchanged when there is nothing for them to
   * remove: as written, no "by" followed by a space anywhere; with the word
   * boundary, none at the start of a word.
   */
  lemma {:induction false} StripByKeeps(a: string)
    ensures (forall k :: 0 <= k < |a| ==> !WordSpaceAt(a, "by", k)) ==> StripByAsWritten(a) == a
    ensures (forall k :: 0 <= k < |a| && WordSpaceAt(a, "by", k) ==> !WordStart(a, k)) ==> StripBy(a) == a
  {
    assert a[0..] == a;
    RemoveNothing(a, "by", 0, false);
    RemoveNothing(a, "by", 0, true);
  }

  /**
   * The `innerText` (or meta `content`) found in each place the script looks,
   * `None` when the query finds nothing (for `meta`, also when it has no
   * `content` attribute).
   */
  datatype AuthorSources = AuthorSources(
    containerRel: Option<string>,
    containerClass: Option<string>,
    metaContent: Option<string>,
    bodyRel: Option<string>,
    bodyClass: Option<string>)

  /** Short and not blank: `split(/\s+/).length < limit` and `replace(/\s/g,'') !== ""`. */
  predicate Plausible(text: Option<string>, limit: nat) {
    text.Some? && SpaceRuns(text.value) + 1 < limit && HasNonSpace(text.value)
  }

  /**
   * The author the cascade settles on, as a priority list: a plausible body
   * `rel` link wins over everything, then the container's `rel`, the
   * container's class, the meta tag and last the body's class.
   */
  function ChosenAuthor(src: AuthorSources): Option<string> {
    if Plausible(src.bodyRel, 5) then src.bodyRel
    else if Plausible(src.containerRel, 5) then src.containerRel
    else if Plausible(src.containerClass, 5) then src.containerClass
    else if src.metaContent.Some? then src.metaContent
    else if Plausible(src.bodyClass, 6) then src.bodyClass
    else None
  }

  const UnknownAuthor := "Unknown author"

  /**
   * The cascade of checks of `getArticleAuthor`, in the script's order;
   * `flagRel` and `flagClass` are the `simpleDelete` marks set on the
   * container's `rel` and class elements.
   */
  method ChooseAuthor(src: AuthorSources) returns (found: Option<string>, flagRel: bool, flagClass: bool)
    ensures found == ChosenAuthor(src)
    ensures flagRel <==> Plausible(src.containerRel, 5)
    ensures flagClass <==> !Plausible(src.containerRel, 5) && Plausible(src.containerClass, 5)
  {
    found := None;
    flagRel, flagClass := false, false;
    if src.containerRel.Some? {
      var text := src.containerRel.value;
      if SpaceRuns(text) + 1 < 5 && HasNonSpace(text) {
        flagRel := true;
        found := Some(text);
      }
    }
    if found.None? && src.containerClass.Some? {
      var text := src.containerClass.value;
      if SpaceRuns(text) + 1 < 5 && HasNonSpace(text) {
        flagClass := true;
        found := Some(text);
      }
    }
    if found.None? && src.metaContent.Some? {
      found := src.metaContent;
    }
    if src.bodyRel.Some? {
      var text := src.bodyRel.value;
      if SpaceRuns(text) + 1 < 5 && HasNonSpace(text) {
        found := Some(text);
      }
    }
    if found.None? && src.bodyClass.Some? {
      var text := src.bodyClass.value;
      if SpaceRuns(text) + 1 < 6 && HasNonSpace(text) {
        found := Some(text);
      }
    }
  }

  /** `getArticleAuthor`: the chosen author re-capitalised and stripped of "by ", or the default. */
  method ArticleAuthor(src: AuthorSources) returns (author: string, flagRel: bool, flagClass: bool)
    ensures ChosenAuthor(src).None? ==> author == UnknownAuthor
    ensures ChosenAuthor(src).Some? ==> author == StripByAsWritten(Recapitalised(ChosenAuthor(src).value))
    ensures flagRel <==> Plausible(src.containerRel, 5)
    ensures flagClass <==> !Plausible(src.containerRel, 5) && Plausible(src.containerClass, 5)
  {
    var found;
    found, flagRel, flagClass := ChooseAuthor(src);
    if found.Some? {
      author := Recapitalise(found.value);
      author := StripByAsWritten(author);
    } else {
      author := UnknownAuthor;
    }
  }

  /**
   * The author `getArticleAuthor` evidently means to give: a short last word
   * capitalised like the first, and only the word "by" removed.
   */
  function IntendedAuthor(src: AuthorSources): (r: string)
    ensures ChosenAuthor(src).None? ==> r == UnknownAuthor
    ensures ChosenAuthor(src).Some? ==> |r| <= |ChosenAuthor(src).value|
  {
    match ChosenAuthor(src)
    case None => UnknownAuthor
    case Some(a) =>
      RecapitalisedOnlyCase(a);
      StripBy(RecapitalisedIntended(a))
  }

  /**
   * The two fixes change nothing for a name that is not all capitals and holds
   * no "by " at all: the script and the intended rule both keep it whole.
   */
  lemma IntendedAgrees(a: string)
    requires Upper(a) != a
    requires forall k :: 0 <= k < |a| ==> !WordSpaceAt(a, "by", k)
    ensures StripByAsWritten(Recapitalised(a)) == a
    ensures StripBy(RecapitalisedIntended(a)) == a
  {
    StripByKeeps(a);
  }
}

module AuthorSamples {
  import opened Strings
  import opened Authors

  /** As written, a short surname is taken for a particle. */
  lemma ShortSurname()
    ensures WordCaseAsWritten("LI", 1, 2) == "li"
    ensures WordCase("LI", 1, 2) == "Li"
    ensures WordCase("VAN", 1, 3) == "Van" && WordCase("DE", 1, 3) == "de"
  {
    assert Lower("LI") == "li";
    assert Capitalise("LI") == "Li";
    assert Lower("DE") == "de";
    assert Capitalise("VAN") == "Van";
  }

  /** The two words of "JOHN LI", re-cased as written and as intended. */
  lemma JohnLiWords(ws: seq<string>)
    requires ws == ["JOHN", "LI"]
    ensures RecasedAsWritten(ws) == ["John", "li"]
    ensures Recased(ws) == ["John", "Li"]
  {
    ShortSurname();
    assert Capitalise("JOHN") == "John";
    assert WordCaseAsWritten(ws[0], 0, 2) == "John" == WordCase(ws[0], 0, 2);
  }

  /** "JOHN LI" is in capitals only and splits into its two words. */
  lemma JohnLiSplit(a: string)
    requires a == "JOHN LI"
    ensures Upper(a) == a && Split(a) == ["JOHN", "LI"]
  {
    var ws := ["JOHN", "LI"];
    assert Join(ws) == a;
    SplitJoin(ws);
    forall i | 0 <= i < |a| ensures Upper(a)[i] == a[i] {
      assert 'A' <= a[i] <= 'Z' || a[i] == ' ';
    }
  }

  /** As written, "JOHN LI" becomes "John li"; with the intended rule, "John Li". */
  lemma JohnLi(a: string)
    requires a == "JOHN LI"
    ensures Recapitalised(a) == "John li"
    ensures RecapitalisedIntended(a) == "John Li"
  {
    JohnLiSplit(a);
    JohnLiWords(Split(a));
    assert Join(["John", "li"]) == "John li";
    assert Join(["John", "Li"]) == "John Li";
  }

  /** From the "by " of "Abby Smith" on, as written: the "by " goes and "Smith" stays. */
  lemma AbbyFromTwo(s: string)
    requires s == "Abby Smith"
    ensures RemoveFrom(s, "by", 2, false) == "Smith"
  {
    assert s[5..] == "Smith";
    NoLetterNoRemoval(s, "by", 5, false);
    assert Lower(s[2..4]) == "by";
    RemoveMatch(s, "by", 2, false);
  }

  /** From the second letter of "Abby Smith" on, as written: the "b" before "by " stays. */
  lemma AbbyFromOne(s: string)
    requires s == "Abby Smith"
    ensures RemoveFrom(s, "by", 1, false) == "bSmith"
  {
    AbbyFromTwo(s);
    assert Lower(s[1..3])[1] == 'b';
    RemoveKeep(s, "by", 1, false);
  }

  /** "by " inside a name: as written "Abby Smith" loses three letters and a space. */
  lemma {:induction false} ByInsideName(s: string)
    requires s == "Abby Smith"
    ensures StripByAsWritten(s) == "AbSmith"
  {
    AbbyFromOne(s);
    NotWordSpaceAt(s, "by", 0);
    RemoveKeep(s, "by", 0, false);
  }

  /** With the word boundary, "Abby Smith" keeps every letter. */
  lemma {:induction false} ByInsideNameKept(s: string)
    requires s == "Abby Smith"
    ensures StripBy(s) == s
  {
    forall k | 0 <= k < |s| ensures WordSpaceAt(s, "by", k) ==> !WordStart(s, k) {
      if k == 1 {
        assert Lower(s[1..3])[1] == 'b';
      } else if k != 2 {
        NotWordSpaceAt(s, "by", k);
      }
    }
    StripByKeeps(s);
  }

  /** With the word boundary, a leading "by " still goes. */
  lemma {:induction false} ByWordStripped(s: string)
    requires s == "by Jane"
    ensures StripBy(s) == "Jane"
  {
    assert Lower(s[0..2]) == "by";
    forall k | 3 <= k < |s| ensures !WordSpaceAt(s, "by", k) {
      assert s[k] == s[3..][k - 3];
      NotWordSpaceAt(s, "by", k);
    }
    RemoveNothing(s, "by", 3, true);
    RemoveMatch(s, "by", 0, true);
  }
}
