/**
 * Title extraction (`getArticleTitle`): the document title is cut before the
 * first occurrence of the first separator, in a fixed priority order, that
 * occurs at a position greater than zero.
 */
module Title {
  import opened Wrappers
  import opened Strings

  /** Em dash, en dash, hyphen, pipe and colon, each between single spaces, in the order tried. */
  const Separators: seq<string> :=
    [" \U{2014} ", " \U{2013} ", " - ", " | ", " : "]

  /**
   * The chain of tests: the first separator whose `indexOf` is positive
   * decides, and the result is the part of the title before it.
   */
  function Truncate(title: string, seps: seq<string>): (r: string)
    decreases |seps|
    ensures r <= title
    ensures r == title <==> forall k :: 0 <= k < |seps| ==> IndexOf(title, seps[k]) <= 0
  {
    if seps == [] then title
    else
      var i := IndexOf(title, seps[0]);
      if i > 0 then title[..i] else Truncate(title, seps[1..])
  }

  /** `getArticleTitle` on the text of the document's `<title>`. */
  function ArticleTitle(title: string): (r: string)
    ensures r <= title
    ensures r == title <==> forall k :: 0 <= k < |Separators| ==> IndexOf(title, Separators[k]) <= 0
  {
    Truncate(title, Separators)
  }

  /** What `getArticleTitle` yields: the cut title, or the `TypeError` it throws. */
  datatype TitleResult = Titled(text: string) | TypeError

  /**
   * `getArticleTitle` on the document: `innerText` of a missing `<title>`
   * (`title` is `None`) throws, any present title is cut as above.
   */
  function GetArticleTitle(title: Option<string>): (r: TitleResult)
    ensures r.TypeError? <==> title.None?
    ensures r.Titled? ==> r.text <= title.value
    ensures r.Titled? ==> (r.text == title.value <==> forall k :: 0 <= k < |Separators| ==> IndexOf(title.value, Separators[k]) <= 0)
  {
    match title
    case None => TypeError
    case Some(t) => Titled(ArticleTitle(t))
  }

  /**
   * The separator of highest priority that occurs past the start decides, and
   * the cut is at its first occurrence.
   */
  lemma {:induction false} TruncateAt(title: string, seps: seq<string>, k: nat)
    requires k < |seps| && IndexOf(title, seps[k]) > 0
    requires forall j :: 0 <= j < k ==> IndexOf(title, seps[j]) <= 0
    ensures Truncate(title, seps) == title[..IndexOf(title, seps[k])]
    decreases k
  {
    if k > 0 {
      TruncateAt(title, seps[1..], k - 1);
    }
  }

  /** The em dash outranks the pipe: `"A — B | C"` gives `"A"`. */
  lemma EmDashFirst(t: string)
    requires t == "A \U{2014} B | C"
    ensures ArticleTitle(t) == "A"
  {
    FirstOccurrence(t, Separators[0], 1);
    TruncateAt(t, Separators, 0);
  }

  /** Without a separator the title is kept whole. */
  lemma NoSeparator(t: string)
    requires t == "Just A Title"
    ensures ArticleTitle(t) == t
  {
    Absent(t, Separators[0]);
    Absent(t, Separators[1]);
    Absent(t, Separators[2]);
    Absent(t, Separators[3]);
    Absent(t, Separators[4]);
  }

  /** The hyphen is the first separator found in `"A - B"`, which is cut to `"A"`. */
  lemma HyphenCut(u: string)
    requires u == "A - B"
    ensures ArticleTitle(u) == "A"
  {
    Absent(u, Separators[0]);
    Absent(u, Separators[1]);
    FirstOccurrence(u, Separators[2], 1);
    TruncateAt(u, Separators, 2);
  }

  /**
   * Truncation is not idempotent: `"A - B — C"` is cut at the em dash to
   * `"A - B"`, which a second pass cuts at the hyphen to `"A"`.
   */
  lemma NotIdempotent(t: string)
    requires t == "A - B \U{2014} C"
    ensures ArticleTitle(t) == "A - B"
    ensures ArticleTitle(ArticleTitle(t)) == "A"
  {
    FirstOccurrence(t, Separators[0], 5);
    TruncateAt(t, Separators, 0);
    HyphenCut(ArticleTitle(t));
  }
}
