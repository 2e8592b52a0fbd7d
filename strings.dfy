/**
 * String primitives of JavaScript that the content script relies on:
 * `indexOf`, the regular-expression class `\s`, ASCII case mapping,
 * `split(" ")` / `join(" ")` and the `\S+` word count.
 * A string is a sequence of characters, and its length counts characters.
 */
module Strings {

  /** `pat` occurs in `s` starting at position `k`. */
  predicate OccursAt(s: string, pat: string, k: int) {
    0 <= k && k + |pat| <= |s| && s[k..k + |pat|] == pat
  }

  /** `s.indexOf(pat, from)`: the first occurrence at or after `from`, or -1. */
  function IndexFrom(s: string, pat: string, from: nat): (r: int)
    decreases |s| - from
    ensures r == -1 || from <= r
    ensures r >= 0 ==> OccursAt(s, pat, r)
    ensures r >= 0 ==> forall k :: from <= k < r ==> !OccursAt(s, pat, k)
    ensures r == -1 ==> forall k :: from <= k ==> !OccursAt(s, pat, k)
  {
    if from + |pat| > |s| then -1
    else if s[from..from + |pat|] == pat then from
    else IndexFrom(s, pat, from + 1)
  }

  /** `s.indexOf(pat)`. */
  function IndexOf(s: string, pat: string): (r: int)
    ensures r >= 0 ==> OccursAt(s, pat, r) && forall k :: 0 <= k < r ==> !OccursAt(s, pat, k)
    ensures r < 0 ==> r == -1 && forall k :: !OccursAt(s, pat, k)
  {
    IndexFrom(s, pat, 0)
  }

  /** A found occurrence fixes `indexOf` once every earlier position is excluded. */
  lemma IndexOfAt(s: string, pat: string, k: nat)
    requires OccursAt(s, pat, k)
    requires forall i :: 0 <= i < k ==> !OccursAt(s, pat, i)
    ensures IndexOf(s, pat) == k
  {
  }

  /**
   * A pattern whose second character does not appear in `s[..k + 1]` cannot
   * start before `k`, so an occurrence at `k` is the first.
   */
  lemma FirstOccurrence(s: string, pat: string, k: nat)
    requires |pat| >= 2 && OccursAt(s, pat, k) && pat[1] !in s[..k + 1]
    ensures IndexOf(s, pat) == k
  {
    forall i | 0 <= i < k ensures !OccursAt(s, pat, i) {
      assert s[..k + 1][i + 1] == s[i + 1];
      assert s[i..i + |pat|][1] == s[i + 1];
    }
  }

  /** A pattern whose second character does not appear in `s` does not occur in it. */
  lemma Absent(s: string, pat: string)
    requires |pat| >= 2 && pat[1] !in s
    ensures IndexOf(s, pat) == -1
  {
    forall i | 0 <= i && i + |pat| <= |s| ensures !OccursAt(s, pat, i) {
      assert s[i..i + |pat|][1] == s[i + 1];
    }
  }

  /** The characters of JavaScript's `\s`: ECMAScript WhiteSpace and LineTerminator. */
  predicate IsSpace(c: char) {
    || c == '\t' || c == '\n' || c == '\U{B}' || c == '\U{C}' || c == '\r' || c == ' '
    || c == '\U{A0}' || c == '\U{1680}' || ('\U{2000}' <= c <= '\U{200A}')
    || c == '\U{2028}' || c == '\U{2029}' || c == '\U{202F}' || c == '\U{205F}'
    || c == '\U{3000}' || c == '\U{FEFF}'
  }

  /** Some character of `s` is not in `\s` (`s.replace(/\s/g, '') !== ""`). */
  predicate HasNonSpace(s: string) {
    exists i :: 0 <= i < |s| && !IsSpace(s[i])
  }

  /**
   * The number of `\S+` tokens in `s`, i.e. `s.match(/\S+/g).length`
   * (where `match` gives `null` for zero tokens): a token starts at every
   * non-space character that is first or follows a space.
   */
  function WordCount(s: string): (n: nat)
    decreases |s|
    ensures n <= |s|
    ensures n == 0 <==> !HasNonSpace(s)
  {
    if s == [] then 0
    else
      var p := s[..|s| - 1];
      assert forall i :: 0 <= i < |p| ==> p[i] == s[i];
      var starts := !IsSpace(s[|s| - 1]) && (|s| == 1 || IsSpace(s[|s| - 2]));
      WordCount(p) + if starts then 1 else 0
  }

  /** The number of maximal `\s+` runs in `s`: `s.split(/\s+/).length` is this plus one. */
  function SpaceRuns(s: string): (n: nat)
    decreases |s|
    ensures n <= |s|
    ensures n == 0 <==> forall i :: 0 <= i < |s| ==> !IsSpace(s[i])
  {
    if s == [] then 0
    else
      var starts := IsSpace(s[|s| - 1]) && (|s| == 1 || !IsSpace(s[|s| - 2]));
      assert forall i :: 0 <= i < |s| - 1 ==> s[..|s| - 1][i] == s[i];
      SpaceRuns(s[..|s| - 1]) + if starts then 1 else 0
  }

  /** The number of `' '` characters: `s.split(' ').length` is this plus one. */
  function CountSpaces(s: string): (n: nat)
    ensures n <= |s|
    ensures n == 0 <==> ' ' !in s
  {
    if s == [] then 0 else (if s[0] == ' ' then 1 else 0) + CountSpaces(s[1..])
  }

  predicate IsLowerAscii(c: char) { 'a' <= c <= 'z' }
  predicate IsUpperAscii(c: char) { 'A' <= c <= 'Z' }

  /** `toUpperCase` restricted to ASCII letters. */
  function UpperChar(c: char): (u: char)
    ensures !IsLowerAscii(u)
  {
    if IsLowerAscii(c) then (c as int - 32) as char else c
  }

  /** `toLowerCase` restricted to ASCII letters. */
  function LowerChar(c: char): (l: char)
    ensures !IsUpperAscii(l)
    ensures LowerChar(UpperChar(c)) == l
  {
    if IsUpperAscii(c) then (c as int + 32) as char else c
  }

  function Upper(s: string): (u: string)
    ensures |u| == |s| && forall i :: 0 <= i < |s| ==> u[i] == UpperChar(s[i])
  {
    seq(|s|, i requires 0 <= i < |s| => UpperChar(s[i]))
  }

  function Lower(s: string): (l: string)
    ensures |l| == |s| && forall i :: 0 <= i < |s| ==> l[i] == LowerChar(s[i])
  {
    seq(|s|, i requires 0 <= i < |s| => LowerChar(s[i]))
  }

  /** Upper-casing fixes exactly the strings without a lower-case letter. */
  lemma UpperFixes(s: string)
    ensures Upper(s) == s <==> forall i :: 0 <= i < |s| ==> !IsLowerAscii(s[i])
  {
    if Upper(s) == s {
      forall i | 0 <= i < |s| ensures !IsLowerAscii(s[i]) {
        assert s[i] == Upper(s)[i];
      }
    }
  }

  lemma LowerConcat(a: string, b: string)
    ensures Lower(a + b) == Lower(a) + Lower(b)
  {
  }

  /** `s.split(" ")`: the pieces between single spaces, in order; never empty. */
  function Split(s: string): (ws: seq<string>)
    decreases |s|
    ensures |ws| == CountSpaces(s) + 1
    ensures forall k :: 0 <= k < |ws| ==> ' ' !in ws[k]
  {
    var i := IndexOf(s, " ");
    if i < 0 then
      assert forall k :: 0 <= k < |s| ==> !OccursAt(s, " ", k);
      assert ' ' !in s by {
        forall k | 0 <= k < |s| ensures s[k] != ' ' {
          assert !OccursAt(s, " ", k);
          assert s[k..k + 1] == [s[k]];
        }
      }
      [s]
    else
      assert s[i..i + 1] == " ";
      assert ' ' !in s[..i] by {
        forall k | 0 <= k < i ensures s[k] != ' ' {
          assert !OccursAt(s, " ", k);
          assert s[k..k + 1] == [s[k]];
        }
      }
      SplitCount(s, i);
      [s[..i]] + Split(s[i + 1..])
  }

  lemma {:induction false} SplitCount(s: string, i: nat)
    requires i < |s| && s[i] == ' ' && ' ' !in s[..i]
    ensures CountSpaces(s) == 1 + CountSpaces(s[i + 1..])
    decreases i
  {
    if i > 0 {
      assert s[1..][..i - 1] == s[1..i];
      assert ' ' !in s[1..][..i - 1];
      SplitCount(s[1..], i - 1);
      assert s[1..][i..] == s[i + 1..];
    }
  }

  /** `ws.join(" ")`. */
  function Join(ws: seq<string>): (s: string)
    decreases |ws|
  {
    if ws == [] then "" else if |ws| == 1 then ws[0] else ws[0] + " " + Join(ws[1..])
  }

  /** Splitting and re-joining on single spaces gives back the string. */
  lemma {:induction false} JoinSplit(s: string)
    ensures Join(Split(s)) == s
    decreases |s|
  {
    var i := IndexOf(s, " ");
    if i >= 0 {
      JoinSplit(s[i + 1..]);
      assert s[i..i + 1] == " ";
      assert s == s[..i] + " " + s[i + 1..];
    }
  }

  /** Joining space-free words and splitting again gives back the words. */
  lemma {:induction false} SplitJoin(ws: seq<string>)
    requires |ws| >= 1
    requires forall k :: 0 <= k < |ws| ==> ' ' !in ws[k]
    ensures Split(Join(ws)) == ws
    decreases |ws|
  {
    var s := Join(ws);
    if |ws| == 1 {
      forall k | 0 <= k < |s| ensures !OccursAt(s, " ", k) {
        assert s[k..k + 1][0] == s[k];
      }
    } else {
      var w := ws[0];
      assert s == w + " " + Join(ws[1..]);
      forall k | 0 <= k < |w| ensures !OccursAt(s, " ", k) {
        assert s[k..k + 1][0] == s[k] == w[k];
      }
      assert OccursAt(s, " ", |w|);
      IndexOfAt(s, " ", |w|);
      assert s[|w| + 1..] == Join(ws[1..]);
      assert s[..|w|] == w;
      SplitJoin(ws[1..]);
    }
  }

  /** `\w`: ASCII letters, digits and the underscore. */
  predicate IsWordChar(c: char) {
    'a' <= c <= 'z' || 'A' <= c <= 'Z' || '0' <= c <= '9' || c == '_'
  }

  /** The lower-case word `w`, in any ASCII case, followed by a `\s` character, starts at `i`. */
  predicate WordSpaceAt(s: string, w: string, i: nat) {
    i + |w| < |s| && Lower(s[i..i + |w|]) == w && IsSpace(s[i + |w|])
  }

  /** `i` starts a word: nothing, or a non-word character, comes before it (`\b` before a letter). */
  predicate WordStart(s: string, i: nat)
    requires i < |s|
  {
    i == 0 || !IsWordChar(s[i - 1])
  }

  /** A position whose letter cannot start `w` is no occurrence of it. */
  lemma NotWordSpaceAt(s: string, w: string, k: nat)
    requires |w| >= 1 && k < |s| && LowerChar(s[k]) != w[0]
    ensures !WordSpaceAt(s, w, k)
  {
    if k + |w| < |s| {
      assert Lower(s[k..k + |w|])[0] == LowerChar(s[k]);
    }
  }

  /**
   * `s.replace(/w\s/gi, '')` from position `i` on: every match, scanning left
   * to right without overlap, is deleted. With `bounded` a match must also
   * start a word, as with `/\bw\s/gi`.
   */
  function RemoveFrom(s: string, w: string, i: nat, bounded: bool): (r: string)
    requires i <= |s|
    decreases |s| - i
    ensures |r| <= |s| - i
  {
    if i == |s| then []
    else if WordSpaceAt(s, w, i) && (!bounded || WordStart(s, i)) then RemoveFrom(s, w, i + |w| + 1, bounded)
    else [s[i]] + RemoveFrom(s, w, i + 1, bounded)
  }

  /** Where no match is to be deleted, the rest of the text is kept as it is. */
  lemma {:induction false} RemoveNothing(s: string, w: string, i: nat, bounded: bool)
    requires i <= |s|
    ensures (forall k :: i <= k < |s| && WordSpaceAt(s, w, k) ==> bounded && !WordStart(s, k)) ==>
            RemoveFrom(s, w, i, bounded) == s[i..]
    decreases |s| - i
  {
    if i < |s| {
      RemoveNothing(s, w, i + 1, bounded);
    }
  }

  /** A tail holding no letter that could start `w` comes through the removal unchanged. */
  lemma NoLetterNoRemoval(s: string, w: string, from: nat, bounded: bool)
    requires |w| >= 1 && from <= |s|
    requires forall c :: c in s[from..] ==> LowerChar(c) != w[0]
    ensures RemoveFrom(s, w, from, bounded) == s[from..]
  {
    forall k | from <= k < |s| ensures !WordSpaceAt(s, w, k) {
      assert s[k] == s[from..][k - from];
      NotWordSpaceAt(s, w, k);
    }
    RemoveNothing(s, w, from, bounded);
  }

  /** A match at `i` is deleted together with its space. */
  lemma RemoveMatch(s: string, w: string, i: nat, bounded: bool)
    requires i < |s| && WordSpaceAt(s, w, i) && (!bounded || WordStart(s, i))
    ensures RemoveFrom(s, w, i, bounded) == RemoveFrom(s, w, i + |w| + 1, bounded)
  {
  }

  /** A position where no match is deleted keeps its character. */
  lemma RemoveKeep(s: string, w: string, i: nat, bounded: bool)
    requires i < |s| && !(WordSpaceAt(s, w, i) && (!bounded || WordStart(s, i)))
    ensures RemoveFrom(s, w, i, bounded) == [s[i]] + RemoveFrom(s, w, i + 1, bounded)
  {
  }
}
