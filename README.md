# Reading-position engine of the Story Lighting content script

This project models, in Dafny, the decision logic of `contentSniffer.js`, the
content script of the Story Lighting Chrome extension. The script finds the
article on a page, names it (title, author, date), re-finds its paragraphs on
later visits and follows which paragraph the reader is looking at. Each time
that paragraph changes, the script sends its colour to the background page in a
`colorUpdate` message, and the background page logs it.

DOM reads are inputs to the model: the page as a tree of nodes, with text and
rendered height; the boxes `getBoundingClientRect` reports; `innerHeight`; the
hits of `querySelector`; the id and class indexes of the document. Geometry is
exact `real` arithmetic.

Components, one module each:

- `Strings` (`strings.dfy`): the JavaScript string primitives the script
  relies on. These are `indexOf`, the `\s` and `\w` classes, ASCII case
  mapping, `split(" ")`/`join(" ")`, the `\S+` word count and global `replace`
  of a word followed by a space.
- `Title` (`title.dfy`): `getArticleTitle`, truncation at the first of five
  separators.
- `Detector` (`detector.dfy`): the container detector `getArticleContainer()`
  at line 9 and `checkElementAgainstBlacklist`.
- `Locator` (`locator.dfy`): the later `getArticleContainer(container)` at
  line 537, which looks a saved container up again by id or unique class.
- `Dates` (`dates.dfy`): `checkElemForDate` and `getArticleDate`.
- `Authors` (`authors.dfy`): `getArticleAuthor`, including the re-capitalisation
  of all-caps names.
- `Markup` (`markup.dfy`): `markUpArticleParagraphs`, a greedy alignment of the
  saved paragraph texts against the live `<p>` elements.
- `Spies` (`spies.dfy`): `updateParagraphSpies` and `selectDominantParagraph`.
  A scroll spy is a class whose fields the update overwrites in place.
- `Scroll` (`scroll.dfy`): `scrollSpyInit` and `handleScroll`. The global
  `paragraphId` and the sent messages live in a `Session` object.

Where the code and what it evidently means to do differ, the model follows the
code. The operations (`Authors.ArticleAuthor`, `Dates.ArticleDate`) compute
what the script as written computes; the evidently intended variants of the
three defects under "## Findings" are separate members with their own proofs.
Further differences:

- Title truncation is not idempotent: "A - B — C" gives "A - B", which gives
  "A" (`Title.NotIdempotent`).
- A box whose top lies inside the viewport and whose bottom lies below it gets
  `boxVisible = 1`. Line 469 overwrites the `(windowHeight - top) / height` of
  line 458, although `partialView` stays true.
- The detector at line 9 is shadowed by the function declaration of the same
  name at line 537, because the later hoisted declaration wins. Each is
  modelled on its own.

## Model

| member | source | states |
|---|---|---|
| Strings.IndexOf | contentSniffer.js:94-115 | `indexOf` gives the first position where the pattern occurs, or -1 exactly when it occurs nowhere |
| Strings.WordCount | contentSniffer.js:11 | the `\S+` count is at most the length and is zero exactly when the text has no non-space character (where `match` yields `null`) |
| Strings.CountSpaces | contentSniffer.js:130 | the count of `' '` is zero exactly when the string holds no space |
| Strings.SpaceRuns | contentSniffer.js:199 | the number of whitespace runs, behind `split(/\s+/).length` at lines 199, 208, 222 and 229, is at most the length and is zero exactly when the text has no whitespace |
| Strings.Split | contentSniffer.js:237 | `split(" ")` gives one more piece than there are spaces, and no piece holds a space |
| Strings.JoinSplit | contentSniffer.js:237-245 | joining the pieces of `split(" ")` with `" "` gives back the string |
| Strings.SplitJoin | contentSniffer.js:237-245 | splitting the join of space-free words gives back the words |
| Strings.UpperFixes | contentSniffer.js:236 | a string equals its upper-case form exactly when it has no lower-case letter |
| Strings.RemoveFrom | contentSniffer.js:247 | global removal of "word + space" never makes the rest of the text longer |
| Strings.NoLetterNoRemoval | contentSniffer.js:178 | a tail with no letter that could start the removed word comes through `replace(/w\s/gi, '')` unchanged |
| Strings.RemoveNothing | contentSniffer.js:247 | the removal leaves the text unchanged when no "word + space" matches, or, with the word boundary, when every match lies inside a word |
| Title.Truncate | contentSniffer.js:94-117 | the result is a prefix of the title, and is the whole title exactly when no separator first occurs past index 0 |
| Title.GetArticleTitle | contentSniffer.js:89-118 | a page whose head has no `<title>` throws the `TypeError` of line 91, and only such a page; otherwise the result is a prefix of the title, the whole title exactly when no separator first occurs past index 0 |
| Title.ArticleTitle | contentSniffer.js:89-118 | with the five separators in order " — ", " – ", " - ", " \| ", " : ": a prefix of the title, the whole title exactly when none first occurs past index 0 |
| Title.TruncateAt | contentSniffer.js:94-116 | when earlier separators do not qualify and separator k first occurs past index 0, the result is the text before that occurrence |
| Title.EmDashFirst | contentSniffer.js:94-96 | "A — B \| C" gives "A": the em dash is tried first |
| Title.NoSeparator | contentSniffer.js:117 | a title without separators comes back whole |
| Title.HyphenCut | contentSniffer.js:94-107 | "A - B" gives "A": neither dash occurs, the hyphen at index 1 decides |
| Title.NotIdempotent | contentSniffer.js:89-118 | "A - B — C" gives "A - B", and truncating that again gives "A" |
| Detector.Listed | contentSniffer.js:263-270 | an element is listed exactly when some blacklist word is a substring of its class name or its id |
| Detector.CheckElementAgainstBlacklist | contentSniffer.js:259-275 | the element comes back unchanged unless it is missing or listed, and then the result is null |
| Detector.Tagged | contentSniffer.js:12-20 | the tag query lists exactly the nodes with that tag, in document order |
| Detector.Score | contentSniffer.js:24-37 | a candidate weighs something exactly when it and its parent pass the blacklist, it is rendered and it has a word |
| Detector.FirstMax | contentSniffer.js:32-36 | no choice exactly when every weight is zero; otherwise a position of positive weight that no weight exceeds and every earlier weight falls short of |
| Detector.StartIsMostWords | contentSniffer.js:14-38 | the search starts from the body with no words exactly when no candidate is eligible, otherwise from an eligible candidate with its word count, which no eligible candidate exceeds and every earlier eligible candidate falls short of |
| Detector.Hidden | contentSniffer.js:41-42 | the flagged candidates are exactly those with zero rendered height |
| Detector.Climb | contentSniffer.js:46-56 | the climb ends at the start or an ancestor where two fifths of the page's words are covered, the body is reached or the parent has no text; when it fails, it did not stop at the start and some ancestor-or-self below the body has a parent whose text is non-empty but has no word |
| Detector.LocatorOf | contentSniffer.js:64-79 | the locator carries the node's id and class, each listed as a method exactly when non-empty |
| Detector.FindParagraphWithMostWords | contentSniffer.js:23-43 | the search loop ends at the start `Start` describes and flags exactly the hidden candidates |
| Detector.ClimbFirstStop | contentSniffer.js:46-56 | a climb that succeeds ends at the first node on the way up where it can stop: every node it passes below its end neither stops nor has a parent whose text has no word |
| Detector.ClimbFailsFirst | contentSniffer.js:46-56 | a climb that fails meets a parent with text but no word before reaching any node where it could stop, which is where `match(/\S+/g).length` throws |
| Detector.GetArticleContainer | contentSniffer.js:9-82 | the script throws exactly when the page has no word or the climb meets a wordless parent before it can stop; otherwise it picks the climb's end, the first stopping ancestor (its parent when that is a `<p>`), with that node's locator |
| Detector.LocatorRoundTrip | contentSniffer.js:71-79 | a locator built at detection finds its node again by id, or by class when the class is unique, and finds nothing when the node had neither |
| Locator.ElementById | contentSniffer.js:541 | `getElementById("")` finds nothing |
| Locator.ElementsByClassName | contentSniffer.js:546 | `getElementsByClassName("")` finds nothing |
| Locator.Resolve | contentSniffer.js:537-553 | lookup fails exactly when neither the id nor a unique class finds an element; a unique class match wins over the id |
| Locator.EmptyMethodFindsNothing | contentSniffer.js:540-558 | a locator with no method always fails |
| Locator.Container.constructor | contentSniffer.js:583-587 | the container sent for saving carries only its method, class and id, so it arrives back with its locator and no element |
| Locator.GetArticleContainer | contentSniffer.js:537-560 | the same container comes back with its element set to the resolved one, or null when resolution fails, with the element then untouched |
| Dates.LastIndex | contentSniffer.js:126-137 | the position kept is that of the last listed property that is non-empty and under ten space-separated pieces; none exactly when no property qualifies |
| Dates.LastDateIsLastQualifying | contentSniffer.js:126-137 | the date kept is the value of the last qualifying property, and there is none exactly when no property qualifies |
| Dates.CheckElemForDate | contentSniffer.js:124-141 | the loop ends with the last qualifying property's value, none for a missing element; the element is flagged exactly when a date is found and flagging is asked for |
| Dates.FirstHitIsFirst | contentSniffer.js:170-175 | the deciding query yields a date and every earlier one yields none; there is none exactly when no query yields a date |
| Dates.RunQueries | contentSniffer.js:149-181 | the loop over the queries ends with the first date found, cleaned up as line 178 writes it, or "Unknown date", and flags only the deciding hit when its query deletes |
| Dates.FlaggedInContainer | contentSniffer.js:157-175 | of the ten queries, only hits inside the article container are ever flagged |
| Dates.StripOnAsWritten | contentSniffer.js:178 | `/on\s/gi` never lengthens the date |
| Dates.StripOn | contentSniffer.js:178 | the word-bounded removal never lengthens the date |
| Dates.StripOnKeeps | contentSniffer.js:178 | as written the date is unchanged when no "on " occurs; with the word boundary, when every "on " lies inside a word |
| Dates.ReplaceLineBreaks | contentSniffer.js:178 | no carriage return or line feed survives; a text without them is unchanged |
| Dates.ReplaceBreakTags | contentSniffer.js:178 | a text with no closed `<br` tag is unchanged |
| Dates.MatchBecomesEntity | contentSniffer.js:178 | a line break or a closed `<br` tag at the front becomes `&nbsp;`, and any other first character is kept |
| Dates.NoBreakTagLeft | contentSniffer.js:178 | no `<br ...>` closed by a later `>`, in any case, is left after the replacement |
| Dates.BreakTagsNoLineBreak | contentSniffer.js:178 | the tag replacement brings in no carriage return or line feed |
| Dates.NormalisedClean | contentSniffer.js:178 | the whole clean-up of a date, as written and as intended, leaves no line break and no `<br ...>` tag |
| Dates.ArticleDate | contentSniffer.js:149-181 | over the ten queries in the script's order, the first yielding a date decides, its value is cleaned up as line 178 writes it, "Unknown date" otherwise; only the deciding hit is flagged, when its query deletes |
| DateSamples.MondayMangled | contentSniffer.js:178 | as written, "Mon 5 June" becomes "M5 June" |
| DateSamples.MondayKept | contentSniffer.js:178 | with a word boundary, "Mon 5 June" is unchanged |
| DateSamples.MondayDate | contentSniffer.js:178 | the whole clean-up as written turns the date "Mon 5 June" into "M5 June" |
| DateSamples.MondayDateIntended | contentSniffer.js:178 | the whole clean-up with a word boundary keeps "Mon 5 June" |
| DateSamples.WordOnStripped | contentSniffer.js:178 | with a word boundary, "on 5 June" still becomes "5 June" |
| Authors.Capitalise | contentSniffer.js:243 | the first letter is upper-cased and the rest lower-cased, length kept |
| Authors.WordCaseAsWritten | contentSniffer.js:239-243 | as line 240 writes it: re-casing keeps length, spaces and letters up to case; the first word and words of three or more letters start upper-case, every other short word, the last included, goes lower-case |
| Authors.WordCase | contentSniffer.js:239-243 | with the intended last-word test: re-casing keeps length, spaces and letters up to case; the first and last words and words of three or more letters start upper-case, short middle words go lower-case |
| Authors.RecapitalisedOnlyCase | contentSniffer.js:236-246 | re-capitalising, as written and as intended, changes only the case of letters |
| Authors.RecapitalisedWords | contentSniffer.js:237-245 | an all-caps name splits afterwards into exactly the words of the original, each re-cased by the rule of line 240 as written (and, for the intended variant, by the intended rule) |
| Authors.Recapitalise | contentSniffer.js:236-246 | the loop, with the guard of line 240 as written, rewrites an all-caps name word by word into the as-written re-capitalisation and leaves any other name alone; only case changes |
| Authors.StripByAsWritten | contentSniffer.js:247 | `/by\s/ig` never lengthens the name |
| Authors.StripBy | contentSniffer.js:247 | the word-bounded removal never lengthens the name |
| Authors.StripByKeeps | contentSniffer.js:247 | as written the name is unchanged when no "by " occurs; with the word boundary, when every "by " lies inside a word |
| Authors.ChooseAuthor | contentSniffer.js:189-233 | the sequential checks settle on the priority list: a plausible body `rel` link, the container's `rel`, the container's class, the meta tag, the body's class; the container's `rel` is flagged when plausible, its class only when the `rel` was not |
| Authors.ArticleAuthor | contentSniffer.js:189-251 | the author chosen is a plausible body `rel` link first, then the container's `rel`, the container's class, the meta tag, the body's class, then "Unknown author"; it is re-capitalised and stripped of "by " as lines 240 and 247 write it; the container's `rel` is flagged when plausible, its class only when the `rel` was not |
| Authors.IntendedAuthor | contentSniffer.js:189-251 | with both fixes, the author is "Unknown author" when none is chosen and otherwise no longer than the chosen one |
| Authors.IntendedAgrees | contentSniffer.js:236-247 | a name not in capitals only and holding no "by " comes out whole both as written and with the fixes |
| AuthorSamples.ShortSurname | contentSniffer.js:240 | as written the last word "LI" of two becomes "li"; corrected it becomes "Li", while a middle "DE" still becomes "de" |
| AuthorSamples.JohnLi | contentSniffer.js:236-246 | as written the author "JOHN LI" becomes "John li"; with the intended rule, "John Li" |
| AuthorSamples.ByInsideName | contentSniffer.js:247 | as written, "Abby Smith" becomes "AbSmith" |
| AuthorSamples.ByInsideNameKept | contentSniffer.js:247 | with a word boundary, "Abby Smith" is unchanged |
| AuthorSamples.ByWordStripped | contentSniffer.js:247 | with a word boundary, "by Jane" still becomes "Jane" |
| Markup.Bound | contentSniffer.js:378-397 | no more indices are bound than there are saved paragraphs or live paragraphs |
| Markup.BoundSound | contentSniffer.js:378-397 | the bound live indices are strictly increasing and the k-th bound live text equals saved paragraph k |
| Markup.MarkUpArticleParagraphs | contentSniffer.js:375-400 | the loop binds exactly the greedy alignment: increasing live indices, matching texts, no more than the saved paragraphs, and all of them whenever they embed in order |
| Markup.Covers | contentSniffer.js:379-397 | the greedy cursor binds at least as many saved paragraphs as any in-order embedding covers in a live prefix |
| Markup.Complete | contentSniffer.js:379-397 | when the saved paragraphs are an in-order subsequence of the live texts, every one is bound |
| Markup.SkipsInjectedStart | contentSniffer.js:379-385 | after live ["x","AD"] against saved ["x","y","z"] only live index 0 is bound |
| Markup.SkipsInjected | contentSniffer.js:379-397 | live ["x","AD","y","z"] against saved ["x","y","z"] binds live indices 0, 2 and 3 |
| Spies.Spy.constructor | contentSniffer.js:407-414 | a new spy has its paragraph id, top 0, is out of view and shows nothing |
| Spies.Spy.Update | contentSniffer.js:439-472 | after the reset and the four overlapping checks, the spy's state is the classification of its box |
| Spies.Classify | contentSniffer.js:442-472 | the stored `height` is the top; in view exactly when the top is inside the viewport or the box is clipped at the top and reaches into view; out of view means fully reset; with a positive viewport, in view exactly when `boxVisible > 0`, and `boxVisible` lies in [0, 1] |
| Spies.UpdateParagraphSpies | contentSniffer.js:436-475 | every spy ends in the classification of its own paragraph's box |
| Spies.Dominant | contentSniffer.js:484-492 | none exactly when no spy is in view with more than half showing; otherwise a qualifying spy with the smallest top, and the earliest such among ties |
| Spies.SelectDominantParagraph | contentSniffer.js:483-493 | the spy returned is one of the list, qualifies, has the smallest top and is the earliest such; null exactly when none qualifies |
| Spies.TopClippedSample | contentSniffer.js:447-451 | a 200-high box at top -50 in an 800 viewport shows 0.75, partially |
| Spies.ZeroViewport | contentSniffer.js:447-472 | with a zero-height viewport a top-clipped box is in view showing 0 |
| Spies.TieBreakSample | contentSniffer.js:485-489 | of two qualifying spies the higher one on the page (smaller top) wins |
| Scroll.Throttle | contentSniffer.js:520-529 | a paragraph is reported exactly when there is a dominant one and its id differs from the current one, which it then becomes; otherwise the current id stays |
| Scroll.ThrottleSettles | contentSniffer.js:520-529 | a second scroll with the same dominant paragraph sends nothing and changes nothing |
| Scroll.ReportsChange | contentSniffer.js:520-529 | over a run of scrolls, consecutive reports name different paragraphs, the first differs from the start, and the last is the final current paragraph |
| Scroll.ScrollSpyInit | contentSniffer.js:405-414 | one fresh spy per bound paragraph, carrying its live index, out of view |
| Scroll.Session.constructor | contentSniffer.js:562 | the current paragraph starts at -1 with nothing sent |
| Scroll.Session.Notify | contentSniffer.js:520-529 | a colour update for the dominant paragraph is sent exactly when there is one and it differs from the current one, which it then becomes |
| Scroll.Session.HandleScroll | contentSniffer.js:512-530 | the spies are classified, and one colour update for the dominant paragraph is sent exactly when it differs from the current one, which it then becomes |

Five reference definitions carry no contract of their own, and lemmas and
methods above state what they mean:

- `Detector.Candidates` is the candidate query of contentSniffer.js:12-21, with `<div>` as the fallback when there is no `<p>`.
- `Authors.Plausible` is the length and non-blank test repeated at contentSniffer.js:199, 208, 222 and 229.
- `Authors.ChosenAuthor` is the priority order the cascade of contentSniffer.js:194-232 settles on. `Authors.ChooseAuthor` is proved equal to it.
- `Authors.Recapitalised` is the re-capitalisation of contentSniffer.js:236-246 as written. `Authors.Recapitalise`, `RecapitalisedOnlyCase` and `RecapitalisedWords` state it.
- `Dates.NormaliseDate` is the clean-up chain of contentSniffer.js:178 as written. `Dates.NormalisedClean` and `DateSamples.MondayDate` state it.

## Left out

- `findArticleContent` (lines 283-366) rewrites `innerHTML` with regular expressions and moves DOM nodes. What it does depends on the browser's HTML parser.
- The colour-picker markup and its `input` listener (lines 386-392) are pure DOM wiring.
- The event registration in `scrollSpyInit` (lines 416-428) is left out. Only the creation of the spies is modelled.
- `selectColor` (lines 501-504) reads an `<input type=color>`. It is the parameter `colorOf` of `Scroll.Session.HandleScroll`.
- `chrome.runtime.sendMessage` is modelled as appending to `outbox`. The reply callbacks are not modelled.
- The top-level message callback (lines 565-599) is asynchronous glue and is not modelled.
  - It calls `findArticleContent()` without an argument.
  - It sets `paragraphs` to an element.
  - When the container is not yet known, it calls `findArticleContent()` where detection (`getArticleContainer()`) was evidently meant.
- background.js is not part of this model. It is calls into Firebase, hashing and date-parsing libraries.
- `innerText`, `offsetHeight`, `getBoundingClientRect`, `innerHeight` and the results of `querySelector` and `getElementsByClassName` are inputs. `pageSelectedContainer == null` falling back to `document.body` is part of how those hits are chosen, so it is not modelled separately.
- Geometry uses exact reals, so IEEE rounding is not modelled.
- JavaScript's `.length` (line 240) counts UTF-16 code units. The model counts characters, so a letter outside the Basic Multilingual Plane counts as one, not two.
- `Strings.Upper`, `Strings.Lower`: case mapping covers ASCII letters only. JavaScript's `toUpperCase`/`toLowerCase` map all of Unicode.
- `Markup.MarkUpArticleParagraphs` takes the live texts already trimmed. `trim()` itself is not modelled.
- `Detector.Node`: `className` is a plain string. The SVG case, where it is an `SVGAnimatedString`, is left out.
- `Dates.CheckElemForDate`: the property `"datetime"` is read as the script names it. On a real `<time>` element that property is `undefined`, since the DOM name is `dateTime`, so only `innerText` then qualifies. The model takes whatever properties the caller supplies.
- `Detector.Climb`: the message of the `TypeError` the detector throws is not modelled, only the fact that it throws (`Detector.Detection.TypeError`).
- The integrity check on the number of saved colours does not exist in this script, so nothing models it.

## Findings

| source | as written | input that shows it | evidently intended | confidence | as-written member | corrected member |
|---|---|---|---|---|---|---|
| contentSniffer.js:240 | `i != wordsLength` is always true inside the loop, so a short last word is lower-cased like a particle | "JOHN LI" becomes "John li" | `i != wordsLength - 1`: the last word is capitalised like the first ("John Li") | high; not executed | AuthorSamples.JohnLi | Authors.WordCase |
| contentSniffer.js:247 | `/by\s/ig` removes "by " inside names | "Abby Smith" becomes "AbSmith" | only the word "by" goes (`/\bby\s/ig`) | high; not executed | AuthorSamples.ByInsideName | Authors.StripBy |
| contentSniffer.js:178 | `/on\s/gi` removes "on " inside words | "Mon 5 June" becomes "M5 June" | only the word "on" goes (`/\bon\s/gi`) | high; not executed | DateSamples.MondayDate | Dates.StripOn |
