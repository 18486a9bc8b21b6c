# Property-listing formatter and Arabic detection, in Dafny

This project models the client-side response handling of a chat front end
for a real-estate assistant, and proves properties of the model.

- **The property-listing formatter** (`formatPropertyText` in
  `public/app.js`) turns a semi-structured reply into HTML in one pass.
  - It first turns `**bold**` into `<strong>bold</strong>`.
  - It then splits the text into lines and classifies each trimmed line, in
    priority order:
    - blank;
    - `### ` header;
    - numbered item `N. `;
    - `- ` bullet inside a block;
    - `<strong>label:</strong>` inside a block;
    - plain `label:` from the fixed label table;
    - image reference `![Image N](url)`;
    - plain text.
  - Headers and numbered items open a property block, closing the one
    before. A label with an empty value is held as a pending feature, and
    the continuation lines after it are buffered until the next flush. The
    flush puts the buffered lines into the feature's container with
    `String.prototype.replace`.
  - Contact values (e-mail, phone, mobile) become `mailto:` and `tel:`
    links. Google Drive share links in image references become direct-view
    URLs.
- **The standalone helpers** `formatContactInfo` and
  `convertGoogleDriveUrl` at the top level of `public/app.js`. They are
  shadowed inside the formatter by its own nested helpers of the same
  names, and they behave differently: the contact helper trims and cleans
  the value, and the Drive helper knows three URL shapes.
- **`detectAndSetArabic`** (`pages/index.js`) tests the text of the response
  area for Arabic script.
  - If there is some, it marks the area and every `p`/`div`/`span`/`li`
    with Arabic text right-to-left, and gives every `.property-feature` with
    Arabic text `lang="ar"`.
  - If there is none, it clears the marks from the area and from every
    element with `lang="ar"`. The selector `[lang="ar"]` compares the value
    without regard to ASCII case, so `lang="AR"` counts too.

The formatter is a state machine.
- `Transducer.ClassifyLine` recognises a line.
- `Transducer.Apply` and `Transducer.Step` perform one iteration.
- `Transducer.Run` is the loop, and `Transducer.Finish` handles end of input.
- The output is a sequence of `Fragment`s: block open, block header, block
  close, feature, flushed feature, sub-item, break, or line. `Render` and
  `RenderAll` turn the fragments into the markup and join them.

Keeping the block delimiters as fragments lets bracketing be stated on
structure. That matters because user text may itself contain `</div>`.

The modules are:
- `Text`: trimming, `split`/`join`, search, the replacement-template
  expansion of `replace`, and filtering;
- `Icons`: the label table and the icon lookup;
- `Contact`: both contact helpers;
- `Drive`: both URL converters;
- `Patterns`: the regular expressions of the formatter;
- `Transducer`: the loop;
- `FormatterProofs`: properties of the whole formatter;
- `Arabic`: the right-to-left detection.

Regular expressions are modelled by what they match: greedy and lazy
quantifiers, the first match from the left, and the `g` flag as repeated
matching.
- `\s` and `trim` use the ECMAScript white-space and line-terminator set.
- `.` stops at `\n`, `\r`, U+2028 and U+2029.

The model follows the code in these places, where a reader might expect
otherwise:
- A blank line while a feature is pending is buffered as an empty
  continuation line, not a flush (`public/app.js:118-119`).
- A bullet whose colon is its first character is a plain bullet
  (`colonIndex > 0`, `public/app.js:166`).
- The plain-label patterns are anchored at the start of the line
  (`public/app.js:257`).
- The flush expands `$` templates in the buffered lines (see Findings).
- A continuation line under a pending e-mail or phone feature is inserted
  as it is and never linked (`public/app.js:100-104`): only a value on the
  label's own line goes through the contact helper (`public/app.js:182-186`,
  against `192-200`). So `- Email:` followed by `john@x.com` gives no
  `mailto:` link. FillIntendedInsertsRaw and FillInsertsRaw state this.

## Model

| member | source | states |
|---|---|---|
| Text.Trim | public/app.js:114 | neither end of the trimmed line is white space or a line terminator, and it is no longer than the line |
| Text.TrimShape | public/app.js:114 | every string is its trimmed form with a run of white space before and after it |
| Text.TrimUnique | public/app.js:114 | trimming removes exactly the surrounding white space: a trimmed middle between white-space runs is recovered |
| Text.TrimIdempotent | public/app.js:114 | trimming a trimmed line changes nothing |
| Text.Split | public/app.js:94 | `split('\n')` gives at least one part, and no part holds the separator |
| Text.JoinSplit | public/app.js:94 | joining the parts of a split with the separator gives back the text |
| Text.SplitJoin | public/app.js:94 | splitting separator-free parts joined by the separator gives back the parts |
| Text.Find | public/app.js:165 | `indexOf` reports an occurrence with none before it, or nothing when there is none |
| Text.ContainsIff | public/app.js:81 | `includes` holds exactly when the pattern occurs at some index |
| Text.ExpandInert | public/app.js:103 | a replacement template with no `$` followed by `$`, `&`, a backquote or a quote expands to itself |
| Text.ReplaceInert | public/app.js:103 | with such a template, `replace` with a string pattern inserts the template literally in place of the first occurrence |
| Text.KeepEmptyIff | public/app.js:71-72 | the filtered string is empty exactly when no character passes the filter |
| Text.KeepAppend | public/app.js:71 | filtering a concatenation filters each part |
| Text.KeepIdentity | public/app.js:336-337 | filtering a string whose characters all pass leaves it unchanged |
| Icons.LookupSpec | public/app.js:173-180 | the icon is the default tag exactly when no table entry matches the label in either direction of `includes`; otherwise it is the icon of the first matching entry |
| Icons.LookupIsFirstHit | public/app.js:175-178 | the first entry, in declaration order, that matches decides the icon |
| Icons.LookupInMiss | public/app.js:175-180 | a scan that meets no matching entry ends with the default tag |
| Icons.LookupInHit | public/app.js:175-179 | a scan that reaches a matching entry stops at the first match at or before it |
| Icons.TagNotInTable | public/app.js:25-60 | no table entry carries the default tag icon, so the tag signals "no match" |
| Icons.EmptyLabelIsNeighbourhood | public/app.js:176 | an empty label is contained in every key, so it gets the first entry's icon |
| Contact.DialString | public/app.js:71-72 | the `tel:` target holds only digits and `+`, and is empty exactly when the value holds none |
| Contact.DialStringAppend | public/app.js:71 | the dial string of a concatenation is the concatenation of the dial strings |
| Contact.DialStringChar | public/app.js:71 | one character is kept exactly when it is a digit or `+` |
| Contact.DialStringTrim | public/app.js:327 | trimming a value does not change its dial string |
| Contact.FormatContact | public/app.js:63-77 | e-mail values with `@` become `mailto:` links; phone or mobile values with a digit or `+` become `tel:` links to their dial string with the raw value shown; every other value is unchanged, and the result differs from the value exactly in those two cases |
| Contact.FormatContactStandalone | public/app.js:326-342 | the value is trimmed first; e-mail values with `@` become `mailto:` links with the `email-link` class; every phone or mobile value becomes a `tel:` link showing its cleaned form, even when that is empty; every other value comes back trimmed |
| Contact.StandalonePhoneShown | public/app.js:336-337 | the shown phone number holds only digits, `+`, `-`, white space and parentheses, and the link target is the dial string of what is shown |
| Contact.StandaloneTrimFirst | public/app.js:327 | white space around the value makes no difference to the result |
| Contact.DialLinkTarget | public/app.js:336-337 | cleaning the value for display before extracting the dial string gives the same target as extracting it from the raw value |
| Contact.CleanNumberDialsItself | public/app.js:71-73 | a value of only digits and `+` dials exactly itself |
| Drive.IdRun | public/app.js:355 | the greedy `[a-zA-Z0-9_-]+` run is the longest prefix of id characters |
| Drive.Capture | public/app.js:355-372 | a capture is a non-empty run of id characters, and there is none exactly when no marker is followed by an id character |
| Drive.CaptureFirst | public/app.js:355-372 | the capture is the greedy id run right after the leftmost marker that an id character follows |
| Drive.ConvertInner | public/app.js:80-88 | a URL on the Drive host with a `/d/<id>` becomes the direct-view URL of the captured id; any other URL, including a Drive URL without an id, is returned unchanged |
| Drive.ConvertDrive | public/app.js:348-384 | on the Drive host, the `/file/d/` id wins over the `?id=`/`&id=` id, which wins over the `/folders/` id; the id of the first form that matches becomes the direct-view URL; with no id, or off the host, the URL is returned unchanged |
| Drive.ConvertInnerIdempotent | public/app.js:80-88 | converting a converted URL changes nothing |
| Drive.ConvertDriveIdempotent | public/app.js:348-384 | converting a converted URL changes nothing |
| Drive.FileShareLink | public/app.js:354-358 | a `https://drive.google.com/file/d/<id>/...` share link becomes the direct-view URL of its id, whatever follows the slash after the id |
| Drive.DirectViewCapture | public/app.js:362 | the direct-view URL's own `?id=` capture is its id |
| Drive.DirectViewHost | public/app.js:350 | the direct-view URL is on the Drive host |
| Drive.DirectViewNoSlashHit | public/app.js:355-370 | no `/d/`, `/file/d/` or `/folders/` marker in a direct-view URL is followed by an id |
| Drive.IdRunAll | public/app.js:355 | a string of id characters is its own greedy id run |
| Drive.IdRunStops | public/app.js:355 | the greedy id run stops at the first character that is not an id character |
| Patterns.CloseStars | public/app.js:91 | the lazy `(.*?)\*\*` closes at the first `**` from the start, with no line terminator before it; it reports no close only when no `**` is reachable from the start without crossing a line terminator |
| Patterns.CloseStarsAt | public/app.js:91 | a `**` with no line terminator and no other `**` between the start and it is exactly where the lazy match closes |
| Patterns.BoldPair | public/app.js:91 | `**x**` at the start of a text becomes `<strong>x</strong>` when `x` lies on one line and no `**` ends inside it, and the substitution resumes right after the pair |
| Patterns.BoldIdentity | public/app.js:91 | text with no `**...**` pair inside one line is left unchanged |
| Patterns.BoldSplitsAtNewline | public/app.js:91 | no bold span crosses a newline: the substitution of `a\nb` is that of `a`, a newline, then that of `b` |
| Patterns.BoldNewlineFree | public/app.js:91 | the substitution adds no newline |
| Patterns.BoldJoin | public/app.js:91-94 | substituting over lines joined by newlines is joining the substituted lines |
| Patterns.BoldPerLine | public/app.js:91-94 | the whole-text bold substitution followed by the split gives the same lines as splitting first and substituting line by line |
| Patterns.DigitRun | public/app.js:143 | the leading `\d+` is the longest run of digits |
| Patterns.NumberedRemainder | public/app.js:143-157 | on a trimmed line that passes the numbered test, stripping the numeral leaves a non-empty, trimmed suffix, so the skip of an empty remainder is never taken |
| Patterns.SkipSpace | public/app.js:220 | the greedy `\s*` stops at the first character that is not white space |
| Patterns.LineEnd | public/app.js:220 | the greedy `(.*)` stops at the first line terminator |
| Patterns.LabelFromFound | public/app.js:220 | the lazy label ends at the first colon that closes the pattern, with no line terminator before it; the value is the rest of the line after the closing tag |
| Patterns.LabelFromMissed | public/app.js:220 | no label is reported only when every colon that would close the pattern comes after a line terminator |
| Patterns.StrongFromFound | public/app.js:220 | a reported match is anchored at the leftmost position where the pattern matches |
| Patterns.StrongFromMissed | public/app.js:220 | no match is reported only when the pattern matches at no position |
| Patterns.StrongLabelSpec | public/app.js:220 | the `<strong>label:</strong>value` match is the leftmost one, or there is none at any position |
| Patterns.KeyPrefix | public/app.js:257 | after `^\s*-?\s*key:\s*` the remaining value does not start with white space |
| Patterns.DashEndAt | public/app.js:257 | the optional `-` is a single dash right after the leading white space, or nothing |
| Patterns.KeyPrefixOf | public/app.js:257 | a line made of white space, an optional `-`, white space, the key in any ASCII case, a colon, white space, and then a value not starting with white space is matched, and the match ends where the value starts |
| Patterns.KeyPrefixParts | public/app.js:257 | conversely, every matched line is made of those parts, and the match ends where the value starts |
| Patterns.KeyFromFound | public/app.js:256-258 | a reported label is the first table key from the scan's start whose pattern matches, and every earlier key's pattern fails |
| Patterns.KeyFromMissed | public/app.js:256-258 | no label is reported only when no table key's pattern matches |
| Patterns.KeyLabelSpec | public/app.js:256-261 | the plain-label recogniser finds the first key in declaration order whose pattern matches, or none when no key's does |
| Patterns.Capitalize | public/app.js:266 | the shown key is the key with its first letter upper-cased and the rest unchanged |
| Patterns.CloseParen | public/app.js:290 | the lazy `(.*?)\)` ends at the first `)`, with no line terminator before it |
| Patterns.ImageAt | public/app.js:290 | a match of `!\[Image \d+\]\((.*?)\)` at the start of the text has the tag, at least one digit, `](`, then a URL holding no `)` and no line terminator, and ends at the `)` after it |
| Patterns.UnnumberedTag | public/app.js:290 | `![Image ` not followed by a digit is no reference |
| Patterns.ImageRef | public/app.js:290 | a reference starts with the image tag, and what follows it is shorter than the text |
| Patterns.ImageAtPrefix | public/app.js:290 | `![Image N](url)` followed by anything matches, and the captured URL is exactly `url` |
| Patterns.ReplaceImagesIdentity | public/app.js:290-300 | text without `![Image ` is unchanged by the image substitution |
| Patterns.ScanPrefix | public/app.js:290 | a reference at the start of the text is one image piece, and scanning carries on after its `)` |
| Patterns.ImagePrefix | public/app.js:290-300 | a reference at the start becomes the thumbnail of its converted URL, followed by the substitution of the rest |
| Patterns.NoImageAt | public/app.js:290 | a character where no complete reference starts, a malformed tag such as `![Image x](u)` included, is copied, followed by the substitution of the rest |
| Patterns.SingleImage | public/app.js:290-300 | a line that is exactly one reference becomes exactly one thumbnail |
| FormatterProofs.ApplyValid | public/app.js:98-111 | a recognised line keeps the invariant that lines are buffered only while a feature is pending |
| FormatterProofs.StepValid | public/app.js:113-309 | one loop iteration keeps that invariant |
| FormatterProofs.RunValid | public/app.js:113-310 | the whole loop keeps that invariant |
| Transducer.Flush | public/app.js:100-111 | with a feature pending, the flush emits it with its buffered lines and clears both; with none pending, it emits nothing and changes nothing |
| FormatterProofs.FlushOnce | public/app.js:100-111 | a flush emits one fragment exactly when a feature is pending, clears the pending feature and its buffer, and emits the bare container when nothing was buffered |
| FormatterProofs.ApplyMarks | public/app.js:128-158 | only header and numbered lines emit block delimiters: a close of the open block, if any, then an open |
| FormatterProofs.ClassifyOpens | public/app.js:128-143 | a line is recognised as a header or numbered item exactly when it opens a block |
| FormatterProofs.StepMarks | public/app.js:113-158 | a step leaves a block open exactly when one was open or the line opens one, and emits delimiters only for opening lines |
| FormatterProofs.RunKindsMarks | public/app.js:113-310 | over the loop, each opening line closes the block before it, if any, and opens its own |
| FormatterProofs.LoopMarks | public/app.js:113-310 | from the start, the loop opens one block per opening line and leaves the last one open |
| Transducer.Finish | public/app.js:312-318 | end of input emits the pending feature, if any, with its buffered lines, then closes the open block, if any, and leaves nothing pending and no block open |
| FormatterProofs.FinishMarks | public/app.js:312-318 | end of input closes the open block, if any, and emits no other delimiter |
| FormatterProofs.ClosedPairs | public/app.js:316-318 | an opening sequence followed by the final close is a sequence of whole open/close pairs |
| FormatterProofs.Bracketing | public/app.js:113-320 | over any input, block opens and closes strictly alternate, never nest, and balance, with one pair per header or numbered line |
| FormatterProofs.ApplyFeatures | public/app.js:113-309 | a recognised line adds one to the features emitted plus the one held back when it is a feature line, and nothing otherwise |
| FormatterProofs.RunKindsFeatures | public/app.js:113-310 | over the loop, the features emitted plus the one held back equal the feature lines read plus the one held at the start |
| FormatterProofs.FinishFeatures | public/app.js:312-313 | end of input emits the held-back feature, if any, as one fragment |
| FormatterProofs.FeaturesEmitted | public/app.js:113-320 | over any input, the formatter emits exactly one feature per recognised feature line, none lost and none doubled |
| FormatterProofs.HeaderLine | public/app.js:128-140 | a `### ` line flushes, closes the open block if any, and opens a block headed by the rest of the line |
| FormatterProofs.NumberedLine | public/app.js:143-158 | a numbered line does the same under the fixed header "Property Details", then handles its non-empty remainder inside the new block |
| FormatterProofs.NumberedKind | public/app.js:143-157 | a numbered line is recognised as a numbered item whose remainder is classified inside a block |
| FormatterProofs.PlainIsText | public/app.js:161-309 | a trimmed line is recognised as plain text exactly when none of the earlier tests applies |
| FormatterProofs.PendingCollects | public/app.js:116-119 | while a feature is pending, a blank or plain line is buffered and nothing is emitted |
| FormatterProofs.FreeLine | public/app.js:116-123 | with nothing pending, a blank line emits a break and a plain line is emitted trimmed |
| FormatterProofs.BulletKind | public/app.js:161-162 | inside a block a `- ` line is a bullet whatever else it holds, with its content trimmed |
| FormatterProofs.BulletSplit | public/app.js:165-171 | a bullet feature splits at the first colon into a non-empty, colon-free label and the trimmed rest; a bullet with no colon, or one starting with a colon, keeps its whole content |
| FormatterProofs.BulletApplied | public/app.js:203-211 | a plain bullet is buffered as `• content` while a feature is pending and is a sub-item otherwise |
| FormatterProofs.FeatureApplied | public/app.js:168-200 | a feature line flushes, then emits the feature at once when its value is non-empty, or holds it pending with an empty buffer |
| FormatterProofs.ContainerCloses | public/app.js:103 | the first `</div>` of a container is its own closing tag when the label holds none, and otherwise the label's own first `</div>` |
| FormatterProofs.FillIntendedInsertsRaw | public/app.js:101-103 | for a label holding no `</div>`, the evidently intended flush puts the buffered lines, joined by `<br>`, between the label and the closing tag, verbatim |
| FormatterProofs.FillIntendedInLabel | public/app.js:101-103 | for a label holding `</div>`, the buffered lines take the place of the label's first `</div>`, inside the label, and the container's own closing tag stays after it |
| FormatterProofs.FillInsertsRaw | public/app.js:101-103 | for a label holding no `</div>`, the flush as written does the same when no buffered line holds a `$` template mark |
| FormatterProofs.FillAgreesWhenInert | public/app.js:101-103 | whatever the label, the flush as written and the intended one agree when no buffered line holds a `$` template mark |
| FormatterProofs.InertTemplate | public/app.js:102-103 | a template built from such lines holds no template mark |
| FormatterProofs.FillExpandsMatch | public/app.js:101-103 | a buffered line `$&` is replaced by the matched `</div>`, so the feature is closed twice, where the intended flush shows the two characters |
| FormatterProofs.ExpandMatch | public/app.js:103 | the template ` $&</div>` expands, against a `</div>` match, to the match twice over |
| FormatterProofs.RunFree | public/app.js:113-125 | with no structure in the lines, the loop emits one break or trimmed line per input line and never changes state |
| FormatterProofs.RenderFree | public/app.js:122 | breaks render as `<br>`, and plain lines render as themselves, joined with nothing between |
| FormatterProofs.PlainFragments | public/app.js:91-125 | a reply with no structure is emitted as one fragment per line |
| FormatterProofs.PlainText | public/app.js:23-321 | a reply with no structure is formatted as its trimmed lines, blank ones as `<br>`, joined with nothing between |
| Arabic.TestArabic | pages/index.js:187-190 | the test holds exactly when some character is in one of the five Arabic ranges |
| Arabic.Mark | pages/index.js:193-203 | marking adds the `rtl-content` class and sets `dir="rtl"` and `lang="ar"`, keeping tag and text |
| Arabic.Unmark | pages/index.js:218-227 | unmarking removes the class and both attributes, keeping tag and text |
| Arabic.MarkBlocks | pages/index.js:198-205 | exactly the `p`, `div`, `span` and `li` elements with Arabic text are marked; the others are unchanged |
| Arabic.MarkFeatures | pages/index.js:208-213 | exactly the property features with Arabic text get `lang="ar"`; nothing else changes |
| Arabic.UnmarkArabic | pages/index.js:223-228 | exactly the elements with `lang="ar"`, in any ASCII case, are unmarked; the others are unchanged |
| Arabic.Detect | pages/index.js:184-231 | an area with no text is left alone, and no tag or text ever changes |
| Arabic.DetectArabic | pages/index.js:192-213 | with Arabic in the area, the area is marked, Arabic block elements are marked, Arabic features get `lang="ar"`, and elements without Arabic text are unchanged |
| Arabic.FeaturePassRedundant | pages/index.js:198-213 | when every property feature is a `div`, `span`, `p` or `li`, the feature pass changes nothing after the block pass |
| Arabic.DetectNonArabic | pages/index.js:216-229 | with text but no Arabic, the area is unmarked, and so is exactly every element with `lang="ar"` in any ASCII case; afterwards no element has `lang="ar"` in any case |
| Arabic.DetectIdempotent | pages/index.js:184-231 | running the detection again on its own result changes nothing |
| Arabic.ArabicInPart | pages/index.js:190-200 | text containing a part with Arabic has Arabic |
| Arabic.DetectMarksArabicBlocks | pages/index.js:189-205 | when every element's text is part of the area's, every block element with Arabic text ends up marked, and the detection keeps that well-formedness |

## Left out

- The DOM and its I/O are not modelled: rendering into `innerHTML`, the
  `MutationObserver` and its debouncing, `console.log`, the image modal and
  the network proxy. `detectAndSetArabic` works on a value that stands for
  the response area.
- A missing response area (`getElementById` returning `null`) is not
  modelled. The function does nothing then, so there is nothing to state.
- Text.Lower: it folds ASCII letters only, where `toLowerCase` of a
  feature label folds every Unicode letter, so a non-ASCII label keeps its
  case in the icon lookup. The `i` flag of the patterns needs no more: their
  letters are ASCII, and a non-Unicode regular expression never folds a
  non-ASCII character to an ASCII one. The capitalisation only ever sees the
  table's ASCII keys.
- Strings are sequences of Unicode code points, where JavaScript uses UTF-16
  code units. No index is exposed by the formatter's output. The Arabic
  ranges lie inside the Basic Multilingual Plane, where the two agree.
- An element's class list is a set, so the order of `DOMTokenList` is not
  modelled. Tag names are assumed lower-case.
- Arabic.DetectMarksArabicBlocks: it assumes that each element's text is
  part of the area's text (`WellFormed`). That holds of DOM descendants, but
  the model does not build a tree.
- Patterns.KeyPrefix: the table keys are matched literally inside
  `new RegExp(...)`. That is what the regular expression does, because no key
  holds a metacharacter.
- FormatterProofs.FillInsertsRaw: it requires that no buffered line holds
  `$` followed by `$`, `&`, a backquote or a quote. `Transducer.Fill` models
  the expansion in general, and FillExpandsMatch shows the exception. A
  label holding `</div>` is covered by FillIntendedInLabel and
  FillAgreesWhenInert.
- Contact.FormatContactStandalone is not called by the formatter, whose
  nested helper of the same name shadows it. It is modelled on its own.

## Findings

| source | as written | input that shows it | evidently intended | confidence | as-written member | corrected member |
|---|---|---|---|---|---|---|
| public/app.js:103 | the buffered continuation lines become the replacement string of `replace('</div>', ...)`, so `$&`, `$$`, a `$` with a backquote and `$'` in user text are expanded as templates | `### A`, `- Price:`, `$&` on three lines: the feature comes out as `...<strong>Price:</strong> </div></div>`, closed twice | the continuation lines are inserted verbatim: `...<strong>Price:</strong> $&</div>` | not executed | FormatterProofs.FillExpandsMatch | FormatterProofs.FillIntendedInsertsRaw |

`Transducer.Render` renders a flushed feature with `Fill`, the code as
written, so the formatter model reproduces the expansion.
`Transducer.FillIntended` is the corrected flush. FillIntendedInsertsRaw
proves it inserts the lines verbatim, and FillInsertsRaw shows the two agree
whenever no buffered line holds a template mark. No other property of the
formatter depends on the choice: bracketing, the buffer invariant and the
unstructured-reply results hold either way.
