# Portfolio site core, modelled in Dafny

This project models the logic of a React portfolio site. The site has a home page
with projects, experience, blog and contact sections, plus project pages written in
Markdown. The model covers:

- **Form validation** (`src/utils/validation.js`): the email pattern and the
  required / minimum-length / maximum-length rules that make up the name, email and
  message validators.
- **Markdown utilities** (`src/utils/markdown.js`):
  - read time and excerpts;
  - the heading extractor, with its `exec` loop over a global multi-line regex and
    its slug rule;
  - the date formatter;
  - the front-matter parser, as a wrapper around a parser given as a parameter.
- **Contact form** (`src/components/sections/Contact.jsx`): its state (inputs,
  per-field errors, submitting, submitted, error) and the `handleChange` and
  `handleSubmit` transitions. The relay's answer and the configured access key are
  inputs.
- **Projects section** (`src/components/sections/Projects.jsx`):
  - the featured selection: filter, stable sort by `order`, at most six;
  - the loading state;
  - the card rules: the image path, the description fallback, and five technology
    badges plus a `+N` badge.
- **Markdown renderer overrides** (`src/components/markdown/MarkdownRenderer.jsx`):
  - lazy images;
  - inline or block code, with the language taken from the class name and a final
    newline dropped;
  - links that open in a new tab when their address starts with `http`.
- **Project page** (`src/pages/ProjectDetail.jsx`): the `for`-loop-with-`break`
  search for the file named after the slug, and the not-found / failed / loaded
  states.
- **Scroll spy** (`src/hooks/useScrollSpy.js`, used by
  `src/components/layout/Navigation.jsx`): the first tracked section whose box holds
  the scroll position becomes active, and otherwise the previous one stays.

There is one module per source file: `Validation`, `Markdown`, `Contact`,
`Projects`, `Renderer`, `ProjectDetail` and `ScrollSpy`. `Text` holds the
JavaScript string built-ins they rely on:

- whitespace as `\s` and `trim` define it;
- `split`;
- number-to-text conversion;
- `parseInt`.

`Wrappers` holds `Option`. Strings are sequences of characters. Values that
JavaScript may leave `null` or `undefined` are `Option`s. Truthiness is spelled
out: an empty string counts as false.

The parts that work by changing state step by step are imperative Dafny:

- `Markdown.ExtractHeadings` (a `while` loop);
- `ProjectDetail.FindProjectContent` and `ScrollSpy.SectionSpy.HandleScroll`
  (loops with `break`);
- the state of the contact form, the projects section, the project page and the
  scroll spy (classes whose methods update fields).

Each method is proved against a pure specification function, and the properties of
that function are proved as lemmas.

## Model

| member | source | states |
|---|---|---|
| Validation.IsValidEmailMatchesShape | src/utils/validation.js:10-13 | the pattern `^[^\s@]+@[^\s@]+\.[^\s@]+$` accepts exactly the strings made of a local part, `@`, and a domain with a dot whose parts are non-empty and free of whitespace and `@` |
| Validation.EmailExamples | src/utils/validation.js:10-13 | `a@b.co` is accepted; `a@b` and `a b@c.com` are rejected |
| Validation.AcceptedExample | src/utils/validation.js:10-13 | `a@b.co` is accepted |
| Validation.NoDotExample | src/utils/validation.js:10-13 | `a@b` is rejected: its domain has no dot |
| Validation.SpaceExample | src/utils/validation.js:10-13 | `a b@c.com` is rejected: its local part holds a space |
| Validation.ValidateRequiredIffBlank | src/utils/validation.js:20-25 | the required check fails exactly on absent or all-whitespace values, and then with "This field is required" |
| Validation.ValidateEmailVerdict | src/utils/validation.js:32-43 | an email passes exactly when it is present and matches the pattern; a blank value gets the required message first, and any other mismatch gets the format message |
| Validation.LengthRuleVerdict | src/utils/validation.js:51-76 | the minimum is checked on the trimmed length (after the required check) and the maximum on the raw length; both pass exactly when min ≤ trimmed length and raw length ≤ max, and a short value reports the minimum even when it is also too long |
| Validation.ValidateNameVerdict | src/utils/validation.js:83-85 | a name passes exactly when its trimmed length is at least 2 and its raw length at most 100; a blank name gets the required message, a short one the minimum message, a long one the maximum message |
| Validation.ValidateMessageVerdict | src/utils/validation.js:92-94 | a message passes exactly when its trimmed length is at least 10 and its raw length at most 2000; a blank message gets the required message, a short one the minimum message, a long one the maximum message |
| Validation.NameTooShortExample | src/utils/validation.js:51-62 | a one-letter name gets "Must be at least 2 characters" |
| Validation.NameShortestExample | src/utils/validation.js:83-85 | a two-letter name passes |
| Validation.NameTooLongExample | src/utils/validation.js:70-76 | a 101-letter name gets "Must be 100 characters or less" |
| Text.TrimStartShape | src/utils/validation.js:21 | `trimStart` leaves a suffix that starts with a non-space, and everything it drops is whitespace |
| Text.TrimEndShape | src/utils/validation.js:21 | `trimEnd` leaves a prefix that ends with a non-space, and everything it drops is whitespace |
| Text.TrimEnds | src/utils/validation.js:21 | a trimmed string neither starts nor ends with whitespace |
| Text.TrimEmptyIffBlank | src/utils/validation.js:21 | `trim()` gives the empty string exactly for all-whitespace input |
| Text.TrimIdempotent | src/utils/markdown.js:12 | trimming twice is trimming once |
| Text.JoinSplit | src/utils/markdown.js:80 | joining the parts of `split('-')` with `-` gives back the string |
| Text.SplitCountsSpaceRuns | src/utils/markdown.js:23 | `split(/\s+/)` yields one piece more than the text has maximal whitespace runs |
| Text.LeadingRunCounted | src/utils/markdown.js:23 | a leading whitespace run counts as one run, however long it is |
| Text.NatToStringRoundTrip | src/utils/markdown.js:103 | a number's decimal text reads back as that number |
| Text.ParseIntOfDigits | src/utils/markdown.js:100-103 | `parseInt` of a digit string, leading zeros included, is its decimal value |
| Markdown.ParseMarkdown | src/utils/markdown.js:8-14 | parsing fails exactly when the front-matter parser throws; otherwise the front matter is the parser's data and the body is exactly the parser's content trimmed, with no whitespace at either end and no longer than the content |
| Markdown.ReadTimeIsCeiling | src/utils/markdown.js:22-25 | the read time m is the least whole number of minutes with words ≤ m × words-per-minute, and is at least one |
| Markdown.DefaultReadTimeOneMinute | src/utils/markdown.js:22-25 | at the default 200 words per minute, the estimate is one minute exactly for texts of at most 200 words |
| Markdown.WordCountCountsTokens | src/utils/markdown.js:23 | the words counted are the non-whitespace runs of the trimmed content: together they hold all of its non-space characters, each is non-empty, blank content counts as one empty word, and their number is one more than the maximal whitespace runs of the trimmed content |
| Markdown.StripMarkup | src/utils/markdown.js:36 | removing `#`, `*`, backquote, `[` and `]` leaves none of them and never lengthens the text |
| Markdown.StripMarkupKeepsPlainText | src/utils/markdown.js:36 | text without those characters is left unchanged |
| Markdown.ExcerptProperties | src/utils/markdown.js:33-46 | an excerpt never contains markup characters, and plain text within the limit is returned whole |
| Markdown.ExcerptTruncates | src/utils/markdown.js:41-45 | longer text becomes its first `maxLength` characters, trimmed, followed by `...` |
| Markdown.DefaultExcerptBound | src/utils/markdown.js:33-46 | with the default length of 150 an excerpt has at most 153 characters |
| Markdown.ExcerptExample | src/utils/markdown.js:33-46 | `# Title\nSome **bold** text` with limit 10 becomes `Title\nSome...` |
| Markdown.HashRunShape | src/utils/markdown.js:54 | the `#` run counted is all `#` and is followed by something else or the end |
| Markdown.SpaceRunEndShape | src/utils/markdown.js:54 | the whitespace run is all whitespace and is followed by a non-space or the end |
| Markdown.LineEndShape | src/utils/markdown.js:54 | `$` is the first line terminator from the position on, or the end |
| Markdown.LastNonTerminatorShape | src/utils/markdown.js:54 | the character found is the last one in the range that is not a line terminator |
| Markdown.MatchAt | src/utils/markdown.js:54 | a heading match starts at a line start with a run of 1 to 6 `#` (the whole run) and ends after it starts, inside the content |
| Markdown.MatchAtCaptured | src/utils/markdown.js:54 | the captured title is non-empty, lies on one line, and ends where the match ends, at a line terminator or the end of input |
| Markdown.TitleToLineEnd | src/utils/markdown.js:54 | when the whitespace stops before the end, the title is the rest of that line |
| Markdown.TitleInTrailingSpace | src/utils/markdown.js:54 | when the whitespace runs to the end, the title is the last character that is not a line terminator |
| Markdown.HeadingLineMatches | src/utils/markdown.js:54 | a line of 1 to 6 `#`, a space and a title that starts with a non-space character matches with that level and that title |
| Markdown.NextMatch | src/utils/markdown.js:58 | `exec` from `lastIndex` finds a match at or after it, inside the content |
| Markdown.NextMatchIsLeftmost | src/utils/markdown.js:58 | the match `exec` finds is the leftmost one from `lastIndex`, and it returns `null` only when there is none |
| Markdown.NextMatchMatches | src/utils/markdown.js:58 | the match `exec` returns is the match at its own start |
| Markdown.MatchesFrom | src/utils/markdown.js:58 | repeated `exec` gives matches in increasing, non-overlapping order inside the content |
| Markdown.MatchesAreMatches | src/utils/markdown.js:58 | every match in the sequence is a real heading match at its position |
| Markdown.MatchesMissNothing | src/utils/markdown.js:58 | every position where a heading matches lies inside one of the matches found |
| Markdown.ExtractHeadings | src/utils/markdown.js:53-70 | the `while` loop yields exactly one heading per match, in order, with the level, the trimmed text and its slug |
| Markdown.HeadingsWellFormed | src/utils/markdown.js:58-66 | every heading has level 1 to 6, equal to the `#` run at a line start, and a slug made only of lower-case ASCII letters, digits, `_` and `-` |
| Markdown.SlugifyShape | src/utils/markdown.js:61-64 | a slug contains only lower-case ASCII letters, digits, `_` and `-`, and no whitespace |
| Markdown.SlugifyIdempotent | src/utils/markdown.js:61-64 | the slug of a slug is itself |
| Markdown.LowerLeavesNoCapitals | src/utils/markdown.js:62 | lowering leaves no ASCII capitals |
| Markdown.DropKeepsOnlySlugChars | src/utils/markdown.js:63 | only word characters, whitespace and `-` survive the strip |
| Markdown.HyphenateLeavesNoSpace | src/utils/markdown.js:64 | no whitespace is left once each run becomes `-` |
| Markdown.MonthName | src/utils/markdown.js:100 | the month text is one of the twelve names or `undefined` |
| Markdown.MonthNameOfDigits | src/utils/markdown.js:100 | a month in digits, leading zeros allowed, names its month for 1 to 12 and is `undefined` otherwise |
| Markdown.FormatYearOnly | src/utils/markdown.js:77-107 | a date with no `-` gives `undefined <year>` |
| Markdown.FormatDateEmpty | src/utils/markdown.js:79 | a missing or empty date prints as the empty string |
| Markdown.FormatYearMonth | src/utils/markdown.js:80-106 | `YYYY-MM` gives the month's name, a space and the year |
| Markdown.FormatYearMonthDay | src/utils/markdown.js:80-104 | `YYYY-MM-DD` gives the month's name, the parsed day, a comma and the year |
| Markdown.MonthOfPad2 | src/utils/markdown.js:100 | a zero-padded month from `01` to `12` names its month |
| Markdown.DayOfPad2 | src/utils/markdown.js:103 | a zero-padded day is printed as its number, without the leading zero |
| Markdown.FormatIsoDate | src/utils/markdown.js:77-104 | a zero-padded ISO date formats as `Month D, YYYY` with the day's leading zero gone |
| Contact.FormData.With | src/components/sections/Contact.jsx:27 | a change sets the one field named and leaves the others as they were |
| Contact.FormErrors | src/components/sections/Contact.jsx:34-47 | a field has an entry exactly when its validator reports a message, and the entry is that message; the honeypot never has one |
| Contact.FormErrorsEmptyIff | src/components/sections/Contact.jsx:34-47 | the form passes validation exactly when the name has 2 to 100 characters, the email matches the pattern, and the message has 10 to 2000 characters |
| Contact.FormErrorsEmptyIffNoComplaint | src/components/sections/Contact.jsx:34-47 | no errors exactly when none of the three validators complains |
| Contact.EditKeepsOtherVerdicts | src/components/sections/Contact.jsx:25-32 | editing one field leaves every other field's validation verdict as it was |
| Contact.EditKeepsErrorsCurrent | src/components/sections/Contact.jsx:25-32 | taking down the edited field's message keeps every message on display current |
| Contact.ShowErrors | src/components/sections/Contact.jsx:60 | the error state holds exactly the new messages |
| Contact.ContactForm.constructor | src/components/sections/Contact.jsx:14-23 | the form starts empty, with no errors, not submitting, not submitted, and no error |
| Contact.ContactForm.HandleChange | src/components/sections/Contact.jsx:25-32 | the field takes the new value, its message is taken down, nothing else changes, and every message still on display matches its field's current value |
| Contact.ContactForm.HandleSubmit | src/components/sections/Contact.jsx:49-100 | a filled honeypot changes nothing; an invalid form shows its errors and sends nothing; a valid form is sent only with a key, is cleared and marked submitted on a 2xx answer, and otherwise keeps its inputs and shows the thrown message or the fallback |
| Contact.DeliveryFailureCases | src/components/sections/Contact.jsx:67-96 | delivery succeeds exactly with a key and a 2xx answer; a missing key, a non-2xx answer and a thrown error each give their message |
| Contact.OnlyValidFormsAreSent | src/components/sections/Contact.jsx:53-86 | a request built from a valid form carries the key and the form's fields, with the fixed subject prefix and sender name, and those fields pass every rule: an email of the accepted shape, a name of 2+ trimmed and at most 100 characters, a message of 10+ trimmed and at most 2000 characters (that only such forms are sent is Contact.ContactForm.HandleSubmit's contract) |
| Projects.FeaturedOnly | src/components/sections/Projects.jsx:97 | the filter keeps every featured project and nothing else |
| Projects.FeaturedOnlyCounts | src/components/sections/Projects.jsx:97 | each featured project is kept as many times as it is listed, every other project not at all |
| Projects.FeaturedOnlyAppend | src/components/sections/Projects.jsx:97 | filtering a concatenation filters each part, so kept projects stay in listed order |
| Projects.FeaturedOnlyWithOrder | src/components/sections/Projects.jsx:97 | filtering commutes with picking out the projects of one `order` value |
| Projects.FeaturedSelectionStable | src/components/sections/Projects.jsx:97-98 | featured projects of equal `order` appear in the sorted featured list in their listed order |
| Projects.InsertIsPermutation | src/components/sections/Projects.jsx:98 | inserting adds exactly the one project and keeps the others |
| Projects.InsertKeepsSorted | src/components/sections/Projects.jsx:98 | inserting into a sorted list keeps it sorted, and adds nothing but the project |
| Projects.InsertIsStable | src/components/sections/Projects.jsx:98 | an inserted project goes ahead of those of equal order already placed |
| Projects.SortIsSorted | src/components/sections/Projects.jsx:98 | the sort orders by `order` |
| Projects.SortIsPermutation | src/components/sections/Projects.jsx:98 | the sort is a permutation |
| Projects.SortIsStable | src/components/sections/Projects.jsx:98 | projects with equal `order` keep their listed order |
| Projects.Cap | src/components/sections/Projects.jsx:99 | `slice(0, 6)` keeps the first min(n, 6) projects |
| Projects.FeaturedSelectionOrder | src/components/sections/Projects.jsx:96-99 | the section shows at most six projects sorted by `order`, the first of the sorted featured list, and no featured project left out has a smaller order than one shown |
| Projects.FeaturedSelectionMembers | src/components/sections/Projects.jsx:96-99 | every project shown is a featured project of the list |
| Projects.NoneFeatured | src/components/sections/Projects.jsx:97 | a list with no featured project shows nothing |
| Projects.FeaturedOfBuiltInData | src/components/sections/Projects.jsx:9-77 | of the built-in list only the portfolio website is featured, so it alone is shown |
| Projects.ProjectsSection.constructor | src/components/sections/Projects.jsx:84-85 | the section starts with no projects and loading |
| Projects.ProjectsSection.LoadProjects | src/components/sections/Projects.jsx:93-107 | loading stores the featured selection (at most six, sorted, featured members of the list) and ends the loading state |
| Projects.TechBadges | src/components/sections/Projects.jsx:209-216 | a card has min(n, 5) badges, plus one when n > 5 |
| Projects.TechBadgesCount | src/components/sections/Projects.jsx:209-216 | the primary badges name the first technologies in order, and the neutral `+N` badge exists exactly when there are more than five, N reading back as the number left unnamed |
| Projects.StripLeadingSlash | src/components/sections/Projects.jsx:193 | at most one leading `/` is removed |
| Projects.CardImageSrc | src/components/sections/Projects.jsx:191-197 | a picture is shown exactly for a non-empty image path, under the base address, without the path's leading slash |
| Projects.CardImageUnderBase | src/components/sections/Projects.jsx:193 | `/x` is shown as the base address followed by `x` |
| Projects.Description | src/components/sections/Projects.jsx:204 | the overview when it is non-empty, and the summary otherwise |
| Projects.CardLink | src/components/sections/Projects.jsx:188 | a card opens `/projects/` followed by its project's slug, so the detail route's `:slug` part is that slug |
| Projects.CardLinkInjective | src/components/sections/Projects.jsx:188 | two cards open the same route exactly when their projects share a slug |
| Renderer.RenderImage | src/components/markdown/MarkdownRenderer.jsx:18-20 | an image keeps its source and text and loads lazily |
| Renderer.FindLanguage | src/components/markdown/MarkdownRenderer.jsx:23 | the search finds the leftmost `language-` followed by a word character, and none only when there is none |
| Renderer.WordRunEnd | src/components/markdown/MarkdownRenderer.jsx:23 | `\w+` takes the whole run of word characters |
| Renderer.LanguageEmptyIffNoMatch | src/components/markdown/MarkdownRenderer.jsx:23-24 | the language is empty exactly when the class has no `language-` followed by a word character |
| Renderer.LanguageIsFirstWordRun | src/components/markdown/MarkdownRenderer.jsx:23-24 | otherwise the language is the whole word run right after the first such `language-` |
| Renderer.LanguageOfSimpleClass | src/components/markdown/MarkdownRenderer.jsx:23-24 | the class `language-<word>` gives `<word>` |
| Renderer.StripTrailingNewline | src/components/markdown/MarkdownRenderer.jsx:39 | the text is unchanged or loses one final newline |
| Renderer.StripTrailingNewlineExact | src/components/markdown/MarkdownRenderer.jsx:39 | exactly one final newline goes, and text without one is unchanged |
| Renderer.RenderCode | src/components/markdown/MarkdownRenderer.jsx:22-42 | inline code is rendered inline with its text unchanged; anything else is a block with the class's language and the text less a final newline |
| Renderer.RenderLink | src/components/markdown/MarkdownRenderer.jsx:44-56 | a link opens in a new tab with `noopener noreferrer` exactly when its address starts with `http`; address and text pass through |
| ProjectDetail.FindMd | src/pages/ProjectDetail.jsx:35 | the search finds the first `.md`, and none only when there is none |
| ProjectDetail.RemoveFirstMd | src/pages/ProjectDetail.jsx:35 | only the first `.md` is removed |
| ProjectDetail.LastPieceOfPath | src/pages/ProjectDetail.jsx:35 | the last `/`-separated piece of `<dir>/<file>` is the file |
| ProjectDetail.FirstMdIsExtension | src/pages/ProjectDetail.jsx:35 | in `<name>.md`, with no `.md` inside the name, the first `.md` is the extension |
| ProjectDetail.FileNameOfPath | src/pages/ProjectDetail.jsx:35 | the file `<dir>/<name>.md` is known by `<name>` |
| ProjectDetail.FirstMatchIndex | src/pages/ProjectDetail.jsx:34-40 | no file before the index is named after the slug, and the file at the index is |
| ProjectDetail.FindProjectContent | src/pages/ProjectDetail.jsx:33-40 | the loop finds content exactly when some file is named after the slug, and then returns the content of the first such file |
| ProjectDetail.ProjectRecord | src/pages/ProjectDetail.jsx:47-48 | the project holds the front-matter fields, with `content` set to the body |
| ProjectDetail.LoadOutcomeDependsOnFirstMatch | src/pages/ProjectDetail.jsx:34-40 | files listed after the first match do not change what is loaded |
| ProjectDetail.ProjectDetailPage.constructor | src/pages/ProjectDetail.jsx:16-18 | the page starts with no project, loading, and no error |
| ProjectDetail.ProjectDetailPage.LoadProject | src/pages/ProjectDetail.jsx:24-55 | a missing or empty file gives "Project not found", a parser failure gives "Failed to load project" (the previous project stays in both cases), and otherwise the parsed project is shown; loading always ends |
| ScrollSpy.FirstHit | src/hooks/useScrollSpy.js:17-26 | the scan stops at the first id, in list order, whose element exists and whose box holds the position |
| ScrollSpy.Selected | src/hooks/useScrollSpy.js:15-26 | the selected section exists, holds the position, and comes before every other such section; there is none exactly when no tracked section holds the position |
| ScrollSpy.NextActive | src/hooks/useScrollSpy.js:17-26 | after a scroll the active section is the selected one, or the previous one when nothing is selected |
| ScrollSpy.ActiveAfterIsTracked | src/hooks/useScrollSpy.js:11-26 | whatever the scrolling, the active section is `""` or a tracked id |
| ScrollSpy.NoIdsKeepsActive | src/hooks/useScrollSpy.js:17 | with no tracked ids the active section never changes |
| ScrollSpy.MissingNeverActive | src/hooks/useScrollSpy.js:18-19 | an id without an element never becomes active |
| ScrollSpy.NavSectionIds | src/components/layout/Navigation.jsx:12-16 | the five home sections are tracked on `/` or the empty path, and none elsewhere |
| ScrollSpy.OffHomeNothingActive | src/components/layout/Navigation.jsx:12-16 | off the home page the active section stays `""` |
| ScrollSpy.SectionSpy.constructor | src/hooks/useScrollSpy.js:10-11 | the active section starts as `""` |
| ScrollSpy.SectionSpy.HandleScroll | src/hooks/useScrollSpy.js:14-27 | the loop sets the active section to the selected section for `scrollY + offset`, and otherwise leaves it; it stays `""` or a tracked id |

## Left out

- **Lengths:** they are counted in characters. JavaScript counts UTF-16 code units,
  so strings with characters outside the Basic Multilingual Plane measure
  differently.
- **Lower-casing:** `toLowerCase` is modelled only as far as slugs need: ASCII
  letters, plus the two characters whose lower case is an ASCII letter (U+212A
  KELVIN SIGN and U+0130). Other characters never reach a slug, so their exact
  lower case is not modelled.
- **`parseInt`:** the `0x` hexadecimal prefix is not modelled. Numbers are exact
  integers, while `parseInt` returns a double: a day or month number above 2^53 is
  rounded in JavaScript (`2024-01-9007199254740993` prints day `9007199254740992`)
  but kept exact here. The exponent form JavaScript uses to print numbers of 10^21
  or more is not modelled either.
- Markdown.ReadTime: requires a positive reading speed. In JavaScript a speed
  of 0 gives `Infinity`.
- **Excerpt link patterns:** `generateExcerpt` applies its two link patterns after
  `[` and `]` have already been removed, so they can never match. The model
  therefore leaves them out, and `Markdown.ExcerptProperties` shows that no `[`
  remains.
- **Front matter:** the front-matter parser (gray-matter) is a parameter, with
  `None` where it throws.
- **`import.meta`:**
  - The bundler's file listing is a parameter: a sequence of (path, content) pairs
    in listing order.
  - The base address is a parameter.
  - The relay access key is a parameter.
- **Relay:** the HTTP request itself is out. The model takes the relay's status, or
  the thrown message, as an input, and returns the request body it would post.
- **React semantics:** state updates are modelled as immediate assignments. The
  model does not capture React batching, two events interleaving across the
  `await` in `handleSubmit`, or the effects that re-run on a changed slug.
  `console.error` is not modelled.
- Projects.ProjectsSection.LoadProjects: takes the project list as a
  parameter instead of reading the built-in `ProjectsData`.
  `Projects.FeaturedOfBuiltInData` gives the result for that list. The `try` block
  cannot throw, so its `catch` is not modelled.
- **Built-in project list:** its long descriptions and its advantage and outcome
  lists are shortened or dropped, because no modelled rule reads them.
- **Code blocks:** `String(children)` is modelled for text children only. The
  syntax highlighter and copy button (`CodeBlock.jsx`) are not modelled.
- **Heading anchors:** the anchors rehype-slug puts on rendered headings are not
  modelled, and the model does not claim they agree with `Markdown.Slugify`.
- **Scroll positions:** they are integers. The browser's fractional `scrollY` is not
  modelled, and neither is the scroll-event subscription. The model takes one
  element map per scroll event.
- **Not part of this model:**
  - `useMarkdown.js` (an asynchronous fetch);
  - `Header.jsx` and `useReducedMotion.js` (browser listeners);
  - the smooth-scroll arithmetic in `Navigation.jsx`;
  - `Experience.jsx` (a library sort and a "Present" fallback in markup);
  - the UI components, which only join class names;
  - routing, configuration and animation.
