# History explorer session model

This project models the logic of the `HistoryExplorer` React component (`history-explorer.jsx`),
a "this day in history" explorer. The user picks a date on the cover:

- today,
- a random day, or
- a typed `MM-DD`.

A language model is then asked for five events of that date. The events appear as buttons on a
list card. Clicking an event appends a detail card and requests a story for it. Each story ends
with up to three "exploration anchors" (lines starting with 💭, 🔗 or ✨). Clicking an anchor
appends an extension card and requests another text. All generated texts are logged and can be
exported as one plain-text document.

The model has one Dafny module per concern:

- `JsString`: the JavaScript string primitives the component relies on, with JavaScript's own
  semantics. These are `trim`, `startsWith`, `split` on one character, `repeat`, the rendering of
  a number in a template literal, and the global `parseInt` with no radix. `parseInt` skips white
  space, accepts a sign and a `0x` prefix, and reads the longest digit prefix. NaN is `None`.
- `CustomDate`: a month and day of the reference year 2024, the `M月D日` rendering, and the
  validation done by `handleCustomDate`. The `new Date(2024, m, d).getMonth()` check is
  modelled by the month a day lands in.
- `Exploration`: `parseExtensions`. It is a loop method, proved against a reference function `Anchors`.
- `Events`: the fence stripping applied to the model's reply, the numbering and titling of the
  decoded records, the `find` by id, and the ids of extension cards.
- `Cards`: the three kinds of card, what `renderCard` shows for each, and the arrow targets.
- `Export`: the exported document as a reference function over the log of generated texts.
- `Session`: the component's state as the class `HistorySession`. Each field is a `useState`
  variable. Each handler is a method that updates the fields step by step. `Valid()` is the
  invariant the handlers keep: the focus is on a card, the main view starts with the list card
  of the selected date, and `expandedContent` is exactly what the log leaves behind.

Network calls become steps with an outcome. A handler that would call `fetch` returns the request
it would send. The reply arrives later through `FinishEventList` or `CompleteGeneration`, as a success or a failure value.

The model follows the code in these places, although one might expect otherwise:

- one might expect a non-leap reference year, but the code uses 2024, a leap year, so `02-29` is accepted;
- one might expect unique cards, but opening an event or extension twice appends a second, identical card;
- one might expect a click during a generation to be ignored, but the loading flag is never consulted, so it requests again;
- a failed generation stores nothing, so the id can be requested again;
- a completion that arrives after "返回日期选择" still stores and logs its text.

## Model

| member | source | states |
|---|---|---|
| JsString.IsWhite | history-explorer.jsx:231 | JavaScript's WhiteSpace and LineTerminator characters, the set `trim` strips and `parseInt` (:168) skips |
| JsString.Trim | history-explorer.jsx:231 | `trim`: drops the longest white run at the start, then the longest at the end; its result has no white end and is never longer (TrimStrips, TrimUnique give its meaning) |
| JsString.TrimStrips | history-explorer.jsx:231 | trim only removes white characters, only from the two ends of the line |
| JsString.TrimUnique | history-explorer.jsx:231 | any removal of white ends that leaves no white end is what trim returns, so trim leaves no white end and removes no more than it must |
| JsString.TrimIdempotent | history-explorer.jsx:231 | trimming a trimmed line changes nothing |
| JsString.TrimIgnoresWhiteSuffix | history-explorer.jsx:92 | white characters appended to a text do not change its trimmed form |
| JsString.StartsWith | history-explorer.jsx:232 | `startsWith`: the prefix is the first characters of the text |
| JsString.Split | history-explorer.jsx:227 | `split` on one character: the pieces between separators, at least one, the empty text giving `[""]` (SplitParts, JoinSplit, SplitJoin give its meaning) |
| JsString.SplitParts | history-explorer.jsx:227 | split on a character gives one part more than the character's occurrences, and no part contains it |
| JsString.JoinSplit | history-explorer.jsx:227 | joining the parts of a split with the separator gives back the original text |
| JsString.SplitJoin | history-explorer.jsx:163 | splitting separator-free parts joined by the separator gives back those parts |
| JsString.Repeat | history-explorer.jsx:325 | `c.repeat(n)` is n copies of c |
| JsString.NatToString | history-explorer.jsx:32 | a number renders as a non-empty run of decimal digits, with no leading zero except for 0 itself |
| JsString.DecimalRoundTrip | history-explorer.jsx:32 | the decimal value of a number's rendering is that number |
| JsString.NatToStringInjective | history-explorer.jsx:98 | different numbers render differently |
| JsString.ParseInt | history-explorer.jsx:168-169 | global `parseInt` with no radix: skip white space, an optional sign, `0x`/`0X` for hexadecimal, the longest digit prefix, `None` (NaN) when there is no digit |
| JsString.IntToString | history-explorer.jsx:99 | an integer in a template literal: a '-' before the digits of a negative number |
| JsString.ParseIntRoundTrip | history-explorer.jsx:168-169 | parseInt reads back the rendering of every integer, negative ones included |
| JsString.ParseIntLenient | history-explorer.jsx:168-169 | parseInt ignores leading white space, leading zeros and anything after the digits that is not a digit |
| JsString.ParseIntDecimal | history-explorer.jsx:168-169 | after white space, decimal digits not forming `0x` followed by a non-digit are read as their decimal value |
| CustomDate.DaysInMonth2024 | history-explorer.jsx:175-180 | months of 2024 have 29 (February), 30 (April, June, September, November) or 31 days |
| CustomDate.LandingMonth2024 | history-explorer.jsx:175-180 | `new Date(2024, m, d)` stays in month m exactly when d fits in that month |
| CustomDate.FormatDate | history-explorer.jsx:31-38 | `formatDate` and `formatDateForPrompt`: `M月D日` with no leading zeros |
| CustomDate.FormatDateInjective | history-explorer.jsx:31-33 | different dates render differently as `M月D日` |
| CustomDate.AcceptedDate | history-explorer.jsx:155-186 | the reference definition of an accepted input: non-empty, two '-'-separated parts read by parseInt as a real day of 2024 |
| CustomDate.ValidateCustomDate | history-explorer.jsx:155-186 | an input is accepted as a day exactly when it satisfies the reference definition (non-empty, two parts, both numbers, a real day of 2024); each refusal reason holds exactly when its check fails first |
| CustomDate.EveryDayAccepted | history-explorer.jsx:162-182 | every real day of 2024 is accepted in `MM-DD`, `M-D` or any zero-padded spelling |
| CustomDate.DayPastMonthEndRefused | history-explorer.jsx:175-180 | an input whose two parts parseInt reads as a month and a day past that month's end is refused, however the parts are spelled |
| CustomDate.PaddedDayPastMonthEndRefused | history-explorer.jsx:162-180 | a day past the end of its month, such as 02-30, is refused in every zero-padded decimal spelling |
| Events.RemoveMarker | history-explorer.jsx:92 | `replace(/m\n?/g, "")`: a left-to-right scan deleting every occurrence of m and one newline after it; never lengthens the text |
| Events.StripFences | history-explorer.jsx:92 | the cleaning of the reply: remove ```` ```json ```` fences, then ```` ``` ```` fences, then trim |
| Events.RemoveKeepsPrefix | history-explorer.jsx:92 | a prefix where no marker starts passes through the marker removal unchanged |
| Events.RemoveNothing | history-explorer.jsx:92 | a text without the marker is left unchanged by its removal |
| Events.NoFenceAfterRemoval | history-explorer.jsx:92 | after removing every fence, no three backticks in a row remain, even where deletions join text |
| Events.StrippedHasNoFence | history-explorer.jsx:92 | the cleaned reply contains no fence at all |
| Events.UnfencedOnlyTrimmed | history-explorer.jsx:92 | a reply without fences is only trimmed |
| Events.FencedBlockUnwrapped | history-explorer.jsx:92 | a reply wrapped in a ```` ```json ```` block yields the trimmed block body |
| Events.ShapeEvent | history-explorer.jsx:97-114 | the event built from the record at a position: its id, title, copied fields and story prompt |
| Events.EventId | history-explorer.jsx:98 | `event{index+1}` for a 0-based position |
| Events.EventTitle | history-explorer.jsx:99 | `{year}年 - {title}` |
| Events.ShapeEvents | history-explorer.jsx:97 | shaping yields one event per decoded record |
| Events.ShapedEventAt | history-explorer.jsx:97-114 | the i-th record becomes the i-th event with id `event{i+1}`, title `{year}年 - {title}`, its emoji, category and description unchanged, and a story prompt built from year, date and title |
| Events.EventIdInjective | history-explorer.jsx:98 | different positions get different event ids |
| Events.ShapedIdsDistinct | history-explorer.jsx:98 | the events of a list have pairwise distinct ids |
| Events.EventTitleInjective | history-explorer.jsx:99 | the displayed title determines the year and the original title |
| Events.FindEvent | history-explorer.jsx:328 | `find` by id returns the first event with that id, or nothing when none has it |
| Events.FindShapedEvent | history-explorer.jsx:328 | looking up the id of the i-th shaped event finds the i-th event |
| Events.ExtensionId | history-explorer.jsx:268 | `${parentId}_ext${index}` |
| Events.ExtensionIdInjective | history-explorer.jsx:268 | `${parentId}_ext${index}` determines both the parent id and the index |
| Events.ExtensionIdIsNoEventId | history-explorer.jsx:268 | no extension id is an event id |
| Events.ExtensionIdNotFound | history-explorer.jsx:328-332 | looking up an extension id among the events finds nothing |
| Exploration.IsAnchorLine | history-explorer.jsx:232 | the three `startsWith` tests: the line starts with 💭, 🔗 or ✨ |
| Exploration.QualifyingLines | history-explorer.jsx:229-235 | the trimmed lines that start with 💭, 🔗 or ✨, in order (QualifyingAreMarked, QualifyingAppend give its meaning) |
| Exploration.FirstAnchors | history-explorer.jsx:237 | `slice(0, 3)`: the first three qualifying lines, or all of them when there are fewer |
| Exploration.Anchors | history-explorer.jsx:237 | at most three anchors are returned |
| Exploration.ParseExtensions | history-explorer.jsx:226-238 | the loop over the lines returns the reference anchors of the text |
| Exploration.AnchorsAreMarkedLines | history-explorer.jsx:231-233 | every anchor is trimmed and starts with 💭, 🔗 or ✨ |
| Exploration.QualifyingAppend | history-explorer.jsx:230-235 | qualifying lines keep their order of appearance across consecutive blocks of lines |
| Exploration.AnchorsNoneSkipped | history-explorer.jsx:230-237 | a qualifying line among the first three is an anchor, at the position given by the number of qualifying lines before it |
| Exploration.AnchorsComeFromLines | history-explorer.jsx:227-233 | every anchor is one of the text's lines, trimmed |
| Exploration.FooterYieldsAnchors | history-explorer.jsx:108-112 | a story ending in the requested footer of three marked lines offers exactly those three lines, when no narrative line starts with a marker |
| Cards.HasContent | history-explorer.jsx:261 | the truthiness of `expandedContent[id]` (also at :286, :601, :654, :673): a text is stored and is not empty, so an empty text counts as absent and is requested again |
| Cards.IsLoading | history-explorer.jsx:624 | `loadingStates[card.id]` is truthy, the test of :648 |
| Cards.DetailCardOf | history-explorer.jsx:243-251 | a detail card has the event's id, parent `main` and the event as its data |
| Cards.ExtensionCardOf | history-explorer.jsx:268-276 | an extension card has id `${parentId}_ext${index}`, the anchor text as title and its parent |
| Cards.Rows | history-explorer.jsx:588 | the list card shows one button per event |
| Cards.Offers | history-explorer.jsx:671 | a content card offers one button per anchor of its text |
| Cards.ListRows | history-explorer.jsx:588-604 | the i-th button shows the i-th event, badged exactly when its story has content |
| Cards.RenderCard | history-explorer.jsx:573-709 | `renderCard`: the list card shows its rows; any other card shows loading first, then its non-empty content with its offers, else the error message |
| Cards.OffersOfContent | history-explorer.jsx:621-699 | a card shows content only when not loading and the text is non-empty; it offers its anchors in order, the k-th opening `${card.id}_ext${k}`, badged exactly when that id has content |
| Cards.ViewWhileLoading | history-explorer.jsx:648-653 | while a card's id is loading, the card shows the loading state |
| Cards.ViewAfterSuccess | history-explorer.jsx:654-699 | after a successful non-empty generation, the card shows the text and its anchors |
| Cards.ViewAfterFailure | history-explorer.jsx:701-705 | after a failed generation, the card shows what it had, or the error message when it had nothing |
| Cards.OtherCardsUnaffected | history-explorer.jsx:623-624 | a loading flag change for one id leaves every card with another id as it was |
| Cards.LeftIndex | history-explorer.jsx:514 | the left arrow gives `max(0, i - 1)` |
| Cards.RightIndex | history-explorer.jsx:524 | the right arrow gives `min(count - 1, i + 1)` |
| Cards.ShowsLeftArrow | history-explorer.jsx:512 | the left arrow is rendered when the focus is past the first card |
| Cards.ShowsRightArrow | history-explorer.jsx:522 | the right arrow is rendered when the focus is before the last card |
| Cards.ArrowsStayInRange | history-explorer.jsx:512-529 | both arrows keep the focus on a card; an arrow is shown exactly when it moves the focus by one |
| Export.DateLabel | history-explorer.jsx:322 | the selected date as `M月D日`, or `未知日期` when none is selected |
| Export.Header | history-explorer.jsx:321-325 | the title line with the date, the time line and a rule of fifty '=' |
| Export.Block | history-explorer.jsx:330-335 | a block: the heading, a blank line, the text, a blank line, a rule of fifty '-' and a blank line |
| Export.Label | history-explorer.jsx:327-333 | the heading of an entry: `【category】title` of the first main event with its id, else `【拓展内容 #k】` for 1-based position k |
| Export.ExportText | history-explorer.jsx:321-339 | the reference export: the header, then one block per log entry in log order |
| Export.BlocksAppend | history-explorer.jsx:327-336 | the blocks of two consecutive runs of log entries are the blocks of the first, then those of the second, numbered on |
| Export.ExportExtends | history-explorer.jsx:321-339 | the export of a longer log is the export of its prefix followed by the remaining blocks |
| Export.ExportGrowsByOneBlock | history-explorer.jsx:327-336 | one more log entry adds exactly one block, labelled for its position, at the end |
| Export.EventEntryLabel | history-explorer.jsx:328-330 | a story of the i-th event is headed `【category】title` of that event |
| Export.ExtensionEntryLabel | history-explorer.jsx:331-332 | any other text is headed `【拓展内容 #k】`, k its 1-based position in the log |
| Session.MainCardTitle | history-explorer.jsx:123 | the list card's title, `M月D日的历史事件` |
| Session.Apology | history-explorer.jsx:221 | the text generateContent returns on failure, with the error message in the middle |
| Session.CacheOf | history-explorer.jsx:213-214 | the content map left by storing the log's texts one after another |
| Session.CacheIsLastWrite | history-explorer.jsx:213-214 | an id has content exactly when some log entry is for it, and the content is that of its latest entry |
| Session.CacheOfAppend | history-explorer.jsx:213-214 | logging a text updates the content of its id and of no other |
| Session.HistorySession.Valid | history-explorer.jsx:5-15 | the state invariant: the focus is on a card (0 when there are none), the main view starts with the list card of the selected date, and the content map is what the log leaves behind |
| Session.HistorySession.constructor | history-explorer.jsx:5-15 | the initial state: the cover, nothing selected, no events, cards, texts or flags, an empty date field |
| Session.HistorySession.SetCustomDateInput | history-explorer.jsx:415 | typing sets the date field |
| Session.HistorySession.StartEventList | history-explorer.jsx:41-43 | starting an event list sets the generating flag and requests the list for the date's rendering |
| Session.HistorySession.HandleCustomDate | history-explorer.jsx:155-186 | an accepted input starts its date's event list; a refused one changes nothing and matches no date |
| Session.HistorySession.FinishEventList | history-explorer.jsx:116-134 | a decoded list installs the shaped events, the date and a fresh list card with the focus on it; a failure only clears the flag |
| Session.HistorySession.OpenEvent | history-explorer.jsx:241-264 | exactly one detail card is appended and focused; the story is requested, and its id marked loading, exactly when no content is stored for it |
| Session.HistorySession.OpenExtension | history-explorer.jsx:267-301 | the same for the extension card `${parentId}_ext${index}` and its prompt |
| Session.HistorySession.CompleteGeneration | history-explorer.jsx:187-223 | a success stores the text under the id, logs it once and clears the flag; a failure only clears the flag and returns the apology |
| Session.HistorySession.GoLeft | history-explorer.jsx:514 | the left arrow moves the focus to `LeftIndex` |
| Session.HistorySession.GoRight | history-explorer.jsx:524 | the right arrow moves the focus to `RightIndex` |
| Session.HistorySession.GoToCard | history-explorer.jsx:559 | a dot focuses its card |
| Session.HistorySession.BackToMain | history-explorer.jsx:304-306 | back-to-main focuses the list card; no element of the page calls this handler, so the page cannot reach it |
| Session.HistorySession.ResetToCover | history-explorer.jsx:456-464 | the reset empties events, cards, contents and log, focuses 0 and clears the field, leaving the loading flags and the selected date |
| Session.HistorySession.ExportAllContent | history-explorer.jsx:321-339 | the loop over the log builds the reference export text |

## Left out

- `fetch`, the HTTP status check and the shape of the response are not modelled. They are a foreign network service, so a generation is a success value or a failure with a message.
- `JSON.parse` of the cleaned reply is not modelled. `FinishEventList` takes the decoded records as input. Whether the cleaned text is valid JSON is not modelled.
- The wording of the three prompts is not modelled. A prompt is a value built from what it is built from (`EventListPrompt`, `EventStoryPrompt`, `ExtensionPrompt`).
- JSX, CSS classes, the injected style element, the scroll effect and the `showInstructions` toggle are not modelled. They are rendering and DOM work; `RenderCard` keeps which state a card shows.
- `handleExploreToday` and `handleRandomDay` are not modelled. They read the clock and `Math.random`. Both end by calling `generateEventsList`, which `StartEventList` models for any date.
- `toLocaleString` is not modelled; the export timestamp is a parameter.
- `navigator.clipboard` and every `alert` are not modelled. They are browser I/O; each refusal of a typed date is a `DateError` value instead.
- Asynchrony and React's batching of state updates are not modelled. Each generation is a start step and a completion step.
- Decoded event records are assumed to be well-typed: an integer `year` and string `title`, `category`, `emoji` and `description`. A missing field or a fractional or string year, which `JSON.parse` allows, would render differently (`undefined`, `2024.5年`) and is not modelled.
- The `console.error` calls in the two `catch` blocks are not modelled; they are logging only.
- JsString.IntToString: years are rendered as their exact decimal digits. JavaScript renders a Number, which beyond 2^53 prints the shortest digits that read back to the same double and from 1e21 uses exponent form (`1e+21`); neither is modelled.
- JsString.ParseInt: values beyond 2^53, which JavaScript rounds to double precision, are kept exact.
- JsString.Trim: strings are sequences of Unicode scalar values rather than UTF-16 code units.
- The dots row is shown only when there is more than one card. That is rendering only; `GoToCard` models a dot's click.
