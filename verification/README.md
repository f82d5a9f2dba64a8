# Portfolio site logic, modelled in Dafny

The site is a single-page portfolio. Most of it is animation and static copy. This
project models its five pieces of actual logic as immutable records and pure functions,
and proves what they promise.

- **Code editor typewriter** (`html_escape.dfy`, `typewriter.dfy`):
  - `escapeHtml` is five chained global replacements.
  - The typing animation is a state machine. Its state is the snippet index, the typed
    prefix, the pause flag, the typing interval, the snippet-switch timeout and the
    pending delayed start.
  - Timer callbacks and `visibilitychange` are discrete events, because JavaScript
    runs one callback at a time.
- **Email check** (`email_validation.dfy`): the regular expression
  `^[^\s@]+@[^\s@]+\.[^\s@]+$` and the three result paths of
  `validateEmailWithZeroBounce`. The host name and the outcome of the remote call are
  inputs.
- **Project listing** (`projects.dfy`):
  - The split into featured and compact grids.
  - The compact card's three-tag truncation with the "+N" badge.
  - The site's six projects.
- **Contact form** (`contact.dfy`): four text fields, keyed updates, and a submit in two
  steps (begin, then complete), with the button state derived from the flag.
- **Navigation** (`navigation.dfy`): menu open/closed, the active section, and which
  item is highlighted.

`options.dfy` holds the `Option` type used for optional values.

## Model

| member | source | states |
|---|---|---|
| HtmlEscape.ReplaceAll | src/components/CodeEditor.tsx:158 | a global replacement of one character never leaves that character behind when the replacement text lacks it |
| HtmlEscape.EscapeHtml | src/components/CodeEditor.tsx:156-163 | the escaped text contains no `<`, `>`, `"` or `'` |
| HtmlEscape.EscapeHtmlIsPerChar | src/components/CodeEditor.tsx:157-162 | because `&` is replaced first, the chain equals escaping each character on its own (`&`→`&amp;`, `<`→`&lt;`, `>`→`&gt;`, `"`→`&quot;`, `'`→`&#039;`, others kept) |
| HtmlEscape.EscapeHtmlAppend | src/components/CodeEditor.tsx:157-162 | escaping distributes over concatenation |
| HtmlEscape.EscapeHtmlKeepsPlainText | src/components/CodeEditor.tsx:157-162 | a string without any of the five special characters is returned unchanged |
| HtmlEscape.EscapeHtmlNeverShrinks | src/components/CodeEditor.tsx:157-162 | the escaped text is never shorter than the input |
| HtmlEscape.EscapeHtmlRoundTrip | src/components/CodeEditor.tsx:198-202 | decoding the five entities (`Unescape`) gives back the text that was escaped: every character survives, in order |
| Typewriter.TypeCode | src/components/CodeEditor.tsx:165-183 | `typeCode` does nothing while paused or while an interval runs. Otherwise it starts typing the requested snippet from the saved index, and clears the text only when that index is 0 |
| Typewriter.OnTick | src/components/CodeEditor.tsx:183-218 | a paused tick, or one after the element is gone, stops the interval and keeps index and text. A running tick appends `code[index]`, increments the index and keeps the pending switch. At the end of the code, the tick stops the interval and schedules the switch, keeping index and text |
| Typewriter.SnippetEffect | src/components/CodeEditor.tsx:144-153 | a snippet change clears the text and index and stops typing |
| Typewriter.OnTimeout | src/components/CodeEditor.tsx:220-247 | the switch clears the text and index, and sets the snippet to `(k + 1) mod n`, which stays below `n`. It schedules the delayed start of that snippet. When the snippet changes, the snippet effect (lines 144-153) stops typing; otherwise the interval is kept |
| Typewriter.OnVisibility | src/components/CodeEditor.tsx:73-97 | hiding pauses and cancels both the interval and the timeout, keeping index and text. Showing acts only when paused: it clears the flag, keeps the index, the switch timeout and the pending start, and restarts typing with the resume snippet. It keeps the typed text, clearing it only when the index is 0. With an interval still running, or a resume snippet out of range, only the flag changes |
| Typewriter.TickInv | src/components/CodeEditor.tsx:193-211 | a tick keeps the shown text equal to the first `index` characters of the current snippet, with `index` at most its length |
| Typewriter.StepPreservesInv | src/components/CodeEditor.tsx:73-250 | when typing resumes the current snippet, every event keeps the text a prefix of the current snippet, and keeps every pending timer pointed at it |
| Typewriter.RunPreservesInv | src/components/CodeEditor.tsx:73-250 | the invariant holds after any sequence of events |
| Typewriter.CurrentInRange | src/components/CodeEditor.tsx:236 | when typing resumes the current snippet, after any sequence of events the snippet index lies in `[0, n)` and the typing index does not pass the snippet's end |
| Typewriter.AsWrittenCurrentInRange | src/components/CodeEditor.tsx:236 | as written too, the snippet index stays in `[0, n)` after any sequence of events: only the switch changes it, to `(k + 1) mod n` |
| Typewriter.AsWrittenIndexPassesSnippetEnd | src/components/CodeEditor.tsx:94 | as written, one more tick after the mixed text "xb" moves the typing index to 3, past the end of the two-character current snippet |
| Typewriter.OnRestart | src/components/CodeEditor.tsx:135-137 | the pending delayed start (after mount, or 500 ms after a switch at line 246) is consumed. It starts typing its snippet from the saved index only when not paused, no interval runs and the snippet exists; otherwise nothing else changes |
| Typewriter.TypesWholeSnippet | src/components/CodeEditor.tsx:193-220 | uninterrupted ticks type the whole snippet, one character per tick, and the next tick schedules the switch |
| Typewriter.AsWrittenResumeMixesSnippets | src/components/CodeEditor.tsx:94 | resuming with the first-render snippet index mixes two snippets: the text becomes "xb", which breaks the invariant |
| Typewriter.ResumeCurrentTypesCurrent | src/components/CodeEditor.tsx:94 | on the same events, resuming the current snippet finishes it as "xy" and keeps the invariant |
| EmailValidation.IsEmailFormatValid | src/utils/emailValidation.ts:5-7 | the format check holds exactly when the regular expression matches |
| EmailValidation.FormatMatchesPattern | src/utils/emailValidation.ts:6 | the regular expression matches exactly the strings that have no whitespace, exactly one `@`, a non-empty part before it, and a `.` after it that is neither the first nor the last character of the domain |
| EmailValidation.AcceptedStatus | src/utils/emailValidation.ts:29-30 | a remote status is accepted iff it equals `valid` or `catch-all` up to ASCII case, checked against a position-by-position reference; a missing status is refused |
| EmailValidation.LowerMatches | src/utils/emailValidation.ts:30 | lower-casing yields a given lower-case string exactly when the input spells it up to ASCII case |
| EmailValidation.VerdictOf | src/utils/emailValidation.ts:32-35 | the message is empty iff the address is valid, and otherwise it is the fixed invalid-address text |
| EmailValidation.ValidateEmail | src/utils/emailValidation.ts:1-46 | off `localhost` the verdict is the format check. On `localhost`, an ok response decides by its status. A non-ok response or a thrown error falls back to the format check. On every path the message is empty iff the verdict is valid |
| EmailValidation.RemoteIgnoredInProduction | src/utils/emailValidation.ts:10-15 | off `localhost` the remote outcome cannot change the verdict |
| EmailValidation.UpperCaseStatusAccepted | src/utils/emailValidation.ts:30 | `VALID` is accepted, since the status is lower-cased first |
| EmailValidation.MixedCaseCatchAllAccepted | src/utils/emailValidation.ts:30 | `Catch-All` is accepted |
| EmailValidation.OtherStatusRefused | src/utils/emailValidation.ts:29-30 | `invalid` is refused |
| EmailValidation.ShortestAccepted | src/utils/emailValidation.ts:6 | `a@b.c` passes |
| EmailValidation.LaxDotsAccepted | src/utils/emailValidation.ts:6 | `a.b@c..d` passes: the check is weaker than RFC 5322 |
| EmailValidation.DotlessDomainRefused | src/utils/emailValidation.ts:6 | `a@b` fails |
| EmailValidation.TwoAtSignsRefused | src/utils/emailValidation.ts:6 | `a@b@c.d` fails |
| EmailValidation.SpaceRefused | src/utils/emailValidation.ts:6 | `a b@c.d` fails |
| Projects.WithFlag | src/components/Projects.tsx:129 | filtering by the featured flag keeps exactly the projects with that flag |
| Projects.FeaturedGrid | src/components/Projects.tsx:129 | the large grid holds exactly the featured projects |
| Projects.SecondaryGrid | src/components/Projects.tsx:209 | the compact grid holds exactly the non-featured projects |
| Projects.GridsInterleave | src/components/Projects.tsx:129-209 | the project list is an order-preserving merge of the two grids, so each grid keeps the original order |
| Projects.InterleaveDeterminesGrids | src/components/Projects.tsx:129-209 | conversely, any order-preserving split into featured and non-featured lists is the pair of grids |
| Projects.GridsPartition | src/components/Projects.tsx:129-209 | every project lands in exactly one grid, counted with multiplicity, and the grid sizes add up to the total |
| Projects.CompactTagsOf | src/components/Projects.tsx:232-243 | a compact card shows the first `min(3, length)` technologies in order. The badge appears iff there are more than three, and shown tags plus N equal the total |
| Projects.FeaturedCard | src/components/Projects.tsx:136-200 | a featured card shows every technology unmodified and no badge |
| Projects.CompactCard | src/components/Projects.tsx:215-275 | a compact card shows the first `min(3, n)` technologies in order, with a badge exactly when some are left out, and the shown tags plus the badge's N equal `n` |
| Projects.CompactCardAccountsForAllTags | src/components/Projects.tsx:160-243 | the compact card's tags begin the full list, and with the badge's N account for every technology |
| Projects.CompactGridTags | src/components/Projects.tsx:209-243 | the compact grid has one entry per non-featured project, in order. Each shows the first `min(3, n)` of its `n` technologies, with a badge exactly when some are left out, and the shown tags plus the badge's N equal its technology count |
| Projects.CatalogGrids | src/components/Projects.tsx:48-109 | on the site's list, the compact grid holds Weather Dashboard and Social Media Dashboard, and the featured grid holds the other four |
| Projects.CatalogBadges | src/components/Projects.tsx:69-88 | both compact cards of the site's list show three tags and a "+2" badge |
| Contact.Set | src/components/Contact.tsx:66-69 | the named field gets the value and every other field keeps its value |
| Contact.SetSet | src/components/Contact.tsx:66-69 | a later change of the same field overrides an earlier one |
| Contact.SetCommutes | src/components/Contact.tsx:66-69 | changes to different fields commute |
| Contact.HandleInputChange | src/components/Contact.tsx:64-70 | an input change sets the named field, leaves the other three and the submitting flag unchanged |
| Contact.ApplyEditsLastWins | src/components/Contact.tsx:64-70 | after any sequence of input changes each field holds the last value typed into it, or its old value |
| Contact.BeginSubmit | src/components/Contact.tsx:72-74 | beginning a submit sets the flag and leaves the fields untouched |
| Contact.CompleteSubmit | src/components/Contact.tsx:79-86 | completing a submit empties all four fields and drops the flag |
| Contact.SubmitResets | src/components/Contact.tsx:72-90 | begin, any edits while pending, then complete, always returns the form to its state after mount |
| Contact.ButtonReflectsSubmitting | src/components/Contact.tsx:229-245 | the button is disabled, and reads "Sending...", exactly while a submit is pending; otherwise it reads "Send Message" |
| Contact.SubmitGateClosed | src/components/Contact.tsx:175-231 | with every control `required` and the button `disabled` while submitting, the empty form after mount cannot be submitted, a pending submit cannot be repeated, and a completed submit leaves a form that cannot be submitted again until refilled |
| Contact.FillingOpensGate | src/components/Contact.tsx:175-231 | filling in all four fields of an idle form makes it submittable |
| Contact.InitIsEmpty | src/components/Contact.tsx:12-19 | the form starts with four empty fields and no submit pending |
| Navigation.ToggleMenu | src/components/Navigation.tsx:101 | the menu button flips the menu and leaves the active section alone |
| Navigation.ToggleTwice | src/components/Navigation.tsx:101 | pressing the menu button twice restores the state |
| Navigation.ScrollToSection | src/components/Navigation.tsx:47-57 | a click on an item closes the menu, whether or not the target element exists, and does not change the active section |
| Navigation.SectionEntered | src/components/Navigation.tsx:25-26 | entering a section, forwards or back, makes it the active one and leaves the menu alone |
| Navigation.MenuVisibility | src/components/Navigation.tsx:111 | the mobile panel is shown iff the menu is open: it toggles with the button and disappears after any item click |
| Navigation.HighlightedIds | src/components/Navigation.tsx:86-90 | the highlighted items are those whose id equals the active section: exactly that one when it is a nav id, none otherwise |
| Navigation.AtMostOneHighlighted | src/components/Navigation.tsx:10-16 | the nav ids are distinct, so no two items are highlighted at once |
| Navigation.ActiveStaysNavId | src/components/Navigation.tsx:18-28 | as long as only the nav sections' triggers fire, the active section stays a nav id, so exactly one item is highlighted |
| Navigation.ClicksKeepActive | src/components/Navigation.tsx:47-57 | any sequence of clicks and menu presses leaves the active section unchanged; only the scroll triggers set it |
| Navigation.InitState | src/components/Navigation.tsx:7-8 | the bar starts with the menu closed and Home highlighted |

## Findings

| source | as written | input that shows it | evidently intended | confidence | as-written member | corrected member |
|---|---|---|---|---|---|---|
| src/components/CodeEditor.tsx:94 | The `visibilitychange` listener is registered once, in an effect with no dependencies (line 113). It resumes with `typeCode()`, whose default argument is the `currentSnippet` of the first render, which is 0. Resuming in snippet 1 or 2 continues typing snippet 0's code from the saved index, after snippet 1's or 2's typed prefix. | snippets `["abc", "xy"]`: snippet 0 is typed and switched away from, "x" of snippet 1 is typed, the page is hidden and shown, and one tick runs. The text is "xb". | resume the snippet currently shown | high, not executed | Typewriter.AsWrittenResumeMixesSnippets | Typewriter.RunPreservesInv |

`Typewriter.StepAsWritten` resumes with snippet 0. `Typewriter.Step` resumes with the current snippet, and the invariant and the other typewriter lemmas are stated for it.

## Left out

- Typewriter.CurrentInRange: the bound on the typing index holds only when typing resumes the current snippet. As written it fails (`Typewriter.AsWrittenIndexPassesSnippetEnd`); only the snippet-index bound holds there (`Typewriter.AsWrittenCurrentInRange`).
- HtmlEscape.EscapeHtmlRoundTrip: the browser's HTML parser turns CR and CRLF into LF and drops U+0000 before decoding entities. `Unescape` decodes only the five entities, so text containing CR or NUL is not displayed as typed. The component's snippets are template literals with neither character.
- Typewriter timing: the durations (50 ms, 500 ms, 1500 ms, 3000 ms) are not modelled. Events may come in any order in which the callbacks could run.
- Typewriter timer slots: one slot holds the pending delayed start and one holds the switch timeout. A second timeout can arise when a hide and a show within the 500 ms before a pending start resume typing early, and the snippet is finished before that start fires. At 50 ms per character the durations rule this out only for snippets of 9 or more characters. The component's three snippets are hundreds of characters long. For shorter snippets, which the lemmas admit because the snippets are a parameter, the model does not represent the extra timer.
- Typewriter snippet effect: the `[currentSnippet]` effect runs as part of the switch step that changes the snippet. React runs it right after that render.
- Typewriter snippets: the snippet texts are a parameter. The component's three snippets are one instance.
- Typewriter characters: one tick types one Unicode scalar value. JavaScript's `code.length` and `code[index]` (src/components/CodeEditor.tsx:193-194) count UTF-16 code units, so a character outside the Basic Multilingual Plane takes two ticks there, with a lone surrogate shown in between. `Typewriter.TypesWholeSnippet`'s tick count holds only for snippets within that plane. The component's own snippets are (their only non-ASCII character is U+2728).
- Typewriter unmount: the cleanup on unmount (src/components/CodeEditor.tsx:102-111), the GSAP slide-in, the cursor markup, the auto-scroll and the header's language label are not modelled.
- EmailValidation.AcceptedStatus: lower-casing is modelled for ASCII letters only. Full Unicode `toLowerCase` is not modelled, so a status containing non-ASCII letters may be judged differently.
- EmailValidation remote call: the `fetch` call, the API key, the JSON parsing and the console logging are abstract. The check's input is the call's outcome: an ok response with an optional status, a non-ok response, or a thrown error. A non-string status makes `toLowerCase` throw, so it counts as a thrown error.
- EmailValidation character set: strings are sequences of Unicode scalar values, not UTF-16 code units. The pattern's outcome only depends on `@`, `.` and whitespace, all in the Basic Multilingual Plane, so the verdict is the same.
- Projects display-only fields: the description, image URL, links and all styling are not modelled; no logic reads them.
- Contact email syntax: the browser's `type="email"` check on the email field is not modelled. `Contact.CanSubmit` only requires every field to be non-empty.
- Contact.BeginSubmit: carries no gate of its own, like `handleSubmit`. The browser's gate is `Contact.CanSubmit`, stated separately.
- Contact submit side effects: the 2000 ms wait and the success `alert` are not modelled. The form does not call the email check.
- Navigation effects: the GSAP scroll animation, the navbar background tween and killing the triggers on unmount are not modelled.
- Other components are not modelled: the 3D character, cursor dot and mouse glow (floating-point animation and WebGL), the hero's typing timeline, the static about, experience and skills sections, the app shell, the clipboard sticky elements, and the email API pass-through.
