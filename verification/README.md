# MultiSelect selection model

A Dafny model of the `MultiSelect` React component: a text input showing the
selected options as chips, with a suggestion panel below it. The user types to
filter the candidate options, clicks a row to toggle an option, removes chips,
selects every candidate with Ctrl/Meta+`a`, pops the last chip with Backspace,
and creates an ad-hoc option from the search text when nothing matches.

The component's state hooks and its `options` prop are one immutable record,
`State(initialOptions, options, selected, searchTerm, isOpen)`. Every event
handler is a pure function from one state to the next. The filtered suggestion
list and the contents of the panel are pure functions of the state.

- `text.dfy` (module `Text`) defines the three string primitives the handlers use:
  - `trim`, with the exact ECMAScript white-space and line-terminator set;
  - `toLowerCase`, restricted to ASCII letters;
  - `includes`, proved equal to "occurs at some offset".
- `seqs.dfy` (module `Seqs`) holds `Array.prototype.filter`, specified by multiplicities, membership and order.
- `multiselect.dfy` (module `MultiSelect`) covers:
  - the option and state records and one function per handler;
  - the filtered list, the create-row condition and the rendered panel;
  - the per-transition lemmas about unique values.
- `traces.dfy` (module `Traces`) covers:
  - user events, and the handler each one runs;
  - which events the rendered UI offers, and runs of event sequences;
  - an invariant of the candidate list;
  - general traces that break value uniqueness.
- `scenarios.dfy` (module `Scenarios`) states concrete traces on an empty candidate list, on the host application's chart options and on two of them.

Two properties a reader might expect do not hold in this code:

- **Distinct values in the selection.** Creating an option performs no collision check. A blank search also restores the candidate list from the `options` prop, which drops created options. So creating "X", clearing the search and creating "X" again selects the value "x" twice.
- **Every selected option is a candidate.** The blank-search reset drops created options from the candidates while they stay selected.

The model follows the code. It proves what each transition preserves (`Traces.StepUniqueSelectedIff`) and exhibits the traces that break both invariants (`Traces.DuplicateAfterReset`, `Scenarios.DuplicateX`).

Two more details of the code are modelled as written:

- Select-all tests the trimmed search term, but Backspace tests the raw one.
- The row filter uses the untrimmed search term.

## Model

| member | source | states |
|---|---|---|
| Text.Trim | src/components/MultiSelect.tsx:57 | `trim` yields the empty string exactly when every character is ECMAScript white space; otherwise the result starts and ends with non-space, and it is the input with only white space cut from both ends |
| Text.TrimStart | src/components/MultiSelect.tsx:42 | left half of `trim`: the result is a suffix of the input, everything cut off is white space, and it does not start with white space |
| Text.TrimEnd | src/components/MultiSelect.tsx:64 | right half of `trim`: the result is a prefix of the input, everything cut off is white space, and it does not end with white space |
| Text.Lower | src/components/MultiSelect.tsx:67 | the ASCII lower-casing keeps the length |
| Text.LowerKeepsNonLetter | src/components/MultiSelect.tsx:92 | a non-letter occurs in the lower-cased string iff it occurs in the original |
| Text.Includes | src/components/MultiSelect.tsx:92 | `String.prototype.includes`, checked offset by offset from the left; `Text.IncludesIff` proves it holds iff the needle occurs in the haystack at some offset |
| Text.IncludesIff | src/components/MultiSelect.tsx:92 | `includes(h, n)` holds iff `n` occurs in `h` at some offset |
| Text.IncludesEmpty | src/components/MultiSelect.tsx:92 | every string includes the empty string, so an empty search matches every label |
| Text.IncludesSelf | src/components/MultiSelect.tsx:92 | every string includes itself |
| Text.CharAbsentNotIncluded | src/components/MultiSelect.tsx:92 | a needle containing a character the haystack lacks is not included |
| Seqs.Filter | src/components/MultiSelect.tsx:79 | `filter` keeps each element satisfying the predicate exactly as often as it occurs, drops every other one, and keeps the order |
| Seqs.FilterAppend | src/components/MultiSelect.tsx:87 | filtering a concatenation is concatenating the filtered parts |
| Seqs.FilterKeepsAll | src/components/MultiSelect.tsx:91-93 | filtering with a predicate every element satisfies returns the sequence unchanged |
| Seqs.FilterDropsAll | src/components/MultiSelect.tsx:91-93 | filtering with a predicate no element satisfies returns the empty sequence |
| MultiSelect.WithoutValue | src/components/MultiSelect.tsx:87 | removing by value leaves no element with that value, keeps every other option with its multiplicity, and keeps their order |
| MultiSelect.WithoutAbsentValue | src/components/MultiSelect.tsx:87 | removing a value nobody has changes nothing |
| MultiSelect.WithoutAppendedValue | src/components/MultiSelect.tsx:77-81 | appending an option with a fresh value and then removing that value gives back the original sequence |
| MultiSelect.DropLast | src/components/MultiSelect.tsx:49 | `slice(0, -1)` is the sequence minus its last element, and empty on an empty sequence |
| MultiSelect.Init | src/components/MultiSelect.tsx:19-22 | the `useState` initial values: candidates from the prop, empty selection, empty search, panel closed; `MultiSelect.InitView` and `Traces.InitCandidatesInv` characterise the mount state |
| MultiSelect.HasValue | src/components/MultiSelect.tsx:78 | `some(item => item.value === v)`: some element has the value; `MultiSelect.UniqueCons` and `MultiSelect.UniqueSnoc` use it to characterise distinct values |
| MultiSelect.Blank | src/components/MultiSelect.tsx:57 | `value.trim() === ''`; by the contract of `Text.Trim` it holds iff the text is white space throughout |
| MultiSelect.HandleSearch | src/components/MultiSelect.tsx:53-61 | the search term becomes the raw text; a blank text restores the candidates to the prop, any other text leaves them alone; the selection and the panel are untouched |
| MultiSelect.IsSelectAllKey | src/components/MultiSelect.tsx:41 | the select-all key press: `a` with Ctrl or Meta (upper-case `A` does not qualify); `MultiSelect.HandleKeyDown` characterises it: the default action is suppressed iff this holds and the trimmed term is empty |
| MultiSelect.RemovesLast | src/components/MultiSelect.tsx:48 | the Backspace condition: the key is Backspace, the raw term (not trimmed) is empty and some chip is selected; `MultiSelect.HandleKeyDown` characterises it: exactly the last chip is dropped when it holds |
| MultiSelect.HandleKeyDown | src/components/MultiSelect.tsx:40-51 | the default action is suppressed iff the key is Ctrl/Meta+`a` and the trimmed term is empty, and then the selection becomes the whole candidate list; Backspace on a raw-empty term drops exactly the last chip; otherwise the selection is unchanged; candidates, term and panel are never touched |
| MultiSelect.AddNewOption | src/components/MultiSelect.tsx:63-74 | a blank term leaves the state unchanged; otherwise `{label: term, value: lower(term)}` is appended to candidates and selection, the term is cleared and the panel closes |
| MultiSelect.ToggleOption | src/components/MultiSelect.tsx:76-83 | if no selected option has the value, the option is appended; otherwise every option with the value is removed and the rest keep their order and multiplicity; the term is cleared; candidates and panel are unchanged |
| MultiSelect.RemoveOption | src/components/MultiSelect.tsx:85-89 | no option with the value remains, the survivors keep their order and multiplicity, and term, candidates and panel are unchanged |
| MultiSelect.Matches | src/components/MultiSelect.tsx:92 | the filter callback: the lower-cased label includes the lower-cased, untrimmed term; `MultiSelect.FilteredOptionsIff` restates it as "occurs at some offset" |
| MultiSelect.FilteredOptions | src/components/MultiSelect.tsx:91-93 | the visible rows are the candidates whose lower-cased label includes the lower-cased untrimmed term, with multiplicity and in candidate order |
| MultiSelect.ShowCreateRow | src/components/MultiSelect.tsx:146-160 | the create-row condition: no row matches and the term is not blank; `MultiSelect.CreateRowIff` proves it holds iff the term is not all white space and no candidate matches it |
| MultiSelect.RenderPanel | src/components/MultiSelect.tsx:143-168 | the panel is hidden iff closed; when open it lists the matching rows in order, each marked iff its value is selected; the create row, showing the term, appears iff nothing matches and the term is not blank |
| MultiSelect.SurfaceClick | src/components/MultiSelect.tsx:110-112 | a click on the input surface makes the panel visible and changes nothing else |
| MultiSelect.OutsideClick | src/components/MultiSelect.tsx:29-38 | a click outside hides the panel and changes nothing else |
| MultiSelect.InitView | src/components/MultiSelect.tsx:19-22 | on mount the panel is hidden, every candidate is listed and no create row is offered |
| MultiSelect.FilteredOptionsIff | src/components/MultiSelect.tsx:91-93 | an option is visible iff it is a candidate whose lower-cased label has the lower-cased term at some offset |
| MultiSelect.EmptySearchShowsAll | src/components/MultiSelect.tsx:91-93 | an empty search term lists every candidate in order |
| MultiSelect.CreateRowIff | src/components/MultiSelect.tsx:146-160 | the create row is offered iff the term is not blank and no candidate matches it |
| MultiSelect.UniqueCons | src/components/MultiSelect.tsx:78 | a sequence with a head has distinct values iff the tail does and does not hold the head's value |
| MultiSelect.UniqueSnoc | src/components/MultiSelect.tsx:80 | appending keeps values distinct iff the appended value is not already present |
| MultiSelect.UniqueFilter | src/components/MultiSelect.tsx:79 | filtering never introduces a shared value |
| MultiSelect.ToggleKeepsUnique | src/components/MultiSelect.tsx:76-83 | toggling preserves "no two selected options share a value" |
| MultiSelect.RemoveKeepsUnique | src/components/MultiSelect.tsx:85-89 | removing a chip preserves "no two selected options share a value" |
| MultiSelect.ToggleTwiceRestores | src/components/MultiSelect.tsx:77-81 | toggling an option whose value is not selected twice restores the selection exactly |
| MultiSelect.ToggleThenRemoveRestores | src/components/MultiSelect.tsx:76-89 | removing the chip of an option whose value was not selected, right after toggling it on, restores the selection exactly |
| MultiSelect.ToggleTwiceMovesToEnd | src/components/MultiSelect.tsx:77-81 | toggling an option whose value is selected twice removes the value and then appends the option at the end |
| MultiSelect.SelectAllUniqueIff | src/components/MultiSelect.tsx:41-46 | after an effective select-all the selection has distinct values iff the candidate list does |
| MultiSelect.KeyDownBackspaceKeepsUnique | src/components/MultiSelect.tsx:48-50 | Backspace preserves "no two selected options share a value" |
| MultiSelect.WhitespaceGatesDiffer | src/components/MultiSelect.tsx:42-48 | with a non-empty, white-space-only term, Backspace changes nothing while select-all still selects every candidate |
| MultiSelect.CreateCanDuplicate | src/components/MultiSelect.tsx:63-74 | creating from a term whose lower-cased form is already a selected value leaves two selected options with that value |
| MultiSelect.CreateFromRowKeepsOptionsUnique | src/components/MultiSelect.tsx:160-163 | if every candidate's value is its lower-cased label, creating from the offered create row keeps candidate values distinct |
| Traces.Step | src/components/MultiSelect.tsx:108-168 | each event runs its handler; no event changes the prop's options, and only typing and creating change the candidates |
| Traces.Enabled | src/components/MultiSelect.tsx:112-163 | which handlers the rendered elements offer: a row click only for a listed row of an open panel, the create row only when shown, a chip's remove button only for a selected option, typing and clicks always (typing the text already in the input is an over-approximation: the change event fires only on a new value); `Traces.EnabledMatchesPanel` ties it to the rendered panel |
| Traces.EnabledMatchesPanel | src/components/MultiSelect.tsx:143-168 | a row or the create row can be clicked exactly when the rendered panel shows it |
| Traces.InitCandidatesInv | src/components/MultiSelect.tsx:19 | on mount the candidates are the prop's options |
| Traces.AppendCreatedKeepsCandidates | src/components/MultiSelect.tsx:69 | appending a created option keeps the candidates as "the prop's options, then created options" |
| Traces.CreateKeepsCandidatesInv | src/components/MultiSelect.tsx:63-74 | creating keeps the candidates as "the prop's options, then created options" |
| Traces.SearchKeepsCandidatesInv | src/components/MultiSelect.tsx:53-61 | typing keeps the candidates as "the prop's options, then created options" |
| Traces.StepKeepsCandidatesInv | src/components/MultiSelect.tsx:53-89 | every event keeps the candidates as "the prop's options, then created options" |
| Traces.RunKeepsCandidatesInv | src/components/MultiSelect.tsx:53-89 | every run of events keeps the candidates as "the prop's options, then created options" |
| Traces.StepUniqueSelectedIff | src/components/MultiSelect.tsx:40-89 | from a selection with distinct values, an event keeps values distinct iff it is not an effective select-all over candidates with a shared value, nor a creation whose value is already selected |
| Traces.RunCons | src/components/MultiSelect.tsx:108-168 | running a trace runs its first event and then the rest |
| Traces.ValidCons | src/components/MultiSelect.tsx:108-168 | an offered event followed by a valid trace is a valid trace |
| Traces.RunAppend | src/components/MultiSelect.tsx:108-168 | traces compose: running `a + b` runs `a` then `b`, and validity composes |
| Traces.CreateOfferedWithoutCandidates | src/components/MultiSelect.tsx:160-163 | with no candidates, an open panel and a non-blank term, the create row is offered |
| Traces.TypeNonBlank | src/components/MultiSelect.tsx:53-61 | typing a non-blank text only records it |
| Traces.TypeBlank | src/components/MultiSelect.tsx:57-58 | typing a blank text records it and restores the prop's options |
| Traces.OpenStep | src/components/MultiSelect.tsx:112 | clicking the surface only opens the panel |
| Traces.Chain2 | src/components/MultiSelect.tsx:108-168 | two offered steps make a valid trace ending in the second step's state |
| Traces.Chain3 | src/components/MultiSelect.tsx:108-168 | three offered steps make a valid trace ending in the third step's state |
| Traces.Chain4 | src/components/MultiSelect.tsx:108-168 | four offered steps make a valid trace ending in the fourth step's state |
| Traces.PickAbsentStep | src/components/MultiSelect.tsx:76-83 | clicking a row whose value is not selected appends its option and clears the term |
| Traces.CreateStep | src/components/MultiSelect.tsx:63-74 | clicking the create row on a non-blank term appends the new option to candidates and selection, clears the term and closes the panel |
| Traces.RowOfferedOnEmptySearch | src/components/MultiSelect.tsx:146-155 | with the panel open on an empty search, every candidate's row is offered |
| Traces.CreateOfferedWhenNothingMatches | src/components/MultiSelect.tsx:160-163 | with the panel open on a non-blank term no candidate matches, the create row is offered |
| Traces.DuplicatePartOne | src/components/MultiSelect.tsx:63-74 | from mount with no candidates, opening, typing `t` and creating selects `{t, lower(t)}` and adds it as a candidate |
| Traces.DuplicatePartTwo | src/components/MultiSelect.tsx:57-58 | reopening, typing `t` and clearing the search drops the created candidate while it stays selected |
| Traces.DuplicatePartThree | src/components/MultiSelect.tsx:63-74 | typing `t` again and creating selects `{t, lower(t)}` a second time |
| Traces.DuplicateAfterReset | src/components/MultiSelect.tsx:53-74 | create `t`, clear the search, create `t` again: every event is offered, midway a selected option is no longer a candidate, and at the end the value `lower(t)` is selected twice |
| Traces.PickOnOpenEmpty | src/components/MultiSelect.tsx:112 | opening the panel from mount and clicking a candidate's row selects that candidate |
| Traces.CreateAfterTyping | src/components/MultiSelect.tsx:53-74 | typing a non-blank term no candidate matches and clicking the create row appends the new option to the selection |
| Traces.SelectThenCreateSameValue | src/components/MultiSelect.tsx:63-74 | selecting a candidate, then creating a term no label contains whose lower-case form is that candidate's value, selects that value twice |
| Traces.TypeThenPick | src/components/MultiSelect.tsx:76-83 | typing a term every candidate matches lists them all, and clicking one of them selects it |
| Traces.TypePickClose | src/components/MultiSelect.tsx:29-38 | after typing a term every candidate matches, picking one and clicking outside, exactly that option is selected, the term is empty and the panel is closed |
| Scenarios.HostNotCanonical | src/App.tsx:5-13 | the host's values are not the lower-cased labels ("line-chart" versus "line chart") |
| Scenarios.TextX | src/components/MultiSelect.tsx:64-67 | "X" is not blank and lower-cases to "x" |
| Scenarios.DuplicateX | src/components/MultiSelect.tsx:53-74 | creating "X", clearing the search and creating "X" again is a valid trace that selects `{X, x}` twice |
| Scenarios.LowerDonutChart | src/components/MultiSelect.tsx:67 | "Donut Chart" lower-cases to "donut chart" |
| Scenarios.CreateDonutChart | src/components/MultiSelect.tsx:63-74 | creating from "Donut Chart" appends `{Donut Chart, donut chart}` to candidates and selection, clears the term and closes the panel |
| Scenarios.NoDashNoMatch | src/components/MultiSelect.tsx:91-93 | a label without '-' does not match a term containing '-' |
| Scenarios.LineChartTermMatchesNothing | src/App.tsx:5-13 | no host label matches the term "line-chart" |
| Scenarios.CollisionWithHostValue | src/App.tsx:5-13 | on the host's options, selecting "Line chart" and then creating "line-chart" is a valid trace that selects the value "line-chart" twice |
| Scenarios.ChMatchesBoth | src/components/MultiSelect.tsx:91-93 | "ch" matches both "Line chart" and "Bar chart" |
| Scenarios.PickBarChart | src/components/MultiSelect.tsx:143-168 | on the candidates "Line chart" and "Bar chart": typing "ch" lists both, clicking "Bar chart" selects it alone, and clicking outside leaves the panel closed with that selection |

## Left out

- The `onChange` effect (src/components/MultiSelect.tsx:25-27) is not modelled. It notifies the host after each change of the selection, including on mount. The model has no notion of render or notification timing.
- Registering and removing the document-level click listener (src/components/MultiSelect.tsx:29-38) is DOM plumbing. Only its effect is modelled, as the `ClickOutside` event.
- The model treats clicks on a suggestion row, the create row and a chip's remove button as inside clicks. Whether the document listener also sees a click on an element that the re-render removes depends on React's render timing.
- The `stopPropagation` call on the remove button is not modelled. The model's `ClickChipRemove` event never also opens the panel.
- `highlightText` (src/components/MultiSelect.tsx:95-106) is not modelled. For a non-blank term it builds `` new RegExp(`(${highlight})`, 'gi') `` from the raw, unescaped search text (src/components/MultiSelect.tsx:98). A term that is not a valid pattern, such as `(`, `[`, `*` or `?`, makes that constructor throw a SyntaxError. The call runs while rendering each suggestion row (src/components/MultiSelect.tsx:157), so the render fails whenever the panel is open and at least one row matches such a term. The host application has no error boundary, so React then unmounts the component. The model assumes every render succeeds: `MultiSelect.RenderPanel` lists the matching rows, `Traces.Enabled` offers `ClickRow` on them, and `Traces.TypeThenPick` and `Traces.TypePickClose` pick a row after typing, for such terms too.
- JSX layout, CSS classes and the placeholder text are not modelled.
- Text.Lower: models only the ASCII part of `toLowerCase` (A-Z to a-z). Other characters stay unchanged, so its results differ from ECMAScript on non-ASCII letters. `trim`, by contrast, uses the full ECMAScript white-space set.
- React batches state updates. The model applies a handler's updates in order to one state, which is how the source's functional updaters compose within one event.
- A new `options` prop passed after mount is not modelled: `initialOptions` is fixed at mount. In the source the `options` state keeps its mount value (src/components/MultiSelect.tsx:19), while the blank-search reset reads the prop of the current render (src/components/MultiSelect.tsx:58), so after a prop change the reset would install the new prop.
- src/App.tsx's `console.log` callback is not modelled. Only its option list is used, as concrete data.
