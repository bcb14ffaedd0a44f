# Job-search filter: a Dafny model

This project models the search logic of a small job-listing browser. The
browser loads job postings and shows them as cards. The user narrows the list
by typing into a search box and by clicking tag buttons, one per language or
tool found in the postings.

The model covers four pieces:

- **Tag extractor** (`getUniqueTags`). It collects every distinct language and
  tool string across the loaded jobs, in first-occurrence order.
- **Search slice** (`SearchState`, `initialState`, `setSearchQuery`, `addTag`,
  `removeTag`). The store's two-field state and its reducers, written as pure
  `SearchState -> SearchState` functions.
- **Query filter** (`filterJobs`). It builds one lower-cased, space-joined
  string per job from company, position, location, languages and tools. It
  keeps, in order, the jobs whose string contains the query as a contiguous
  substring.
- **Controller** (`handleSearch`, `handleTagClick`, `handleInputChange`).
  `handleSearch` builds the combined query `${query} ${tags.join(' ')}`,
  lower-cases it and filters the jobs. Each handler is modelled as a
  transition from one `View` to the next. A `View` is the store state plus
  the jobs last handed to the display.

Files, one module each:

- `seqs.dfy` (`Seqs`): the stable filter behind `Array.prototype.filter`,
  first-occurrence deduplication, subsequences and duplicate-freedom.
- `strings.dfy` (`Strings`): ASCII lower-casing, substring search
  (`includes`) and `join`.
- `job_service.dfy` (`JobService`): the `Job` record.
- `search_slice.dfy` (`SearchSlice`): the tag extractor and the reducers.
- `search.dfy` (`Search`): the filter, the combined query and the handlers.
- `example_text.dfy` (`ExampleText`): facts about the example job's
  searchable text "acme engineer nyc go docker", on strings alone.
- `scenarios.dfy` (`Scenarios`): worked examples on the job
  Acme / Engineer / NYC / [Go] / [Docker]. Each is stated for any job with
  that searchable text and any spelling of the typed words that lower-cases
  to the ones used.

Points worth knowing about the code:

- `getUniqueTags` returns a sequence in first-occurrence order, because
  `Array.from` reads a `Set` back in insertion order.
- `addTag` appends without a duplicate check. `HandleTagClick` only adds a tag
  that is absent, so it keeps a duplicate-free list duplicate-free.
- The combined query always contains the space between the text and the tags.
  With no tags selected it ends in a space. A word that occurs only at the very
  end of a job's text, such as its last tool, is then not found by typing it
  (`TrailingSpaceMissesLastWord`, `Scenarios.TypingLastWordFindsNothing`).
- Clicking a selected tag twice moves it to the end of the list
  (`TogglePresentTwice`). The list is then different unless the tag was
  already last.
- The dashboard puts every loaded job on display whatever the store holds
  (`LoadJobs`). Text typed before the load completes stays in the store, and
  the jobs on display then need not be what the search selects
  (`Scenarios.QueryTypedBeforeLoadIsStale`).

## Model

| member | source | states |
|---|---|---|
| SearchSlice.AddEach | src/components/redux/searchSlice.ts:10-11 | inserting each value into an insertion-ordered set that holds the first occurrences of `seen` leaves it holding the first occurrences of `seen + xs` |
| SearchSlice.GetUniqueTags | src/components/redux/searchSlice.ts:6-15 | the result is the first occurrences of all tags, job by job, each job's languages before its tools; it has no duplicates; a string is in it iff some job lists it as a language or tool, so no jobs give no tags |
| SearchSlice.AllTags | src/components/redux/searchSlice.ts:9-12 | the flat tag list holds exactly the strings some job lists as a language or tool |
| SearchSlice.InitialState | src/components/redux/searchSlice.ts:22-25 | the store starts with an empty query and no tags |
| SearchSlice.SetSearchQuery | src/components/redux/searchSlice.ts:31-33 | the payload becomes the query and the tags are unchanged |
| SearchSlice.SetSearchQueryLastWins | src/components/redux/searchSlice.ts:31-33 | of two successive query updates only the second has an effect |
| SearchSlice.AddTag | src/components/redux/searchSlice.ts:34-36 | the tag is appended after the old tags, even when already present; the query is unchanged |
| SearchSlice.Without | src/components/redux/searchSlice.ts:38 | no occurrence of the tag is left, the other tags keep their order and their number of occurrences, nothing changes when the tag is absent, and a duplicate-free list stays duplicate-free |
| SearchSlice.RemoveTag | src/components/redux/searchSlice.ts:37-39 | every occurrence of the tag is removed, the rest keep their order and counts, the query is unchanged, and the state is unchanged when the tag is absent |
| SearchSlice.RemoveTagIdempotent | src/components/redux/searchSlice.ts:37-39 | removing a tag twice equals removing it once |
| SearchSlice.RemoveAfterAdd | src/components/redux/searchSlice.ts:34-39 | removing a tag right after adding it equals removing it from the old state |
| SearchSlice.QueryAndTagsIndependent | src/components/redux/searchSlice.ts:31-39 | updating the query commutes with adding and with removing a tag |
| Strings.Includes | src/components/Search.tsx:35 | the executable search answers true iff the needle occurs as a contiguous substring; the empty needle always occurs |
| Strings.LowerIdempotent | src/components/Search.tsx:26 | a lower-cased string has no upper-case ASCII letter left and lower-casing it again changes nothing |
| Strings.Lower | src/components/Search.tsx:26 | the length is kept; at each position an ASCII capital becomes its small letter and every other character is kept |
| Strings.JoinEnds | src/components/Search.tsx:34 | joining no parts gives ""; otherwise the result starts with the first part and ends with the last |
| Strings.JoinContainsPart | src/components/Search.tsx:34 | each joined part occurs in the joined string |
| Search.FilterJobs | src/components/Search.tsx:31-37 | the result is a subsequence of the jobs in their original order; a job is in it iff it is in the input and its text contains the query; each matching job is kept as often as it occurs and no other job is kept |
| Search.FilterJobsSingle | src/components/Search.tsx:32-35 | a single job is kept iff its text contains the query |
| Search.FilterJobsIdempotent | src/components/Search.tsx:31-37 | filtering the result again with the same query changes nothing |
| Search.FilterJobsEdgeCases | src/components/Search.tsx:32-35 | the empty query keeps every job and no jobs give no jobs |
| Search.FilterJobsAppend | src/components/Search.tsx:32-36 | filtering two concatenated job lists equals filtering each and concatenating |
| Search.JobText | src/components/Search.tsx:33-34 | a job's text has no ASCII capital letter and contains each of company, position, location, languages and tools, lower-cased |
| Search.JobTextSpaces | src/components/Search.tsx:34 | a job's text has a space right after the company and another right after the position |
| Search.FullQuery | src/components/Search.tsx:26 | the combined query is the lower-cased text, then a space, then the lower-cased space-joined tags |
| Search.FullQueryExtends | src/components/Search.tsx:26 | selecting one more tag appends it, lower-cased and preceded by a space when other tags are selected, to the end of the combined query |
| Search.HandleSearch | src/components/Search.tsx:25-29 | the jobs handed to the display are a subsequence of the jobs, and a job is among them iff its text contains lower(text) + " " + lower(tags joined by spaces); each matching job is kept as often as it occurs |
| Search.EmptySearchShowsAll | src/components/Search.tsx:25-36 | an empty text box and no tags give the query " ", which keeps every job |
| Search.HandleSearchKeptJobs | src/components/Search.tsx:25-36 | every job kept contains the lower-cased text followed by a space, the lower-cased tags joined in selection order, and each tag lower-cased |
| Search.SelectingTagNarrows | src/components/Search.tsx:26-27 | appending a tag extends the combined query at its end, so every job shown afterwards was shown before |
| Search.HandleSearchCaseInsensitive | src/components/Search.tsx:26-27 | two texts with the same lower-casing give the same combined query and the same jobs |
| Search.TrailingSpaceMissesLastWord | src/components/Search.tsx:26 | with no tags, a text occurring in a job only at the end of its text is kept by the filter alone but dropped by the search |
| Search.LoadJobs | src/routes/Dashboard.tsx:29-31 | loading keeps the store's state and displays every loaded job; that display is what the search would show iff every loaded job matches the stored text and tags |
| Search.InitialViewConsistent | src/routes/Dashboard.tsx:29-31 | loading from the initial state displays what the search would show |
| Search.HandleTagClick | src/components/Search.tsx:39-47 | the tag's presence flips: an absent tag is appended last, and a present tag has every occurrence removed while the other tags keep their order and counts; other tags' presence and the query are unchanged, a duplicate-free list stays duplicate-free, and the jobs shown are the search result for the new stored state |
| Search.HandleInputChange | src/components/Search.tsx:49-52 | the new text becomes the query, the tags are unchanged, and the jobs shown are the search result for the new stored state |
| Search.InputChangeLastWins | src/components/Search.tsx:49-52 | of two successive edits of the text box only the second counts, for the stored state and for the jobs shown |
| Search.ToggleAbsentTwice | src/components/Search.tsx:39-47 | clicking an unselected tag twice restores the state and the jobs the state selects |
| Search.TogglePresentTwice | src/components/Search.tsx:39-47 | clicking a selected tag twice moves it to the end; from a duplicate-free list the same tags remain, and the list differs whenever the tag was not last |
| Strings.LowerJoin | src/components/Search.tsx:34 | lower-casing the joined fields equals joining the lower-cased fields with the lower-cased separator |
| Scenarios.AcmeText | src/components/Search.tsx:34 | the example job's searchable text is "acme engineer nyc go docker" |
| Scenarios.FilterAcme | src/components/Search.tsx:31-36 | the filter alone keeps the example job for "docker" and drops it for "java" |
| Scenarios.TypingLastWordFindsNothing | src/components/Search.tsx:26-27 | typing "docker", in any case, with no tags drops the example job, though the filter alone keeps it for "docker" |
| Scenarios.TypingIgnoresCase | src/components/Search.tsx:26-27 | typing any spelling of "go" with no tags keeps the example job |
| Scenarios.TagsInTextOrderMatch | src/components/Search.tsx:26-27 | selecting Go then Docker keeps the example job |
| Scenarios.TagsOutOfOrderMiss | src/components/Search.tsx:26-27 | selecting Docker then Go drops the example job |
| Scenarios.QueryTypedBeforeLoadIsStale | src/routes/Dashboard.tsx:29-31 | with "java" typed before the load completes, the example job is displayed although the search for "java " drops it |
| Scenarios.ToggleGoTwice | src/components/Search.tsx:39-47 | from the initial state, clicking Go shows the example job and clicking it again restores the initial view |

## Left out

- Unicode `toLowerCase`: lower-casing is modelled for the ASCII letters A-Z only. Every other character is kept as is.
- The job loader (`fetchJobs`), its `try`/`catch` logging and the React state setters in src/routes/Dashboard.tsx: these are I/O. What the load does to the display is modelled (`LoadJobs`).
- The `Job` type's own module is not part of this model. `Job` is declared with the fields the filter reads, and `id` is an unbounded integer.
- Redux Toolkit (`createSlice`, `dispatch`, `useSelector`) and React hooks (`useEffect`, `useState`): the reducers are pure functions, and a handler returns the next state together with the jobs it hands to the display.
- The `useEffect` that recomputes the tags when the job list changes: `GetUniqueTags` takes the full job list, never the filtered one.
- Rendering: JSX, styling, the submit button and the `key` props.
