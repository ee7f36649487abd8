# Call log dashboard: store, statistics and new-call form

This project models the logic of a small call-log dashboard in verified Dafny.
The dashboard is a single-page web application. It is organised around one call store.

The store state holds two things:
- `calls`, the recorded or planned phone calls, newest first;
- `filters`, the current filter settings.

The state changes only through a reducer with six kinds of action:
- `add-call` puts a new call in front;
- `update-status`, `update-notes` and `reschedule` edit the calls whose id matches;
- `set-filters` merges a partial filter record;
- `seed` replaces the whole state.

An empty store is filled with three example calls. Two views are derived from the state:
- the filtered calls;
- the sorted, de-duplicated list of the tags in use.

The dashboard shows figures computed from the calls:
- the total, and the count per status;
- the overdue and upcoming follow-ups;
- the total and average duration;
- the fast follow-ups: those whose hour difference from their call, truncated to whole hours, is at most 24. These are the follow-ups less than 25 hours after the call, plus every follow-up planned before it.

The new-call form turns its text fields into a call draft. On submit it resets itself.

The model is split into these files:
- `types.dfy`, module `CallTypes`: the records (`CallLog`, `CallDraft`, `CallFilters`, `FilterPatch`, `State`) and the id helpers.
- `text.dfy`, module `Text`: the string operations the source relies on. These are ASCII lower-casing, substring search, split and join, white-space trimming, and lexicographic order with a sort.
- `call_store.dfy`, module `CallStore`:
  - the reducer, built from one function per action;
  - the default state and the seeding of an empty store;
  - the filter predicate;
  - `ActiveTags`, a method with loops, since the source fills a set in place.
- `stats.dfy`, module `Stats`: the dashboard figures. `ComputeDashboard` is a method whose loop keeps the per-status map and the duration total, as the source's `forEach` does. The other figures are counting functions.
- `call_form.dfy`, module `Form`:
  - the payload function and the tag parser;
  - the `CallForm` class, whose `form` field is reset by `HandleSubmit`.

Conventions:
- Timestamps are integers: milliseconds since the epoch.
- The generated id (`freshId`) and the clock reading (`now`) are parameters. Freshness of the id is a precondition of the uniqueness lemmas only. The reducer itself, like the source, accepts any id.
- Parsing the form's date-time and number fields is outside the model. It enters `Payload` as the functions `toInstant` and `toMinutes`.

## Model

| member | source | states |
|---|---|---|
| CallTypes.Ids | hooks/useCallStore.ts:47-48 | the id list has one entry per call, the i-th call's id at position i |
| CallStore.NewCall | hooks/useCallStore.ts:37-41 | the new call carries the given id and creation time, and its other fields are exactly the payload's |
| CallStore.NewCallOfDraft | hooks/useCallStore.ts:37-41 | a call is recovered from its payload, id and creation time: nothing is lost when the call is assembled |
| CallStore.MapMatching | hooks/useCallStore.ts:47-49 | the map keeps the length; position i is the edited call when its id matches and the old call otherwise |
| CallStore.KeepsIdentityIds | hooks/useCallStore.ts:47-48 | calls that keep their ids position by position have the same id list |
| CallStore.MapMatchingUnknown | hooks/useCallStore.ts:47-49 | mapping with an id no call has returns the calls unchanged |
| CallStore.ReduceAddCall | hooks/useCallStore.ts:36-42 | `add-call`: the length grows by one; position 0 has the fresh id, the time `now` and the payload's fields; the old calls follow unchanged; the filters are untouched |
| CallStore.ReduceUpdateStatus | hooks/useCallStore.ts:44-50 | `update-status`: every call with the id gets exactly the new status; the other calls and the filters are unchanged; every call keeps its id and creation time; an unknown id returns the input state |
| CallStore.ReduceUpdateNotes | hooks/useCallStore.ts:51-63 | `update-notes`: a matching call always gets the new notes; it gets the new follow-up action only when one is supplied and keeps the old one otherwise; no other field changes, so every call keeps its id and creation time; the other calls, the filters, and the whole state for an unknown id are unchanged |
| CallStore.ReduceReschedule | hooks/useCallStore.ts:64-72 | `reschedule`: a matching call's follow-up time becomes exactly the supplied one, or absent when none is supplied; nothing else changes, so every call keeps its id and creation time; an unknown id returns the input state |
| CallStore.MergeFilters | hooks/useCallStore.ts:76 | each filter field takes the patch's value when supplied and keeps the current value otherwise |
| CallStore.MergeFiltersLaws | hooks/useCallStore.ts:73-77 | an empty patch changes nothing; a full patch replaces every field; re-applying a patch changes nothing more; two merges in a row equal one merge of the combined patch |
| CallStore.ReduceSetFilters | hooks/useCallStore.ts:73-77 | `set-filters`: the calls are unchanged and the filters are the merge of the old filters with the patch |
| CallStore.Reducer | hooks/useCallStore.ts:32-81 | the six actions: `seed` returns its payload; `add-call` prepends the new call; only `set-filters` and `seed` touch the filters; `set-filters` leaves the calls alone; the three updates keep every id and creation time in place |
| CallStore.ReducerKeepsIdsUnique | hooks/useCallStore.ts:36-72 | when the calls have unique ids, the generated id is fresh, and a seeded state has unique ids, every action leaves the ids unique |
| CallStore.AddAll | hooks/useCallStore.ts:36-42 | a run of `add-call`s, each with its own id and clock reading, grows the collection by the number of drafts |
| CallStore.Reverse | hooks/useCallStore.ts:42 | the reversed id list has the same length, with element i taken from the other end |
| CallStore.AddCallIds | hooks/useCallStore.ts:42 | after `add-call` the ids are the fresh id followed by the old ids |
| CallStore.AddAllIds | hooks/useCallStore.ts:42 | after a run of `add-call`s the ids are the generated ones in reverse order (newest first), followed by the old ones |
| CallStore.AddAllNewestFirst | hooks/useCallStore.ts:37-42 | after a run of `add-call`s the call added last stands at position 0, built from the last draft, id and clock reading |
| CallStore.AddCallNewestFirst | hooks/useCallStore.ts:37-42 | a call created no earlier than every stored call keeps the creation times non-increasing from the front, and no stored call is newer than it |
| CallStore.AddAllKeepsNewestFirst | hooks/useCallStore.ts:37-42 | when the clock never goes back and no stored call is newer than any reading, a run of `add-call`s keeps the creation times non-increasing from the front |
| CallStore.UniqueIdsDistinct | hooks/useCallStore.ts:37-38 | calls have unique ids exactly when their id list is duplicate-free |
| CallStore.AddAllKeepsIdsUnique | hooks/useCallStore.ts:37-42 | a run of `add-call`s with distinct ids, none already in use, keeps the ids unique |
| CallStore.ExampleCalls | hooks/useCallStore.ts:87-129 | the three example calls: their ids are the three generated ones in order; each was created before `now`; each follow-up lies after `now` |
| CallStore.SeedState | hooks/useCallStore.ts:83-131 | a store with calls is returned unchanged; an empty store gets exactly three calls with the generated ids, and its filters are kept |
| CallStore.SeedStateUniqueIds | hooks/useCallStore.ts:83-131 | seeding keeps ids unique when the three generated ids differ |
| CallStore.SearchText | hooks/useCallStore.ts:152 | defines the searched text: the contact name, the phone number, the notes and the tags joined by spaces, separated by single spaces |
| CallStore.Matches | hooks/useCallStore.ts:148-153 | defines passing the filters: each of status, direction and priority is "all" or equal to the call's; the tag is "all" or one of the call's tags; and the lower-cased search occurs in the lower-cased search text |
| CallStore.KeepMatching | hooks/useCallStore.ts:147-154 | the filter result is an order-preserving subsequence of the calls; a call that passes every filter occurs in it as often as in the input, any other call not at all; when every call passes it is the whole collection |
| CallStore.SubsequenceSkip | hooks/useCallStore.ts:147 | a call the filter drops does not break the order-preserving subsequence |
| CallStore.FilteredCalls | hooks/useCallStore.ts:145-155 | the filtered view is an order-preserving subsequence of the calls; every call that passes the state's filters keeps all of its occurrences, and every other call is dropped |
| CallStore.DefaultFiltersKeepAll | hooks/useCallStore.ts:21-30 | with the default filters (every field "all", empty search) the filtered view is the whole collection |
| CallStore.SearchIgnoresCase | hooks/useCallStore.ts:152-153 | lower-casing the search text first does not change which calls pass |
| CallStore.TagUnion | hooks/useCallStore.ts:158-159 | defines the set of tags in use: every tag of every call |
| CallStore.ActiveTags | hooks/useCallStore.ts:157-161 | the active tags are strictly ascending, hence duplicate-free, and a string is among them exactly when some call carries it as a tag |
| CallStore.AddFilterCompleteScenario | hooks/useCallStore.ts:32-81 | from the empty store: after adding a new call, a "completed" filter shows nothing; after marking that call completed, the view shows it |
| Text.LowerChar | hooks/useCallStore.ts:152-153 | upper-case ASCII letters map to their lower-case letters; every other character is kept |
| Text.Lower | hooks/useCallStore.ts:152-153 | lower-casing keeps the length and maps each character on its own |
| Text.LowerIdempotent | hooks/useCallStore.ts:152-153 | lower-casing twice is lower-casing once |
| Text.Contains | hooks/useCallStore.ts:153 | defines substring search (`includes`): the needle is a prefix of the text or of one of its suffixes |
| Text.ContainsOffset | hooks/useCallStore.ts:153 | when the search succeeds, it names an offset where the needle occurs |
| Text.OccursContains | hooks/useCallStore.ts:153 | a needle occurring at some offset is found by the search |
| Text.ContainsIffOccurs | hooks/useCallStore.ts:153 | substring search succeeds exactly when the needle occurs at some offset |
| Text.Join | hooks/useCallStore.ts:152 | defines the array `join`: the pieces in order, with one separator between neighbours and none at either end |
| Text.Split | components/CallForm.tsx:47-48 | splitting yields at least one piece; no piece holds the separator; joining the pieces with the separator gives the input back |
| Text.SplitPrefix | components/CallForm.tsx:47-48 | a separator-free prefix joins the first piece of what follows |
| Text.SplitJoin | components/CallForm.tsx:47-48 | separator-free pieces, joined with the separator and split again, come back unchanged |
| Text.IsWhitespace | components/CallForm.tsx:49 | defines the characters `trim` removes: tab, line feed, vertical tab, form feed, carriage return, space, no-break space, the Unicode space separators, the line and paragraph separators and the byte-order mark |
| Text.SplitCons | components/CallForm.tsx:47-48 | a leading separator starts a new empty piece; any other leading character joins the first piece |
| Text.PiecesAppend | components/CallForm.tsx:47-48 | prepending a piece, or extending the first piece, commutes with appending further pieces to the end |
| Text.SplitAppend | components/CallForm.tsx:47-48 | splitting two texts joined by one separator gives the pieces of the first followed by the pieces of the second |
| Text.SplitNoSeparator | components/CallForm.tsx:47-48 | a text without the separator splits into itself alone |
| Text.SkipLeading | components/CallForm.tsx:49 | the scan from the front stops at the first non-white-space character, or at the end; everything skipped is white space |
| Text.SkipTrailing | components/CallForm.tsx:49 | the scan from the back stops after the last non-white-space character, or at the lower bound; everything skipped is white space |
| Text.MiddleFacts | components/CallForm.tsx:49 | the part cut off at either end is blank; the input is blank exactly when the front scan reaches its end |
| Text.Trim | components/CallForm.tsx:49 | the result is a contiguous middle part of the input with a blank prefix before it and a blank suffix after it; it is empty exactly when the input is all white space; otherwise it neither starts nor ends with white space |
| Text.Less | hooks/useCallStore.ts:160 | defines the sort order: lexicographic by character code, a proper prefix before its extensions |
| Text.LessIrreflexive | hooks/useCallStore.ts:160 | no string sorts before itself |
| Text.LessTrichotomy | hooks/useCallStore.ts:160 | of two different strings exactly one sorts first |
| Text.LessTransitive | hooks/useCallStore.ts:160 | the sort order is transitive |
| Text.Insert | hooks/useCallStore.ts:160 | inserting into a sorted list keeps it sorted and adds exactly the one element |
| Text.InsertFrontSorted | hooks/useCallStore.ts:160 | an element at most the head of a sorted list can go in front, and the list stays sorted |
| Text.InsertBehindSorted | hooks/useCallStore.ts:160 | an element greater than the head, inserted into the sorted rest, leaves the head in front of a sorted list |
| Text.SortStrings | hooks/useCallStore.ts:160 | sorting yields a sorted permutation of its input |
| Text.InsertDistinct | hooks/useCallStore.ts:160 | inserting a new element into a duplicate-free list keeps it duplicate-free |
| Text.SortDistinct | hooks/useCallStore.ts:160 | sorting a duplicate-free list keeps it duplicate-free |
| Text.SortStrictlySorted | hooks/useCallStore.ts:160 | sorting a duplicate-free list makes it strictly ascending |
| Text.SortedFirstLeast | hooks/useCallStore.ts:160 | the first element of a strictly ascending list is at most every element |
| Text.StrictlySortedUnique | hooks/useCallStore.ts:160 | two strictly ascending lists with the same elements are equal, so the active tags are determined by the tag set alone |
| Stats.CountStatus | components/StatsOverview.tsx:18-23 | a status count never exceeds the number of calls |
| Stats.CountScheduled | components/StatsOverview.tsx:24-29 | the number of scheduled calls never exceeds the number of calls |
| Stats.IsOverdue | components/StatsOverview.tsx:25 | defines an overdue call: it has a follow-up time and the clock is strictly past it |
| Stats.IsUpcoming | components/StatsOverview.tsx:28 | defines an upcoming call: it has a follow-up time and the clock is not past it |
| Stats.CountOverdue | components/StatsOverview.tsx:24-26 | the overdue count never exceeds the number of calls |
| Stats.CountUpcoming | components/StatsOverview.tsx:27-29 | the upcoming count never exceeds the number of calls |
| Stats.HoursBetween | components/StatsOverview.tsx:42 | the whole-hour difference is the millisecond gap divided by an hour, truncated toward zero, for positive and negative gaps |
| Stats.IsFastFollowUp | components/StatsOverview.tsx:41-42 | defines a fast follow-up: the call has a follow-up time, and the hour difference from its creation to that time, truncated toward zero, is at most 24 |
| Stats.CountFast | components/StatsOverview.tsx:40-43 | the fast follow-up count never exceeds the number of calls |
| Stats.DurationOf | components/StatsOverview.tsx:34-35 | defines what a call adds to the duration total: its minutes when present and non-zero, else nothing |
| Stats.TotalDuration | components/StatsOverview.tsx:30-37 | defines the duration total: the sum of what each call adds |
| Stats.Average | components/StatsOverview.tsx:39 | the average is 0 when there are no calls or no minutes; otherwise it is the total divided by the number of all calls, rounded half up |
| Stats.ComputeDashboard | components/StatsOverview.tsx:17-43 | the dashboard: the total is the number of calls; each status has the count of calls with that status, and the four counts sum to the total; overdue and upcoming are their counts and together make up the scheduled calls; the duration total sums the non-zero durations; the average is the rounded mean over all calls; the fast follow-ups are counted and never outnumber the scheduled calls |
| Stats.StatusCountsSum | components/StatsOverview.tsx:17-37 | every call has exactly one status, so the four status counts add up to the number of calls |
| Stats.OverdueUpcomingSplit | components/StatsOverview.tsx:24-29 | the overdue and upcoming counts add up to the number of scheduled calls |
| Stats.OverdueUpcomingDisjoint | components/StatsOverview.tsx:24-29 | no call is both overdue and upcoming; a call is one of the two exactly when it has a follow-up time |
| Stats.FastAtMostScheduled | components/StatsOverview.tsx:40-43 | the fast follow-ups never outnumber the scheduled calls |
| Stats.FastFollowUpWindow | components/StatsOverview.tsx:40-43 | a call is a fast follow-up exactly when it has a follow-up time less than 25 hours after its creation (this includes every follow-up before the creation), because the hour difference truncates |
| Stats.TotalDurationZero | components/StatsOverview.tsx:30-37 | the duration total is zero exactly when no call has a non-zero duration |
| Stats.ExampleCallsFigures | components/StatsOverview.tsx:17-43 | for the example calls read at seeding time: one call each in progress, scheduled and completed, none new; no follow-up overdue and two upcoming; 34 minutes in total, 11 on average; no fast follow-ups |
| Form.MapStrings | components/CallForm.tsx:49 | mapping keeps the number of pieces and applies the function to piece i at position i |
| Form.TrimEach | components/CallForm.tsx:49 | trimming each piece keeps the number of pieces and trims piece i into position i |
| Form.DropEmpty | components/CallForm.tsx:50 | a string is in the result exactly when it is a non-empty piece of the input; with no empty piece the list is unchanged |
| Form.DropEmptyAppend | components/CallForm.tsx:50 | dropping works piece by piece: dropping from two lists joined equals the two dropped lists joined, so order and repetitions are kept |
| Form.DropEmptySingle | components/CallForm.tsx:50 | a single piece disappears when it is empty and stays otherwise |
| Form.MapStringsAppend | components/CallForm.tsx:49 | mapping two lists joined equals the two mapped lists joined |
| Form.ParseTagsComma | components/CallForm.tsx:47-50 | the tags of two texts joined by a comma are the tags of the first followed by the tags of the second |
| Form.ParseTagsPiece | components/CallForm.tsx:47-50 | a comma-free text gives no tag when blank, and otherwise exactly one tag, its trimmed form |
| Form.ParseTags | components/CallForm.tsx:47-50 | every parsed tag is non-empty, neither starts nor ends with white space, and holds no comma |
| Form.TrimmedPieceWellFormed | components/CallForm.tsx:47-50 | a comma-free piece that is not blank trims to a well-formed tag |
| Form.SplitAllBlank | components/CallForm.tsx:47-48 | every comma-separated piece is blank exactly when the input holds only commas and white space |
| Form.CommaPieceBlank | components/CallForm.tsx:47-48 | a leading comma adds an empty piece, which leaves "all pieces blank" as it was |
| Form.HeadPieceBlank | components/CallForm.tsx:47-48 | any other leading character joins the first piece, and all pieces stay blank only when that character is white space |
| Form.DropEmptyTrimmedBlank | components/CallForm.tsx:49-50 | nothing is left after trimming and dropping empty pieces exactly when every piece is blank |
| Form.ParseTagsEmpty | components/CallForm.tsx:47-50 | no tags come out exactly when the input holds only commas and white space |
| Form.TrimWellFormed | components/CallForm.tsx:49 | trimming a well-formed tag leaves it unchanged |
| Form.TrimEachWellFormed | components/CallForm.tsx:49 | trimming a list of well-formed tags leaves them unchanged |
| Form.ParseJoinedTags | components/CallForm.tsx:47-50 | well-formed tags written out with commas between them parse back to the same tags, in the same order |
| Form.Payload | components/CallForm.tsx:40-54 | the contact name is the typed one, or "Unknown caller" when empty; empty follow-up time, duration and follow-up action become absent, otherwise they carry the parsed or typed value; the tags are the parsed tag field; they are well-formed, and empty exactly when the tag field is only commas and white space; phone, direction, status, notes and priority are copied verbatim |
| Form.SubmittedCallWellFormed | components/CallForm.tsx:40-54 | a submitted form, added to the store, yields a call with a non-empty name and well-formed tags |
| Form.CallForm.constructor | components/CallForm.tsx:36 | the form starts with the initial field values |
| Form.CallForm.HandleSubmit | components/CallForm.tsx:38-56 | submitting returns the payload built from the fields as they were and puts every field back to its initial value |

## Left out

- React machinery is not modelled: `useReducer`, `useMemo`, `useState` and the two `useEffect` hooks (hooks/useCallStore.ts:134-143). Here the reducer is a plain function, and the load/save effects are framework lifecycle.
- Persistence is not modelled. `loadState` and `saveState` live in `lib/storage`, and lib/storage is not part of this model. The snapshot round-trip and the storage-version fallback are therefore not stated.
- `nanoid()` and `new Date()` / `Date.now()` are non-deterministic. They enter as the parameters `freshId`, `now` and the three seed ids.
  - The seed times are offsets from a single `now`. The source reads the clock once per field, a few microseconds apart.
  - The statistics likewise compare against one `now`, where the source builds a new `Date` at every comparison. `OverdueUpcomingSplit` and `OverdueUpcomingDisjoint` rely on that single reading. In the source, the overdue pass reads the clock before the upcoming pass does, so a follow-up that falls between two readings is counted in neither. Overdue plus upcoming can then fall short of the scheduled count at a clock tick.
- The reducer's `default` branch (hooks/useCallStore.ts:78-79) is not modelled. The `Action` datatype has exactly the six kinds, so that branch cannot be reached.
- The creation time and the follow-up time (`scheduledAt`) are integers. The source stores both as ISO strings, and that string form is not modelled.
- Stats.HoursBetween: the date library's `differenceInHours` works on `Date` objects built from those ISO strings. Invalid dates (NaN) are not modelled.
- Text.Lower: only ASCII letters are lower-cased. Unicode case mapping, as JavaScript's `toLowerCase` does it, is not modelled.
- Text.SortStrings: it orders strings by character code. JavaScript's default sort compares UTF-16 code units, so the orders differ only for characters outside the Basic Multilingual Plane.
- Form.Payload: `Number(...)` and `new Date(...).toISOString()` are the parameters `toInstant` and `toMinutes`.
  - A number that does not parse (NaN) is not modelled.
  - A date that does not parse, where `toISOString` throws, is not modelled.
- Durations are natural numbers. A fractional or negative minute count typed into the form is not modelled.
- Stats.Average: `Math.round` on the fractional mean is stated as rounding half up over naturals.
- CallStore.MergeFilters: a patch key that is present but holds `undefined` is not modelled. In JavaScript that key overwrites the field, whereas here a field is either supplied or absent.
- The form's per-field `onChange` handlers are not modelled. They only copy input values into `form`. The model keeps the reset in `HandleSubmit`.
- The following files are not modelled, because they are presentation only:
  - the JSX of the three components;
  - the date-fns `format` and `formatDistanceToNow` display;
  - components/CallCard.tsx, made of prompt and alert dialogs over store calls;
  - components/FilterToolbar.tsx, components/ui/Badge.tsx, app/page.tsx and tailwind.config.ts.
