# AnonVote poll tally engine, in Dafny

AnonVote lets someone create a multiple-choice poll and lets anonymous
visitors vote on it, with live results. Apart from React markup, its logic is
an in-memory tally engine spread over four components. This project models
that engine as pure functions over immutable values and proves its
properties:

- **Poll store** (`PollContext.jsx`), module `PollStore`. It holds the
  current poll and a most-recent-first history of at most ten polls.
  `savePoll` recounts a poll and puts it in front. `updatePoll` recounts a
  poll and replaces every history entry that has the same id.
- **Voting page** (`PollDetails.jsx`), module `PollDetails`. It chooses the
  poll to show: a poll passed in the router state wins, and its total is
  recounted. It casts at most one vote per session and shows percentages.
- **Results page** (`Results.jsx`), module `Results`. It chooses the poll
  the same way but does not recount. It ranks the options by votes, highest
  first, with a stable sort, and shows each option's percentage.
- **Creation form** (`CreatePoll.jsx`), module `CreatePoll`. It has four
  option slots, an acceptance test on submit, and a filter that drops blank
  options.

Module `PollModel` holds the shared pieces: the `Poll` and `PollOption`
records, the tally (`options.reduce(... option.votes || 0 ...)`), the
recount, and the rounding rule of `getVotePercentage`. Module `Wrappers`
holds `Option`.

Polls move between the pages as plain JavaScript objects, so any field can
be missing. The model keeps this: `votes`, `options` and `totalVotes` are
`Option`s, and `option.votes || 0` is `VotesOr0`. A `NaN` percentage, which
comes from dividing by a missing total or a missing count, is `None`.
React's state setters become functions from one state value to the next.
`HandleVote` returns both the page's new state and the context's new state.

A few things about the code shape the model:
- `onSubmit` does no trimming of the question and does not count the options
  it keeps. `Submit` models its real test, which looks only at the raw
  question and the raw second slot.
- No component generates poll ids. The only vote operation is `handleVote`,
  which takes an option index, not an id.
- An option object may lack `votes`. The tally and the voting page read it
  as `option.votes || 0`. The results page uses `option.votes` directly.
- `handleVote` has no range check on its index, so an out-of-range index
  faults instead of returning an error.

## Model

| member | source | states |
|---|---|---|
| PollModel.Tally | AnonVote/src/PollContext.jsx:21-22 | The tally is at least every option's count, a missing count reading as 0. It is 0 exactly when every option counts 0, so an empty option list tallies to 0. |
| PollModel.TallyAppend | AnonVote/src/PollContext.jsx:21-22 | The left-fold tally of a concatenation is the sum of the two tallies. |
| PollModel.TallyUpdate | AnonVote/src/PollDetails.jsx:57-59 | Replacing one option changes the tally by exactly the difference between the new and old counts. |
| PollModel.Recount | AnonVote/src/PollContext.jsx:21-27 | The `{...poll, totalVotes}` copy has a total equal to its options' tally, with 0 when `options` is missing. Every other field is copied unchanged. |
| PollModel.RecountFixesConsistent | AnonVote/src/PollContext.jsx:35-41 | Recounting returns the poll unchanged exactly when its stored total already equals its tally. Recounting is idempotent. |
| PollModel.RoundedPercent | AnonVote/src/PollDetails.jsx:72 | `Math.round(votes / total * 100)` is the integer nearest to 100·votes/total, with halves rounded up. |
| PollModel.RoundedPercentAtMost100 | AnonVote/src/Results.jsx:34 | When votes ≤ total, the rounded percentage is in [0, 100]. It is 100 when votes = total and 0 when votes = 0. |
| PollModel.RoundedPercentMonotone | AnonVote/src/Results.jsx:34 | More votes never show a smaller percentage. |
| PollModel.VotePercentage | AnonVote/src/PollDetails.jsx:70-73 | With no poll, or a total of exactly 0, the result is 0. If the total or the count is missing, the result is NaN. Otherwise it is the nearest integer to 100·votes/total. |
| PollModel.PercentageOfOptionInRange | AnonVote/src/PollDetails.jsx:156 | On a poll whose total equals its tally, every option's `getVotePercentage(option.votes \|\| 0)` is defined and in [0, 100]. |
| PollStore.SavePoll | AnonVote/src/PollContext.jsx:19-31 | The current poll becomes the saved poll with a recounted total and all other fields unchanged. The history becomes that poll followed by earlier entries 0..8 shifted back one place. Its length is min(old length + 1, 10). |
| PollStore.UpdatePoll | AnonVote/src/PollContext.jsx:33-49 | The current poll becomes the recounted poll, whether or not the poll is in the history. The history keeps its length and order. Each entry with the same id becomes the new poll, and every other entry is unchanged. |
| PollStore.ReplaceById | AnonVote/src/PollContext.jsx:44-48 | `prev.map(...)` keeps the length. Each entry becomes the new poll if its id matches and stays itself otherwise. |
| PollStore.UpdateUnknownIdKeepsHistory | AnonVote/src/PollContext.jsx:44-48 | Updating a poll whose id is not in the history leaves the history exactly as it was: nothing is inserted and nothing moves to the front. |
| PollStore.UpdateIdempotent | AnonVote/src/PollContext.jsx:33-49 | Updating twice with the same poll gives the same store as updating once. |
| PollStore.RunKeepsInvariants | AnonVote/src/PollContext.jsx:19-49 | Any sequence of saves and updates keeps the history at ten entries or fewer. It also keeps every stored poll's total equal to its tally. |
| PollStore.ReachableStoresAreBounded | AnonVote/src/PollContext.jsx:16-30 | Starting from the provider's initial state, the history never exceeds 10 entries, and every stored total equals its tally. |
| PollStore.SaveAllKeepsLastTen | AnonVote/src/PollContext.jsx:30 | After a run of saves, the history lists the last (up to) ten saved polls, newest first. The poll saved eleventh from last is gone. |
| PollDetails.Load | AnonVote/src/PollDetails.jsx:15-41 | A router-state poll is shown with a recounted total, and loading ends. Otherwise the context poll is shown exactly as it is. With neither, the page state is unchanged. |
| PollDetails.LoadPrefersRouterState | AnonVote/src/PollDetails.jsx:20-34 | When the router state carries a poll, the context poll has no influence on what is shown. |
| PollDetails.CastVote | AnonVote/src/PollDetails.jsx:46-59 | Option i's count becomes its old count (missing as 0) plus 1, with its text kept. Every other option is unchanged. The total becomes the old tally plus 1 and equals the new tally. |
| PollDetails.HandleVote | AnonVote/src/PollDetails.jsx:43-68 | The handler does nothing if the session has already voted or has no poll. Otherwise the page shows the voted poll with `hasVoted` set and `selectedOption = i`, and the context's `updatePoll` receives the same poll. |
| PollDetails.OneVotePerSession | AnonVote/src/PollDetails.jsx:44 | After one vote, any further click leaves both the page and the context unchanged. |
| PollDetails.VoteAddsExactlyOne | AnonVote/src/PollDetails.jsx:49-59 | A recorded vote raises the total by exactly one. The clicked option is the only one whose count changes. |
| PollDetails.ShownPercentage | AnonVote/src/PollDetails.jsx:153-168 | On a poll whose total equals its tally, each option's displayed percentage is a number in [0, 100]. |
| Results.Load | AnonVote/src/Results.jsx:13-30 | A router-state poll is shown as it is, with no recount, before the context poll. With neither, the page state is unchanged. |
| Results.ResultsKeepStaleTotal | AnonVote/src/Results.jsx:18-20 | A router-state poll with total 1 and tally 3 is shown with total 1. The voting page would recount it. |
| Results.PagesAgreeOnlyOnConsistentPolls | AnonVote/src/Results.jsx:18-20 | For the same router-state poll, the results page shows what the voting page shows exactly when the poll's stored total already equals its tally. |
| Results.Insert | AnonVote/src/Results.jsx:108 | Inserting one option adds exactly that option, as a multiset. Every element of the result is the inserted option or came from the list. |
| Results.InsertKeepsDescending | AnonVote/src/Results.jsx:108 | Inserting into a list ordered by votes, highest first, keeps it ordered. |
| Results.Rank | AnonVote/src/Results.jsx:107-108 | The ranking is a permutation of the options and is ordered by votes, never increasing. |
| Results.InsertKeepsTies | AnonVote/src/Results.jsx:108 | The inserted option goes ahead of every option it ties with and keeps the order of the rest. |
| Results.RankIsStable | AnonVote/src/Results.jsx:108 | For every vote count, the options with that count appear in the ranking in their original relative order. |
| Results.RenderBreakdown | AnonVote/src/Results.jsx:100-128 | A ranking is produced exactly when the total is not 0. It lists every option once, in exactly `Rank`'s order: by votes with the highest first, ties in poll order (with `RankIsStable`). Each option has its `getVotePercentage(option.votes)`, which is in [0, 100] when the poll's total equals its tally. |
| Results.RenderRanked | AnonVote/src/Results.jsx:107-122 | The rows carry the ranked options in order. Every ranked option has a count, and every shown percentage of a poll whose total equals its tally is in [0, 100]. |
| CreatePoll.TrimStart | AnonVote/src/CreatePoll.jsx:28 | The result is a suffix of the input, and everything dropped is JavaScript white space. It starts with a non-space character or is empty. |
| CreatePoll.TrimEnd | AnonVote/src/CreatePoll.jsx:28 | The result is a prefix of the input, and everything dropped is JavaScript white space. It ends with a non-space character or is empty. |
| CreatePoll.TrimEmptyIffBlank | AnonVote/src/CreatePoll.jsx:28 | `s.trim() === ""` holds exactly when every character of `s` is white space. |
| CreatePoll.Kept | AnonVote/src/CreatePoll.jsx:28 | The filter callback keeps an entry, untrimmed, exactly when it is not blank. |
| CreatePoll.FilterOptions | AnonVote/src/CreatePoll.jsx:28 | The filtered list is no longer than the input, and no entry of it is blank. |
| CreatePoll.FilterKeepsExactlyNonBlank | AnonVote/src/CreatePoll.jsx:28 | A string is in the filtered list exactly when it is in the input and not blank. |
| CreatePoll.FilterAppend | AnonVote/src/CreatePoll.jsx:28 | Filtering a concatenation gives the concatenation of the filtered parts, so the output preserves input order. |
| CreatePoll.FilterOne | AnonVote/src/CreatePoll.jsx:28 | A single entry comes through unchanged, with no trimming, exactly when it is not blank. |
| CreatePoll.FilterKeepsNonBlank | AnonVote/src/CreatePoll.jsx:28 | A list with no blank entry passes the filter unchanged. |
| CreatePoll.FilterCons | AnonVote/src/CreatePoll.jsx:28 | Filtering `[x] + rest` keeps x exactly when x is not blank, then filters the rest. |
| CreatePoll.FilterFourSlots | AnonVote/src/CreatePoll.jsx:28 | Filtering the four slots keeps each non-blank slot in slot order. |
| CreatePoll.HandleOptionChange | AnonVote/src/CreatePoll.jsx:11-15 | Slot i becomes the new value. The number of slots, every other slot, the question, `isClicked` and the error are unchanged. |
| CreatePoll.SetQuestion | AnonVote/src/CreatePoll.jsx:54 | The question becomes the typed text, and nothing else changes. |
| CreatePoll.ApplyEdits | AnonVote/src/CreatePoll.jsx:11-15 | No sequence of edits changes the number of option slots. |
| CreatePoll.AtMostFourOptions | AnonVote/src/CreatePoll.jsx:6 | From the initial four empty slots, any edits leave exactly four slots, so the filtered list has at most four entries. |
| CreatePoll.Submit | AnonVote/src/CreatePoll.jsx:17-32 | `isClicked` becomes true exactly when the raw question and the raw second slot are both non-empty. On rejection the error message is set and `isClicked` is unchanged. In both cases the draft holds the raw question and the filtered options. |
| CreatePoll.AcceptsSingleOption | AnonVote/src/CreatePoll.jsx:19-20 | As written, a form whose only option is in the second slot is accepted with a one-option draft. |
| CreatePoll.RejectsTwoOptions | AnonVote/src/CreatePoll.jsx:19-24 | As written, a form with two non-blank options in slots 1 and 3 is rejected. |
| CreatePoll.AcceptsBlankQuestion | AnonVote/src/CreatePoll.jsx:19 | As written, a question made only of spaces passes the acceptance test. |
| CreatePoll.SubmitIntended | AnonVote/src/CreatePoll.jsx:19-24 | With the corrected test, `isClicked` becomes true exactly when the question is not blank and the draft has at least two options. |

## Left out

- Clipboard copying and share-link strings (`PollDetails.jsx:75-91`, `Results.jsx:37-53`) are browser I/O.
- The `setTimeout` redirect, `navigate`, `console.log`, `alert`, and React's hook and re-render mechanics are left out. A page with no poll is modelled as staying in its loading state.
- `setCurrentPoll` is exported by the context, but no modelled page calls it.
- `createdAt` and date formatting are treated as an opaque string. `id` is an opaque string compared by equality; the model does not represent a missing id.
- Other falsy values of `votes` (`null`, `NaN`, `""`) are left out. A count is either a natural number or missing.
- Value semantics replace the source's in-place aliasing. `handleVote`'s shallow copy (`PollDetails.jsx:46`) still mutates the shared option objects, and `Results.jsx:108` sorts `pollData.options` in place. One consequence is not modelled. After a vote, `currentPoll` changes and the load effect runs again. With a router-state poll, JavaScript then shows the vote through the shared objects, whereas a pure value reload would show the router poll as it was.
- Counts and totals are exact natural numbers. JavaScript numbers are doubles and stop being exact above 2^53: there `votes += 1` (`PollDetails.jsx:54`) can leave a count unchanged, and the `reduce` tally can round. `PollDetails.CastVote`, `PollDetails.VoteAddsExactlyOne` and `PollModel.Tally` hold only for counts below that bound.
- RoundedPercent: computes `Math.round(votes / total * 100)` in exact arithmetic as `(200·votes + total) div (2·total)`. JavaScript's floating-point division can land just below a .5 boundary and round down where the exact value rounds up.
- PollDetails.HandleVote: requires the poll to have options and the index to be in range. The source has no range check, and an out-of-range index faults at `PollDetails.jsx:49`.
- Results.RenderBreakdown: requires, when the total is not 0, that the poll has options and every option carries a count. A missing count makes the comparator return `NaN`, and an inconsistent comparator gives an implementation-defined order (ECMA-262, section 22.1.3.27).
- CreatePoll.HandleOptionChange: requires the index to be an existing slot. The page only passes 0..3; in JavaScript a larger index would grow the array.
- PollStore.SaveAllKeepsLastTen: requires a history of at most ten entries to start from. `PollStore.ReachableStoresAreBounded` shows every reachable store satisfies this.

## Findings

| source | as written | input that shows it | evidently intended | confidence | as-written member | corrected member |
|---|---|---|---|---|---|---|
| AnonVote/src/CreatePoll.jsx:19-24 | The form accepts when `question != ""` and `options[1] !== ""`, comparing raw strings and ignoring the other slots. | Question "Q?" with slots ["", "B", "", ""] is accepted with one option. Slots ["A", "", "C", ""] are rejected although there are two options. A question of only spaces is accepted. | The rejection text asks for "the question and at least two options": a non-blank question and at least two non-blank options after filtering. | not executed; follows from the code | CreatePoll.Submit, shown by CreatePoll.AcceptsSingleOption, CreatePoll.RejectsTwoOptions and CreatePoll.AcceptsBlankQuestion | CreatePoll.SubmitIntended |

In the source nothing consumes the submitted draft: `onSubmit` only logs it. So `SubmitIntended` stands alone, and `Submit` stays the model of the form as it behaves.
