/** The voting page: where its poll comes from, and the single vote a session
    may cast. The page's React state is the `Session` record. */
module PollDetails {
  import opened Wrappers
  import opened PollModel
  import opened PollStore

  /** The page's state: `pollData`, `hasVoted`, `selectedOption`, `loading`. */
  datatype Session = Session(
    pollData: Option<Poll>,
    hasVoted: bool,
    selectedOption: Option<nat>,
    loading: bool)

  /** A freshly mounted page. */
  const Mounted: Session := Session(None, false, None, true)

  /** The load effect. A poll passed in the router state wins and gets its
      total recounted; otherwise the context's current poll is shown as it
      is; with neither, the page stays loading (and the source schedules a
      redirect, which is not modelled). */
  function Load(s: Session, fromState: Option<Poll>, fromContext: Option<Poll>): (r: Session)
    ensures fromState.Some? ==>
              r.pollData.Some? && Consistent(r.pollData.value)
              && SameExceptTotal(r.pollData.value, fromState.value) && !r.loading
    ensures fromState.None? && fromContext.Some? ==> r.pollData == fromContext && !r.loading
    ensures fromState.None? && fromContext.None? ==> r == s
    ensures r.hasVoted == s.hasVoted && r.selectedOption == s.selectedOption
  {
    if fromState.Some? then s.(pollData := Some(Recount(fromState.value)), loading := false)
    else if fromContext.Some? then s.(pollData := fromContext, loading := false)
    else s
  }

  /** The router-state poll takes precedence: the context poll is not
      consulted at all when one is passed. */
  lemma LoadPrefersRouterState(s: Session, fromState: Poll, c1: Option<Poll>, c2: Option<Poll>)
    ensures Load(s, Some(fromState), c1) == Load(s, Some(fromState), c2)
    ensures Load(s, Some(fromState), c1).pollData == Some(Recount(fromState))
  {
  }

  /** The vote itself: option `i` gets its count (absent reads as 0) plus one,
      and the total is recomputed over all options. */
  function CastVote(p: Poll, i: nat): (q: Poll)
    requires p.options.Some? && i < |p.options.value|
    ensures q.options.Some? && |q.options.value| == |p.options.value|
    ensures q.options.value[i] ==
              PollOption(p.options.value[i].text, Some(VotesOr0(p.options.value[i]) + 1))
    ensures forall k :: 0 <= k < |p.options.value| && k != i ==>
              q.options.value[k] == p.options.value[k]
    ensures q.totalVotes == Some(PollTally(p) + 1)
    ensures Consistent(q)
    ensures q.id == p.id && q.question == p.question && q.createdAt == p.createdAt
  {
    var opts := p.options.value;
    var voted := PollOption(opts[i].text, Some(VotesOr0(opts[i]) + 1));
    var opts' := opts[i := voted];
    TallyUpdate(opts, i, voted);
    p.(options := Some(opts'), totalVotes := Some(Tally(opts')))
  }

  /** What `handleVote(i)` needs to run without a fault: once it gets past its
      guard, the poll must have options and `i` must index one of them. */
  predicate CanVote(s: Session, i: nat) {
    !s.hasVoted && s.pollData.Some? ==>
      s.pollData.value.options.Some? && i < |s.pollData.value.options.value|
  }

  /** `handleVote(i)`, together with the context's `updatePoll` it calls.
      Returns the page's new state and the context's new state. */
  function HandleVote(s: Session, store: Store, i: nat): (r: (Session, Store))
    requires CanVote(s, i)
    ensures s.hasVoted || s.pollData.None? ==> r == (s, store)
    ensures !s.hasVoted && s.pollData.Some? ==>
              && r.0.hasVoted && r.0.selectedOption == Some(i)
              && r.0.pollData == Some(CastVote(s.pollData.value, i))
              && r.0.loading == s.loading
              && r.1 == UpdatePoll(store, CastVote(s.pollData.value, i))
              && r.1.current == r.0.pollData
  {
    if s.hasVoted || s.pollData.None? then (s, store)
    else
      var voted := CastVote(s.pollData.value, i);
      RecountFixesConsistent(voted);
      (s.(pollData := Some(voted), selectedOption := Some(i), hasVoted := true),
       UpdatePoll(store, voted))
  }

  /** At most one vote per session: once a vote is in, every further click
      leaves both the page and the context as they are. */
  lemma OneVotePerSession(s: Session, store: Store, i: nat, j: nat)
    requires CanVote(s, i)
    ensures var (s1, st1) := HandleVote(s, store, i);
            CanVote(s1, j) && HandleVote(s1, st1, j) == (s1, st1)
  {
  }

  /** A recorded vote raises the shown total by exactly one, and the option
      clicked is the only one whose count changes. */
  lemma VoteAddsExactlyOne(s: Session, store: Store, i: nat)
    requires !s.hasVoted && s.pollData.Some? && CanVote(s, i)
    ensures var after := HandleVote(s, store, i).0.pollData.value;
            && after.totalVotes == Some(PollTally(s.pollData.value) + 1)
            && PollTally(after) == PollTally(s.pollData.value) + 1
            && forall k :: 0 <= k < |after.options.value| ==>
                 (VotesOr0(after.options.value[k]) != VotesOr0(s.pollData.value.options.value[k])
                  <==> k == i)
  {
  }

  /** The percentage shown next to option `k`:
      `getVotePercentage(option.votes || 0)`. */
  function ShownPercentage(s: Session, k: nat): (r: Option<nat>)
    requires s.pollData.Some? && s.pollData.value.options.Some?
    requires k < |s.pollData.value.options.value|
    ensures Consistent(s.pollData.value) ==> r.Some? && r.value <= 100
  {
    PercentageOfOptionInRange(s.pollData.value, k);
    VotePercentage(s.pollData, Some(VotesOr0(s.pollData.value.options.value[k])))
  }
}
