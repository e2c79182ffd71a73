/** The poll context: the poll currently on view and the most-recent-first
    history of saved polls, with the two operations the pages call. React's
    state setters become pure functions from one store value to the next. */
module PollStore {
  import opened Wrappers
  import opened PollModel

  /** Most entries `savePoll` keeps in the history. */
  const HistoryLimit: nat := 10

  /** `currentPoll` (`null` at start) and `pollHistory`. */
  datatype Store = Store(current: Option<Poll>, history: seq<Poll>)

  /** The smaller of `a` and `b`. */
  function Min(a: int, b: int): int {
    if a <= b then a else b
  }

  /** The provider's initial state. */
  const Initial: Store := Store(None, [])

  /** The history holds at most `HistoryLimit` polls. */
  predicate Bounded(s: Store) {
    |s.history| <= HistoryLimit
  }

  /** Every poll the store holds has a stored total equal to its tally. */
  predicate AllConsistent(s: Store) {
    (s.current.Some? ==> Consistent(s.current.value))
      && forall k :: 0 <= k < |s.history| ==> Consistent(s.history[k])
  }

  /** `savePoll(pollData)`: recount, make current, and put in front of the
      first nine earlier entries. */
  function SavePoll(s: Store, p: Poll): (r: Store)
    ensures r.current.Some? && Consistent(r.current.value)
    ensures SameExceptTotal(r.current.value, p)
    ensures |r.history| == Min(|s.history| + 1, HistoryLimit)
    ensures r.history[0] == r.current.value
    // earlier entries 0..8 move one place back unchanged; a tenth is dropped
    ensures forall k :: 1 <= k < |r.history| ==> r.history[k] == s.history[k - 1]
  {
    var saved := Recount(p);
    Store(Some(saved), [saved] + s.history[..Min(|s.history|, HistoryLimit - 1)])
  }

  /** `updatePoll(updatedPollData)`: recount and make current (whether or not
      the poll is in the history), then swap the new value in for every
      history entry with the same id. */
  function UpdatePoll(s: Store, p: Poll): (r: Store)
    ensures r.current.Some? && Consistent(r.current.value)
    ensures SameExceptTotal(r.current.value, p)
    ensures |r.history| == |s.history|
    ensures forall k :: 0 <= k < |r.history| ==>
              (s.history[k].id == p.id ==> r.history[k] == r.current.value)
              && (s.history[k].id != p.id ==> r.history[k] == s.history[k])
  {
    var updated := Recount(p);
    Store(Some(updated), ReplaceById(s.history, updated))
  }

  /** `prev.map(poll => poll.id === q.id ? q : poll)`. */
  function ReplaceById(h: seq<Poll>, q: Poll): (r: seq<Poll>)
    ensures |r| == |h|
    ensures forall k :: 0 <= k < |h| ==> r[k] == (if h[k].id == q.id then q else h[k])
  {
    if |h| == 0 then []
    else [if h[0].id == q.id then q else h[0]] + ReplaceById(h[1..], q)
  }

  /** Updating a poll whose id is not in the history leaves the history as it
      was: no insertion, no move to the front. */
  lemma UpdateUnknownIdKeepsHistory(s: Store, p: Poll)
    requires forall k :: 0 <= k < |s.history| ==> s.history[k].id != p.id
    ensures UpdatePoll(s, p).history == s.history
    ensures UpdatePoll(s, p).current == Some(Recount(p))
  {
  }

  /** Updating twice with the same poll is the same as updating once. */
  lemma UpdateIdempotent(s: Store, p: Poll)
    ensures UpdatePoll(UpdatePoll(s, p), p) == UpdatePoll(s, p)
  {
    var once := UpdatePoll(s, p);
    var twice := UpdatePoll(once, p);
    assert twice.history == once.history;
  }

  /** A call the pages make on the context. */
  datatype Call = Save(poll: Poll) | Update(poll: Poll)

  function Step(s: Store, c: Call): Store {
    match c
    case Save(p) => SavePoll(s, p)
    case Update(p) => UpdatePoll(s, p)
  }

  /** The store after a run of calls, first call first. */
  function Run(s: Store, calls: seq<Call>): Store
    decreases |calls|
  {
    if |calls| == 0 then s
    else Run(Step(s, calls[0]), calls[1..])
  }

  /** Whatever the pages call, the history stays within `HistoryLimit` and
      every stored total stays equal to its tally. */
  lemma {:induction false} RunKeepsInvariants(s: Store, calls: seq<Call>)
    requires Bounded(s) && AllConsistent(s)
    ensures Bounded(Run(s, calls)) && AllConsistent(Run(s, calls))
    decreases |calls|
  {
    if |calls| > 0 {
      var next := Step(s, calls[0]);
      assert Bounded(next) && AllConsistent(next);
      RunKeepsInvariants(next, calls[1..]);
    }
  }

  /** Every store reachable from the provider's initial state is bounded and
      consistent. */
  lemma ReachableStoresAreBounded(calls: seq<Call>)
    ensures |Run(Initial, calls).history| <= 10
    ensures AllConsistent(Run(Initial, calls))
  {
    RunKeepsInvariants(Initial, calls);
  }

  /** The store after saving each poll of `ps` in turn. */
  function SaveAll(s: Store, ps: seq<Poll>): Store
    decreases |ps|
  {
    if |ps| == 0 then s
    else SavePoll(SaveAll(s, ps[..|ps| - 1]), ps[|ps| - 1])
  }

  /** After a run of saves, the history lists the last (up to) ten saved
      polls, newest first; the poll saved eleventh from last is gone. */
  lemma {:induction false} SaveAllKeepsLastTen(s: Store, ps: seq<Poll>)
    requires Bounded(s)
    ensures |SaveAll(s, ps).history| == Min(|s.history| + |ps|, HistoryLimit)
    ensures forall k :: 0 <= k < Min(|ps|, HistoryLimit) ==>
              SaveAll(s, ps).history[k] == Recount(ps[|ps| - 1 - k])
    decreases |ps|
  {
    if |ps| > 0 {
      var n := |ps|;
      var init := ps[..n - 1];
      SaveAllKeepsLastTen(s, init);
      var prev := SaveAll(s, init);
      var r := SaveAll(s, ps);
      assert r == SavePoll(prev, ps[n - 1]);
      assert |prev.history| == Min(|s.history| + (n - 1), HistoryLimit);
      assert |r.history| == Min(|prev.history| + 1, HistoryLimit);
      forall k | 0 <= k < Min(n, HistoryLimit)
        ensures r.history[k] == Recount(ps[n - 1 - k])
      {
        if k > 0 {
          assert r.history[k] == prev.history[k - 1];
          assert init[n - 2 - (k - 1)] == ps[n - 1 - k];
        }
      }
    }
  }
}
