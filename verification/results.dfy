/** The results page: where its poll comes from and the ranked breakdown it
    shows. The sort at the heart of it is `Array.prototype.sort` with the
    comparator `(a, b) => b.votes - a.votes`, which ECMA-262 (10th edition,
    section 22.1.3.27) requires to be stable; `Rank` is a stable insertion
    sort with the same order. */
module Results {
  import opened Wrappers
  import opened PollModel
  import PollDetails

  /** The page's state: `pollData` and `loading`. */
  datatype Page = Page(pollData: Option<Poll>, loading: bool)

  const Mounted: Page := Page(None, true)

  /** The load effect: the router-state poll wins over the context poll, and
      neither has its total recounted (unlike the voting page). */
  function Load(pg: Page, fromState: Option<Poll>, fromContext: Option<Poll>): (r: Page)
    ensures fromState.Some? ==> r.pollData == fromState && !r.loading
    ensures fromState.None? && fromContext.Some? ==> r.pollData == fromContext && !r.loading
    ensures fromState.None? && fromContext.None? ==> r == pg
  {
    if fromState.Some? then Page(fromState, false)
    else if fromContext.Some? then Page(fromContext, false)
    else pg
  }

  /** Unlike the voting page, the results page shows a router-state poll's
      stored total even when it disagrees with the options' tally. */
  lemma ResultsKeepStaleTotal()
    ensures var p := Poll("p1", "Q", Some([PollOption("A", Some(3))]), Some(1), "t");
            && Load(Mounted, Some(p), None).pollData.value.totalVotes == Some(1)
            && PollTally(p) == 3
  {
    var p := Poll("p1", "Q", Some([PollOption("A", Some(3))]), Some(1), "t");
    assert [PollOption("A", Some(3))][..0] == [];
  }

  /** Given the same router-state poll, the voting page and the results page
      show the same poll exactly when its stored total already equals its
      tally. */
  lemma PagesAgreeOnlyOnConsistentPolls(
    s: PollDetails.Session, pg: Page, p: Poll, c1: Option<Poll>, c2: Option<Poll>)
    ensures PollDetails.Load(s, Some(p), c1).pollData == Load(pg, Some(p), c2).pollData
            <==> Consistent(p)
  {
    RecountFixesConsistent(p);
  }

  /** Ordered by votes, highest first. */
  predicate Descending(s: seq<PollOption>) {
    forall i, j :: 0 <= i < j < |s| ==> VotesOr0(s[i]) >= VotesOr0(s[j])
  }

  /** The entries of `s` with exactly `v` votes, in their order in `s`. */
  function WithVotes(s: seq<PollOption>, v: nat): seq<PollOption> {
    if |s| == 0 then []
    else (if VotesOr0(s[0]) == v then [s[0]] else []) + WithVotes(s[1..], v)
  }

  /** Puts `o` in front of the first entry with no more votes than it has:
      `o` goes after every entry that beats it and before every tie. */
  function Insert(o: PollOption, s: seq<PollOption>): (r: seq<PollOption>)
    ensures |r| == |s| + 1
    ensures multiset(r) == multiset(s) + multiset{o}
    ensures forall k :: 0 <= k < |r| ==> r[k] == o || r[k] in s
  {
    if |s| == 0 || VotesOr0(s[0]) <= VotesOr0(o) then [o] + s
    else
      assert s == [s[0]] + s[1..];
      [s[0]] + Insert(o, s[1..])
  }

  /** Inserting into a ranked list gives a ranked list. */
  lemma {:induction false} InsertKeepsDescending(o: PollOption, s: seq<PollOption>)
    requires Descending(s)
    ensures Descending(Insert(o, s))
    decreases |s|
  {
    if |s| > 0 && VotesOr0(s[0]) > VotesOr0(o) {
      var rest := Insert(o, s[1..]);
      InsertKeepsDescending(o, s[1..]);
      var r := [s[0]] + rest;
      assert Insert(o, s) == r;
      forall j | 0 < j < |r|
        ensures VotesOr0(r[0]) >= VotesOr0(r[j])
      {
        if r[j] != o {
          assert rest[j - 1] in s[1..];
          var m :| 0 <= m < |s[1..]| && s[1..][m] == r[j];
          assert s[m + 1] == r[j];
        }
      }
    }
  }

  /** `options.sort((a, b) => b.votes - a.votes)`, stably. */
  function Rank(opts: seq<PollOption>): (r: seq<PollOption>)
    ensures |r| == |opts|
    ensures multiset(r) == multiset(opts)
    ensures Descending(r)
  {
    if |opts| == 0 then []
    else
      assert opts == [opts[0]] + opts[1..];
      InsertKeepsDescending(opts[0], Rank(opts[1..]));
      Insert(opts[0], Rank(opts[1..]))
  }

  /** Inserting into a ranked list keeps ties in order: `o` lands ahead of
      every entry it ties with. */
  lemma {:induction false} InsertKeepsTies(o: PollOption, s: seq<PollOption>, v: nat)
    requires Descending(s)
    ensures WithVotes(Insert(o, s), v) ==
              (if VotesOr0(o) == v then [o] else []) + WithVotes(s, v)
    decreases |s|
  {
    if |s| == 0 || VotesOr0(s[0]) <= VotesOr0(o) {
      assert ([o] + s)[1..] == s;
    } else {
      var rest := Insert(o, s[1..]);
      assert Descending(s[1..]);
      InsertKeepsTies(o, s[1..], v);
      assert ([s[0]] + rest)[1..] == rest;
      assert WithVotes(s, v) == (if VotesOr0(s[0]) == v then [s[0]] else []) + WithVotes(s[1..], v);
    }
  }

  /** The sort is stable: the options with any given vote count appear in
      the ranking in the same relative order as in the poll. */
  lemma {:induction false} RankIsStable(opts: seq<PollOption>, v: nat)
    ensures WithVotes(Rank(opts), v) == WithVotes(opts, v)
    decreases |opts|
  {
    if |opts| > 0 {
      RankIsStable(opts[1..], v);
      InsertKeepsTies(opts[0], Rank(opts[1..]), v);
    }
  }

  /** Every option carries a `votes` count. With an absent one the
      comparator yields `NaN`, which ECMA-262 reads as a tie, and the order
      of an inconsistent comparator is implementation-defined. */
  predicate AllCounted(opts: seq<PollOption>) {
    forall k :: 0 <= k < |opts| ==> opts[k].votes.Some?
  }

  /** One line of the breakdown: an option and `getVotePercentage(option.votes)`. */
  datatype Row = Row(option: PollOption, percent: Option<nat>)

  /** "No votes yet", or the ranked rows. */
  datatype Breakdown = NoVotesYet | Ranked(rows: seq<Row>)

  /** What the results breakdown needs to render without a fault or an
      implementation-defined order. */
  predicate CanRender(p: Poll) {
    p.totalVotes != Some(0) ==> p.options.Some? && AllCounted(p.options.value)
  }

  /** The results breakdown: nothing ranked while the total is 0, otherwise
      every option, highest count first and ties in poll order (see
      `RankIsStable`), each with its percentage. */
  function RenderBreakdown(p: Poll): (r: Breakdown)
    requires CanRender(p)
    ensures r.NoVotesYet? <==> p.totalVotes == Some(0)
    // the rows come in the stable ranking's order, ties as in the poll
    ensures r.Ranked? ==>
              seq(|r.rows|, k requires 0 <= k < |r.rows| => r.rows[k].option)
                == Rank(p.options.value)
    ensures r.Ranked? ==>
              && |r.rows| == |p.options.value|
              && multiset(seq(|r.rows|, k requires 0 <= k < |r.rows| => r.rows[k].option))
                 == multiset(p.options.value)
              && (forall k :: 0 <= k < |r.rows| ==> r.rows[k].option.votes.Some?)
              && (forall i, j :: 0 <= i < j < |r.rows| ==>
                    VotesOr0(r.rows[i].option) >= VotesOr0(r.rows[j].option))
              && (forall k :: 0 <= k < |r.rows| ==>
                    r.rows[k].percent == VotePercentage(Some(p), r.rows[k].option.votes))
    ensures r.Ranked? && Consistent(p) ==>
              forall k :: 0 <= k < |r.rows| ==>
                r.rows[k].percent.Some? && r.rows[k].percent.value <= 100
  {
    if p.totalVotes == Some(0) then NoVotesYet
    else
      var ranked := Rank(p.options.value);
      var rows := seq(|ranked|, k requires 0 <= k < |ranked| =>
                        Row(ranked[k], VotePercentage(Some(p), ranked[k].votes)));
      RenderRanked(p, ranked, rows);
      Ranked(rows)
  }

  /** The facts about the rows that `RenderBreakdown` promises. */
  lemma RenderRanked(p: Poll, ranked: seq<PollOption>, rows: seq<Row>)
    requires p.options.Some? && AllCounted(p.options.value)
    requires ranked == Rank(p.options.value)
    requires |rows| == |ranked|
    requires forall k :: 0 <= k < |rows| ==>
               rows[k] == Row(ranked[k], VotePercentage(Some(p), ranked[k].votes))
    ensures seq(|rows|, k requires 0 <= k < |rows| => rows[k].option) == ranked
    ensures forall k :: 0 <= k < |ranked| ==> ranked[k].votes.Some?
    ensures Consistent(p) ==>
              forall k :: 0 <= k < |rows| ==> rows[k].percent.Some? && rows[k].percent.value <= 100
  {
    var opts := p.options.value;
    forall k | 0 <= k < |ranked|
      ensures ranked[k].votes.Some?
    {
      assert ranked[k] in multiset(opts);
    }
    if Consistent(p) {
      forall k | 0 <= k < |rows|
        ensures rows[k].percent.Some? && rows[k].percent.value <= 100
      {
        assert ranked[k] in multiset(opts);
        var j :| 0 <= j < |opts| && opts[j] == ranked[k];
        PercentageOfOptionInRange(p, j);
      }
    }
  }
}
