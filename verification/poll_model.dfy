/** The shape of a poll and the rules that derive its tally and percentages.

    A poll travels between the pages as a plain JavaScript object, so any field
    may be missing. The model keeps that: `votes`, `options` and `totalVotes`
    are optional, and the source's `option.votes || 0` is `VotesOr0`. */
module PollModel {
  import opened Wrappers

  /** One answer of a poll; `votes == None` is an option object without a
      `votes` property. */
  datatype PollOption = PollOption(text: string, votes: Option<nat>)

  /** A poll. `id` and `createdAt` are opaque: nothing in the source computes
      with them, `id` is only compared for equality. */
  datatype Poll = Poll(
    id: string,
    question: string,
    options: Option<seq<PollOption>>,
    totalVotes: Option<nat>,
    createdAt: string)

  /** `option.votes || 0`: an absent count reads as zero. */
  function VotesOr0(o: PollOption): nat {
    o.votes.GetOr(0)
  }

  /** `options.reduce((sum, option) => sum + (option.votes || 0), 0)`, a left
      fold: the tally of all but the last option, plus the last one. */
  function Tally(opts: seq<PollOption>): (r: nat)
    ensures forall k :: 0 <= k < |opts| ==> VotesOr0(opts[k]) <= r
    ensures r == 0 <==> forall k :: 0 <= k < |opts| ==> VotesOr0(opts[k]) == 0
  {
    if |opts| == 0 then 0
    else
      var init := opts[..|opts| - 1];
      assert forall k :: 0 <= k < |init| ==> init[k] == opts[k];
      Tally(init) + VotesOr0(opts[|opts| - 1])
  }

  /** The guarded reduce of the source: a poll without an `options` field
      tallies to 0. */
  function PollTally(p: Poll): nat {
    if p.options.Some? then Tally(p.options.value) else 0
  }

  /** The stored total is present and equals the tally. */
  predicate Consistent(p: Poll) {
    p.totalVotes == Some(PollTally(p))
  }

  /** `p` and `q` agree on every field except, possibly, `totalVotes`. */
  predicate SameExceptTotal(p: Poll, q: Poll) {
    p.id == q.id && p.question == q.question && p.options == q.options
      && p.createdAt == q.createdAt
  }

  /** `{ ...poll, totalVotes: <tally> }`: the copy with a recomputed total. */
  function Recount(p: Poll): (r: Poll)
    ensures Consistent(r)
    ensures SameExceptTotal(r, p)
  {
    p.(totalVotes := Some(PollTally(p)))
  }

  /** Recounting changes nothing exactly when the total was already right;
      in particular it is idempotent. */
  lemma RecountFixesConsistent(p: Poll)
    ensures Recount(p) == p <==> Consistent(p)
    ensures Recount(Recount(p)) == Recount(p)
  {
  }

  /** The tally distributes over concatenation. */
  lemma {:induction false} TallyAppend(a: seq<PollOption>, b: seq<PollOption>)
    ensures Tally(a + b) == Tally(a) + Tally(b)
    decreases |b|
  {
    if |b| == 0 {
      assert a + b == a;
    } else {
      var b' := b[..|b| - 1];
      assert (a + b)[..|a + b| - 1] == a + b';
      TallyAppend(a, b');
    }
  }

  /** Replacing one option changes the tally by exactly the difference of the
      two counts. */
  lemma TallyUpdate(s: seq<PollOption>, i: nat, o: PollOption)
    requires i < |s|
    ensures Tally(s[i := o]) + VotesOr0(s[i]) == Tally(s) + VotesOr0(o)
  {
    var pre, post := s[..i], s[i + 1..];
    assert s == pre + [s[i]] + post;
    assert s[i := o] == pre + [o] + post;
    TallyAppend(pre + [s[i]], post);
    TallyAppend(pre + [o], post);
    TallyAppend(pre, [s[i]]);
    TallyAppend(pre, [o]);
    assert Tally([s[i]]) == VotesOr0(s[i]) by {
      assert [s[i]][..0] == [];
    }
    assert Tally([o]) == VotesOr0(o) by {
      assert [o][..0] == [];
    }
  }

  /** `Math.round(votes / total * 100)` for `total > 0`, in exact arithmetic:
      `floor(100 * votes / total + 1/2)`. */
  function RoundedPercent(votes: nat, total: nat): (r: nat)
    requires total > 0
    // r is the integer nearest to 100 * votes / total, halves rounded up
    ensures 2 * total * r <= 200 * votes + total < 2 * total * (r + 1)
  {
    var n, d := 200 * votes + total, 2 * total;
    assert n == d * (n / d) + n % d;
    n / d
  }

  /** Multiplying by a natural number preserves order. */
  lemma MulMonotone(a: nat, b: nat, c: nat)
    requires b <= c
    ensures a * b <= a * c
  {
  }

  /** A share never exceeds the whole: at most 100 percent. */
  lemma RoundedPercentAtMost100(votes: nat, total: nat)
    requires 0 < total && votes <= total
    ensures RoundedPercent(votes, total) <= 100
    ensures votes == total ==> RoundedPercent(votes, total) == 100
    ensures votes == 0 ==> RoundedPercent(votes, total) == 0
  {
    var r := RoundedPercent(votes, total);
    var d := 2 * total;
    assert d * r <= 200 * votes + total < d * (r + 1);
    if r > 100 {
      MulMonotone(d, 101, r);
    }
    if votes == total && r < 100 {
      MulMonotone(d, r + 1, 100);
    }
    if votes == 0 && r > 0 {
      MulMonotone(d, 1, r);
    }
  }

  /** More votes never show a smaller percentage. */
  lemma RoundedPercentMonotone(v1: nat, v2: nat, total: nat)
    requires 0 < total && v1 <= v2
    ensures RoundedPercent(v1, total) <= RoundedPercent(v2, total)
  {
    var r1, r2 := RoundedPercent(v1, total), RoundedPercent(v2, total);
    var d := 2 * total;
    assert d * r1 <= 200 * v1 + total;
    assert 200 * v2 + total < d * (r2 + 1);
    if r1 > r2 {
      MulMonotone(d, r2 + 1, r1);
    }
  }

  /** `getVotePercentage(votes)` of both the voting page and the results page,
      with the page's `pollData` passed in. `None` stands for `NaN`: the
      division by an absent total, or of an absent count. */
  function VotePercentage(pollData: Option<Poll>, votes: Option<nat>): (r: Option<nat>)
    ensures pollData.None? || pollData.value.totalVotes == Some(0) ==> r == Some(0)
    ensures pollData.Some? && pollData.value.totalVotes.Some? && votes.Some? ==> r.Some?
    ensures r.Some? && pollData.Some? && pollData.value.totalVotes.Some?
            && pollData.value.totalVotes.value > 0 ==>
              var t := pollData.value.totalVotes.value;
              votes.Some? && 2 * t * r.value <= 200 * votes.value + t < 2 * t * (r.value + 1)
    ensures r.None? <==> pollData.Some? && pollData.value.totalVotes != Some(0)
                         && (pollData.value.totalVotes.None? || votes.None?)
  {
    if pollData.None? || pollData.value.totalVotes == Some(0) then Some(0)
    else if pollData.value.totalVotes.None? || votes.None? then None
    else Some(RoundedPercent(votes.value, pollData.value.totalVotes.value))
  }

  /** On a consistent poll every option's percentage is defined and lies in
      [0, 100]. */
  lemma PercentageOfOptionInRange(p: Poll, k: nat)
    requires p.options.Some? && k < |p.options.value|
    ensures Consistent(p) ==>
              var r := VotePercentage(Some(p), Some(VotesOr0(p.options.value[k])));
              r.Some? && r.value <= 100
  {
    if Consistent(p) && p.totalVotes.value > 0 {
      RoundedPercentAtMost100(VotesOr0(p.options.value[k]), p.totalVotes.value);
    }
  }
}
