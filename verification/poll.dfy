/** The two pieces of logic in `Commands/Poll.js`: the 16-square result bar
    and the rule that records one click as a vote. */
module Poll {
  import opened Text

  datatype Square = Green | Red

  const BarLength: nat := 16

  /** The nearest integer, halves rounded up. */
  function Round(x: real): int {
    (x + 0.5).Floor
  }

  /** Option 1's share of the 16 squares, rounded to the nearest integer,
      or 8 when nobody has voted; computed with exact rational
      arithmetic. */
  function GreenCount(count1: nat, count2: nat): int {
    var total := count1 + count2;
    if total == 0 then 8
    else Round(count1 as real / total as real * 16.0)
  }

  /** Option 1's share of 16 squares, rounded half up, in integers only. */
  function Share(count1: nat, count2: nat): nat {
    var total := count1 + count2;
    if total == 0 then 8
    else (32 * count1 + total) / (2 * total)
  }

  function Repeat(s: Square, n: nat): (r: seq<Square>)
    ensures |r| == n && forall i :: 0 <= i < n ==> r[i] == s
  {
    seq(n, _ => s)
  }

  /** `Floor` is the integer just below. */
  lemma FloorIs(x: real, q: int)
    requires q as real <= x < q as real + 1.0
    ensures x.Floor == q
  {
  }

  /** Option 1's scaled share plus one half, times twice the total, is
      the integer `32 count1 + total`. */
  lemma HalfShifted(c: real, t: real)
    requires t > 0.0
    ensures (c / t * 16.0 + 0.5) * (2.0 * t) == 32.0 * c + t
  {
    var y := c / t;
    assert y * t == c;
    calc {
      (y * 16.0 + 0.5) * (2.0 * t);
      32.0 * (y * t) + t;
    }
  }

  /** A real whose product with a positive `d` is `d q + rem` for
      `0 <= rem < d` lies in [q, q + 1). */
  lemma BetweenQuotients(x: real, n: int, d: int, q: int, rem: int)
    requires d > 0 && n == d * q + rem && 0 <= rem < d
    requires x * d as real == n as real
    ensures q as real <= x < q as real + 1.0
  {
    var f := x - q as real;
    assert f * d as real == rem as real;
    assert f < 0.0 ==> f * d as real < 0.0;
    assert f >= 1.0 ==> (f - 1.0) * d as real >= 0.0;
  }

  /** Below `k` divisors, the quotient is below `k`. */
  lemma QuotientBelow(n: int, d: int, k: int)
    requires d > 0 && 0 <= n < k * d
    ensures n / d < k
  {
    var q := n / d;
    assert d * q <= n;
    assert q >= k ==> (q - k) * d >= 0;
  }

  /** The rounded green count equals the integer share, which never
      exceeds 16. */
  lemma GreenCountIsShare(count1: nat, count2: nat)
    ensures GreenCount(count1, count2) == Share(count1, count2)
    ensures Share(count1, count2) <= BarLength
  {
    var total := count1 + count2;
    if total > 0 {
      var n := 32 * count1 + total;
      var d := 2 * total;
      var q := n / d;
      var rem := n % d;
      var x := count1 as real / total as real * 16.0 + 0.5;
      HalfShifted(count1 as real, total as real);
      assert x * d as real == n as real;
      BetweenQuotients(x, n, d, q, rem);
      FloorIs(x, q);
      QuotientBelow(n, d, 17);
    }
  }

  /** `buildBar`: `clampedGreen` green squares, then `16 - clampedGreen`
      red ones. The bar is always 16 squares long, and square `i` is green
      exactly when `i` is below option 1's rounded share. */
  function BuildBar(count1: nat, count2: nat): (bar: seq<Square>)
    ensures |bar| == BarLength
    ensures forall i :: 0 <= i < BarLength ==> (bar[i] == Green <==> i < Share(count1, count2))
  {
    var greenCount := GreenCount(count1, count2);
    var clampedGreen := if greenCount > 16 then 16 else if greenCount < 0 then 0 else greenCount;
    var redCount := 16 - clampedGreen;
    GreenCountIsShare(count1, count2);
    Repeat(Green, clampedGreen) + Repeat(Red, redCount)
  }

  function GreenSquares(bar: seq<Square>): nat {
    if |bar| == 0 then 0
    else (if bar[0] == Green then 1 else 0) + GreenSquares(bar[1..])
  }

  /** A bar whose greens are exactly its first `g` squares has `g` greens. */
  lemma {:induction false} GreenPrefixCount(bar: seq<Square>, g: nat)
    requires g <= |bar|
    requires forall i :: 0 <= i < |bar| ==> (bar[i] == Green <==> i < g)
    ensures GreenSquares(bar) == g
  {
    if |bar| > 0 {
      var rest := bar[1..];
      var g' := if g > 0 then g - 1 else 0;
      assert forall i :: 0 <= i < |rest| ==> rest[i] == bar[i + 1];
      GreenPrefixCount(rest, g');
    }
  }

  /** No votes split the bar evenly; only option 1 votes fill it; no
      option 1 votes leave it all red. */
  lemma BarExtremes(n: nat)
    ensures GreenSquares(BuildBar(0, 0)) == 8
    ensures n > 0 ==> GreenSquares(BuildBar(n, 0)) == 16
    ensures n > 0 ==> GreenSquares(BuildBar(0, n)) == 0
  {
    GreenPrefixCount(BuildBar(0, 0), 8);
    if n > 0 {
      assert (32 * n + n) / (2 * n) == 16 by {
        assert 32 * n + n == 16 * (2 * n) + n;
      }
      assert (32 * 0 + n) / (2 * n) == 0;
      GreenPrefixCount(BuildBar(n, 0), 16);
      GreenPrefixCount(BuildBar(0, n), 0);
    }
  }

  /** The two options of a poll. */
  datatype Choice = One | Two

  /** The voters of each option, in voting order. */
  datatype Votes = Votes(one: seq<string>, two: seq<string>)

  datatype VoteResult = AlreadyVoted | Recorded(votes: Votes, chosen: Choice)

  /** The button clicked: option 1 iff its custom id ends with `_1`. */
  function ChosenOption(customId: string): Choice {
    if EndsWith(customId, "_1") then One else Two
  }

  /** The `collect` rule: a user already listed under either option is
      refused; anyone else is appended to the list of the clicked option. */
  function RecordVote(votes: Votes, user: string, customId: string): (r: VoteResult)
    ensures r.AlreadyVoted? <==> user in votes.one || user in votes.two
    ensures r.Recorded? ==> (r.chosen == One <==> EndsWith(customId, "_1"))
    ensures r.Recorded? && r.chosen == One ==>
              r.votes.one == votes.one + [user] && r.votes.two == votes.two
    ensures r.Recorded? && r.chosen == Two ==>
              r.votes.two == votes.two + [user] && r.votes.one == votes.one
  {
    if user in votes.one || user in votes.two then AlreadyVoted
    else
      var chosen := ChosenOption(customId);
      if chosen == One then Recorded(Votes(votes.one + [user], votes.two), One)
      else Recorded(Votes(votes.one, votes.two + [user]), Two)
  }

  predicate NoDuplicates(s: seq<string>) {
    forall i, j :: 0 <= i < j < |s| ==> s[i] != s[j]
  }

  /** Each user votes at most once: no list repeats a user and no user is
      in both lists. */
  predicate WellFormed(v: Votes) {
    && NoDuplicates(v.one)
    && NoDuplicates(v.two)
    && forall u :: u in v.one ==> u !in v.two
  }

  /** An accepted vote keeps the lists well formed, raises exactly one
      count by one, and lists the user; asking again is refused. */
  lemma RecordVoteKeepsWellFormed(votes: Votes, user: string, customId: string, customId': string)
    requires WellFormed(votes)
    requires RecordVote(votes, user, customId).Recorded?
    ensures var v := RecordVote(votes, user, customId).votes;
      && WellFormed(v)
      && |v.one| + |v.two| == |votes.one| + |votes.two| + 1
      && (|v.one| == |votes.one| + 1 || |v.two| == |votes.two| + 1)
      && (user in v.one <==> user !in v.two)
      && RecordVote(v, user, customId').AlreadyVoted?
  {
    var v := RecordVote(votes, user, customId).votes;
    if ChosenOption(customId) == One {
      assert v.one[|votes.one|] == user;
      assert forall u :: u in v.one ==> u in votes.one || u == user;
    } else {
      assert v.two[|votes.two|] == user;
      assert forall u :: u in v.two ==> u in votes.two || u == user;
    }
  }

  /** What the poll message's embed carries from one click to the next: the
      vote lists of its `votes_json` field, or `None` when that field is
      absent or does not parse. */
  datatype PollEmbed = PollEmbed(votesField: Option<Votes>)

  datatype ClickReply = PollDataMissing | AlreadyVotedReply | VotedFor(chosen: Choice, bar: seq<Square>)

  datatype ClickResult = ClickResult(embed: Option<PollEmbed>, reply: ClickReply)

  /** The lists a click starts from: the stored ones, or two empty lists. */
  function StoredVotes(e: PollEmbed): Votes {
    match e.votesField
    case Some(v) => v
    case None => Votes([], [])
  }

  /** One click as the source handles it: the edited embed is rebuilt from
      the two vote counts and the bar only, so `votes_json` is gone. */
  function ClickAsWritten(embed: Option<PollEmbed>, user: string, customId: string): (r: ClickResult)
    ensures embed.None? ==> r.reply == PollDataMissing && r.embed == embed
    ensures r.reply.VotedFor? ==> r.embed == Some(PollEmbed(None))
  {
    match embed
    case None => ClickResult(embed, PollDataMissing)
    case Some(e) =>
      match RecordVote(StoredVotes(e), user, customId)
      case AlreadyVoted => ClickResult(embed, AlreadyVotedReply)
      case Recorded(v, chosen) =>
        ClickResult(Some(PollEmbed(None)), VotedFor(chosen, BuildBar(|v.one|, |v.two|)))
  }

  /** As written, the same user clicking the same button twice on a fresh
      poll is counted twice: the second click finds no stored votes. */
  lemma DoubleVoteAsWritten(user: string, customId: string)
    ensures var first := ClickAsWritten(Some(PollEmbed(Some(Votes([], [])))), user, customId);
      var second := ClickAsWritten(first.embed, user, customId);
      first.reply.VotedFor? && second.reply.VotedFor?
  {
  }

  /** One click with the vote lists written back into the embed, as the
      "You already voted" check evidently intends. */
  function Click(embed: Option<PollEmbed>, user: string, customId: string): (r: ClickResult)
    ensures embed.None? ==> r.reply == PollDataMissing && r.embed == embed
    ensures r.reply.VotedFor? ==> && r.embed.Some? && r.embed.value.votesField.Some?
                                  && var v := r.embed.value.votesField.value;
                                     user in v.one + v.two
                                     && |v.one| + |v.two| == |StoredVotes(embed.value).one| + |StoredVotes(embed.value).two| + 1
  {
    match embed
    case None => ClickResult(embed, PollDataMissing)
    case Some(e) =>
      match RecordVote(StoredVotes(e), user, customId)
      case AlreadyVoted => ClickResult(embed, AlreadyVotedReply)
      case Recorded(v, chosen) =>
        ClickResult(Some(PollEmbed(Some(v))), VotedFor(chosen, BuildBar(|v.one|, |v.two|)))
  }

  /** With the votes carried over, an accepted vote keeps the stored lists
      well formed, and a later click by the same user on either button is
      refused without changing the embed. */
  lemma ClickRejectsRepeat(embed: Option<PollEmbed>, user: string, customId: string, customId': string)
    requires embed.Some? && WellFormed(StoredVotes(embed.value))
    requires user !in StoredVotes(embed.value).one && user !in StoredVotes(embed.value).two
    ensures var first := Click(embed, user, customId);
      var second := Click(first.embed, user, customId');
      && first.reply.VotedFor?
      && WellFormed(StoredVotes(first.embed.value))
      && second.reply == AlreadyVotedReply
      && second.embed == first.embed
  {
    RecordVoteKeepsWellFormed(StoredVotes(embed.value), user, customId, customId');
  }
}
