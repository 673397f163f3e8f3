/**
 * The self-vote statistic: among the votes cast at or after a cutoff with a
 * strictly positive weight, the percentage whose voter is also the author of
 * the voted content.
 */
module SelfVotes {
  import opened HiveRecords

  /** A vote enters the statistic only if it is not older than the cutoff
      (the cutoff itself included) and its weight is strictly positive. */
  predicate Qualifies(v: Vote, cutoff: int) {
    v.timestamp >= cutoff && v.weight > 0
  }

  predicate IsSelfVote(v: Vote) {
    v.voter == v.author
  }

  predicate QualifyingSelfVote(v: Vote, cutoff: int) {
    Qualifies(v, cutoff) && IsSelfVote(v)
  }

  /** Number of qualifying votes (`total_votes`). */
  function QualifyingCount(votes: seq<Vote>, cutoff: int): (n: nat)
    ensures n <= |votes|
  {
    if votes == [] then 0
    else (if Qualifies(votes[0], cutoff) then 1 else 0) + QualifyingCount(votes[1..], cutoff)
  }

  /** Number of qualifying votes that are self-votes (`self_votes`). */
  function SelfCount(votes: seq<Vote>, cutoff: int): (n: nat)
    ensures n <= QualifyingCount(votes, cutoff)
  {
    if votes == [] then 0
    else (if QualifyingSelfVote(votes[0], cutoff) then 1 else 0) + SelfCount(votes[1..], cutoff)
  }

  /** The self-vote percentage, as an exact real (no rounding). `username`
      is accepted as the source accepts it and plays no role. */
  function GetSelfVotes(username: string, votes: seq<Vote>, cutoff: int): (r: real)
    ensures 0.0 <= r <= 100.0
    ensures QualifyingCount(votes, cutoff) == 0 ==> r == 0.0
    ensures r == 0.0 <==> SelfCount(votes, cutoff) == 0
    ensures IsPercentageOf(r, SelfCount(votes, cutoff), QualifyingCount(votes, cutoff))
    ensures 0 < QualifyingCount(votes, cutoff) == SelfCount(votes, cutoff) ==> r == 100.0
  {
    var total := QualifyingCount(votes, cutoff);
    var selfVotes := SelfCount(votes, cutoff);
    Percentage(selfVotes, total)
  }

  /** `r` hundredths of `whole` make `part` (nothing is said of a zero `whole`). */
  predicate IsPercentageOf(r: real, part: nat, whole: nat) {
    whole > 0 ==> r * whole as real == part as real * 100.0
  }

  /** `part` as a percentage of `whole`, and 0 when `whole` is 0. */
  function Percentage(part: nat, whole: nat): (r: real)
    requires part <= whole
    ensures 0.0 <= r <= 100.0
    ensures whole == 0 ==> r == 0.0
    ensures r == 0.0 <==> part == 0
    ensures IsPercentageOf(r, part, whole)
    ensures 0 < whole == part ==> r == 100.0
  {
    if whole > 0 then
      var q := part as real / whole as real;
      assert q * whole as real == part as real;
      assert q <= 1.0;
      q * 100.0
    else 0.0
  }

  /** Both counts distribute over concatenation of vote sequences. */
  lemma {:induction false} CountsAppend(a: seq<Vote>, b: seq<Vote>, cutoff: int)
    ensures QualifyingCount(a + b, cutoff) == QualifyingCount(a, cutoff) + QualifyingCount(b, cutoff)
    ensures SelfCount(a + b, cutoff) == SelfCount(a, cutoff) + SelfCount(b, cutoff)
  {
    if a == [] {
      assert a + b == b;
    } else {
      assert (a + b)[1..] == a[1..] + b;
      CountsAppend(a[1..], b, cutoff);
    }
  }

  /** No qualifying vote at all exactly when the qualifying count is zero. */
  lemma {:induction false} QualifyingCountZeroIff(votes: seq<Vote>, cutoff: int)
    ensures QualifyingCount(votes, cutoff) == 0 <==>
              forall i :: 0 <= i < |votes| ==> !Qualifies(votes[i], cutoff)
  {
    if votes != [] {
      QualifyingCountZeroIff(votes[1..], cutoff);
      assert forall i :: 1 <= i < |votes| ==> votes[i] == votes[1..][i - 1];
    }
  }

  /** No qualifying self-vote exactly when the self count is zero. */
  lemma {:induction false} SelfCountZeroIff(votes: seq<Vote>, cutoff: int)
    ensures SelfCount(votes, cutoff) == 0 <==>
              forall i :: 0 <= i < |votes| ==> !QualifyingSelfVote(votes[i], cutoff)
  {
    if votes != [] {
      SelfCountZeroIff(votes[1..], cutoff);
      assert forall i :: 1 <= i < |votes| ==> votes[i] == votes[1..][i - 1];
    }
  }

  /** Every qualifying vote is a self-vote exactly when the two counts agree. */
  lemma {:induction false} AllSelfIff(votes: seq<Vote>, cutoff: int)
    ensures SelfCount(votes, cutoff) == QualifyingCount(votes, cutoff) <==>
              forall i :: 0 <= i < |votes| && Qualifies(votes[i], cutoff) ==> IsSelfVote(votes[i])
  {
    if votes != [] {
      AllSelfIff(votes[1..], cutoff);
      assert forall i :: 1 <= i < |votes| ==> votes[i] == votes[1..][i - 1];
    }
  }

  /** The result is zero exactly when no vote is a qualifying self-vote; in
      particular it is zero when no vote qualifies at all. */
  lemma SelfVotesZeroIff(username: string, votes: seq<Vote>, cutoff: int)
    ensures GetSelfVotes(username, votes, cutoff) == 0.0 <==>
              forall i :: 0 <= i < |votes| ==> !QualifyingSelfVote(votes[i], cutoff)
  {
    SelfCountZeroIff(votes, cutoff);
  }

  /** When at least one vote qualifies and all qualifying votes are
      self-votes, the result is 100. */
  lemma AllSelfVotesGiveHundred(username: string, votes: seq<Vote>, cutoff: int)
    requires exists i :: 0 <= i < |votes| && Qualifies(votes[i], cutoff)
    requires forall i :: 0 <= i < |votes| && Qualifies(votes[i], cutoff) ==> IsSelfVote(votes[i])
    ensures GetSelfVotes(username, votes, cutoff) == 100.0
  {
    AllSelfIff(votes, cutoff);
    QualifyingCountZeroIff(votes, cutoff);
  }

  /** When no qualifying vote is a self-vote, the result is 0. */
  lemma NoSelfVotesGiveZero(username: string, votes: seq<Vote>, cutoff: int)
    requires forall i :: 0 <= i < |votes| && Qualifies(votes[i], cutoff) ==> !IsSelfVote(votes[i])
    ensures GetSelfVotes(username, votes, cutoff) == 0.0
  {
    SelfCountZeroIff(votes, cutoff);
  }

  /** A vote that does not qualify (too old, or weight not positive) never
      changes the result, wherever it appears. */
  lemma IgnoresNonQualifying(username: string, a: seq<Vote>, v: Vote, b: seq<Vote>, cutoff: int)
    requires !Qualifies(v, cutoff)
    ensures GetSelfVotes(username, a + [v] + b, cutoff) == GetSelfVotes(username, a + b, cutoff)
  {
    CountsAppend(a + [v], b, cutoff);
    CountsAppend(a, [v], cutoff);
    CountsAppend(a, b, cutoff);
  }

  /** The qualifying votes, each as often as it occurs in the input, in their
      original order (see `OnlyQualifyingAppend`). */
  function OnlyQualifying(votes: seq<Vote>, cutoff: int): (r: seq<Vote>)
    ensures forall i :: 0 <= i < |r| ==> Qualifies(r[i], cutoff)
    ensures forall v :: v in r <==> v in votes && Qualifies(v, cutoff)
    ensures forall v :: multiset(r)[v] == if Qualifies(v, cutoff) then multiset(votes)[v] else 0
  {
    if votes == [] then []
    else
      assert votes == [votes[0]] + votes[1..];
      if Qualifies(votes[0], cutoff) then [votes[0]] + OnlyQualifying(votes[1..], cutoff)
      else OnlyQualifying(votes[1..], cutoff)
  }

  /** The filter keeps the original order: filtering a concatenation is
      concatenating the filtered parts. */
  lemma {:induction false} OnlyQualifyingAppend(a: seq<Vote>, b: seq<Vote>, cutoff: int)
    ensures OnlyQualifying(a + b, cutoff) == OnlyQualifying(a, cutoff) + OnlyQualifying(b, cutoff)
  {
    if a == [] {
      assert a + b == b;
    } else {
      assert (a + b)[1..] == a[1..] + b;
      OnlyQualifyingAppend(a[1..], b, cutoff);
    }
  }

  lemma {:induction false} OnlyQualifyingCounts(votes: seq<Vote>, cutoff: int)
    ensures QualifyingCount(OnlyQualifying(votes, cutoff), cutoff) == QualifyingCount(votes, cutoff)
    ensures SelfCount(OnlyQualifying(votes, cutoff), cutoff) == SelfCount(votes, cutoff)
  {
    if votes != [] {
      OnlyQualifyingCounts(votes[1..], cutoff);
      var rest := OnlyQualifying(votes[1..], cutoff);
      if Qualifies(votes[0], cutoff) {
        assert ([votes[0]] + rest)[1..] == rest;
      }
    }
  }

  /** Dropping every vote that does not qualify leaves the result unchanged. */
  lemma FilteringOldVotesIsHarmless(username: string, votes: seq<Vote>, cutoff: int)
    ensures GetSelfVotes(username, OnlyQualifying(votes, cutoff), cutoff)
         == GetSelfVotes(username, votes, cutoff)
  {
    OnlyQualifyingCounts(votes, cutoff);
  }

  /** The account name passed in has no influence on the result. */
  lemma UsernameIrrelevant(u1: string, u2: string, votes: seq<Vote>, cutoff: int)
    ensures GetSelfVotes(u1, votes, cutoff) == GetSelfVotes(u2, votes, cutoff)
  {
  }

  /** The cutoff is inclusive: a positive-weight vote stamped exactly at the
      cutoff counts, as a self-vote iff voter and author coincide. */
  lemma CutoffInclusive(username: string, v: Vote, cutoff: int)
    requires v.timestamp == cutoff && v.weight > 0
    ensures GetSelfVotes(username, [v], cutoff) == if v.voter == v.author then 100.0 else 0.0
  {
    assert [v][1..] == [];
  }

  /** One qualifying self-vote and one qualifying vote on someone else's
      content give 50 percent, in either order. */
  lemma OneSelfOneOther(username: string, mine: Vote, other: Vote, cutoff: int)
    requires Qualifies(mine, cutoff) && IsSelfVote(mine)
    requires Qualifies(other, cutoff) && !IsSelfVote(other)
    ensures GetSelfVotes(username, [mine, other], cutoff) == 50.0
    ensures GetSelfVotes(username, [other, mine], cutoff) == 50.0
  {
    CountsAppend([mine], [other], cutoff);
    CountsAppend([other], [mine], cutoff);
    assert [mine][1..] == [] && [other][1..] == [];
    assert [mine, other] == [mine] + [other] && [other, mine] == [other] + [mine];
  }

  /** Indices of qualifying votes, and of qualifying self-votes: an
      independent reading of the two counts as set cardinalities. */
  function QualifyingIndices(votes: seq<Vote>, cutoff: int): set<nat> {
    set i: nat | i < |votes| && Qualifies(votes[i], cutoff)
  }

  function SelfIndices(votes: seq<Vote>, cutoff: int): set<nat> {
    set i: nat | i < |votes| && QualifyingSelfVote(votes[i], cutoff)
  }

  lemma {:induction false} CountsAreCardinalities(votes: seq<Vote>, cutoff: int)
    ensures QualifyingCount(votes, cutoff) == |QualifyingIndices(votes, cutoff)|
    ensures SelfCount(votes, cutoff) == |SelfIndices(votes, cutoff)|
    decreases |votes|
  {
    if votes != [] {
      var n := |votes| - 1;
      var init := votes[..n];
      CountsAreCardinalities(init, cutoff);
      CountsSnoc(votes, cutoff);
      IndicesSnoc(votes, cutoff);
    }
  }

  /** Counting the last vote on its own. */
  lemma CountsSnoc(votes: seq<Vote>, cutoff: int)
    requires votes != []
    ensures QualifyingCount(votes, cutoff)
         == QualifyingCount(votes[..|votes| - 1], cutoff) + if Qualifies(votes[|votes| - 1], cutoff) then 1 else 0
    ensures SelfCount(votes, cutoff)
         == SelfCount(votes[..|votes| - 1], cutoff) + if QualifyingSelfVote(votes[|votes| - 1], cutoff) then 1 else 0
  {
    var n := |votes| - 1;
    var init, last := votes[..n], votes[n..];
    assert init + last == votes;
    CountsAppend(init, last, cutoff);
    CountsOfOne(last, cutoff);
  }

  /** A single vote counts once if it qualifies (resp. is a qualifying self-vote). */
  lemma CountsOfOne(votes: seq<Vote>, cutoff: int)
    requires |votes| == 1
    ensures QualifyingCount(votes, cutoff) == if Qualifies(votes[0], cutoff) then 1 else 0
    ensures SelfCount(votes, cutoff) == if QualifyingSelfVote(votes[0], cutoff) then 1 else 0
  {
  }

  /** The index sets of a sequence gain at most its last index over those of
      its prefix. */
  lemma IndicesSnoc(votes: seq<Vote>, cutoff: int)
    requires votes != []
    ensures |QualifyingIndices(votes, cutoff)|
         == |QualifyingIndices(votes[..|votes| - 1], cutoff)| + if Qualifies(votes[|votes| - 1], cutoff) then 1 else 0
    ensures |SelfIndices(votes, cutoff)|
         == |SelfIndices(votes[..|votes| - 1], cutoff)| + if QualifyingSelfVote(votes[|votes| - 1], cutoff) then 1 else 0
  {
    var n := |votes| - 1;
    var init := votes[..n];
    QualifyingIndicesSnoc(votes, cutoff);
    SelfIndicesSnoc(votes, cutoff);
    assert n !in QualifyingIndices(init, cutoff);
    assert n !in SelfIndices(init, cutoff);
  }

  /** Extending a sequence by one vote adds at most its index to each index set. */
  lemma QualifyingIndicesSnoc(votes: seq<Vote>, cutoff: int)
    requires votes != []
    ensures QualifyingIndices(votes, cutoff)
         == QualifyingIndices(votes[..|votes| - 1], cutoff)
            + if Qualifies(votes[|votes| - 1], cutoff) then {|votes| - 1} else {}
  {
  }

  lemma SelfIndicesSnoc(votes: seq<Vote>, cutoff: int)
    requires votes != []
    ensures SelfIndices(votes, cutoff)
         == SelfIndices(votes[..|votes| - 1], cutoff)
            + if QualifyingSelfVote(votes[|votes| - 1], cutoff) then {|votes| - 1} else {}
  {
  }

  /** Both counts in one left-to-right pass over the votes. */
  method CountVotes(votes: seq<Vote>, cutoff: int) returns (total: nat, selfVotes: nat)
    ensures total == QualifyingCount(votes, cutoff)
    ensures selfVotes == SelfCount(votes, cutoff)
    ensures selfVotes <= total
  {
    total, selfVotes := 0, 0;
    var i := 0;
    while i < |votes|
      invariant 0 <= i <= |votes|
      invariant total == QualifyingCount(votes[..i], cutoff)
      invariant selfVotes == SelfCount(votes[..i], cutoff)
    {
      CountsAppend(votes[..i], [votes[i]], cutoff);
      assert votes[..i + 1] == votes[..i] + [votes[i]];
      assert [votes[i]][1..] == [];
      if Qualifies(votes[i], cutoff) {
        total := total + 1;
        if IsSelfVote(votes[i]) {
          selfVotes := selfVotes + 1;
        }
      }
      i := i + 1;
    }
    assert votes[..i] == votes;
  }

  /** The votes as the caller passes them: a one-shot iterator (a Python
      generator), which yields each vote once and is empty afterwards. */
  datatype VoteStream = VoteStream(unread: seq<Vote>)

  /** Summing a generator expression over the stream reads it to its end:
      the count is taken over every unread vote and nothing is left. */
  function CountQualifyingFrom(s: VoteStream, cutoff: int): (r: (nat, VoteStream))
    ensures r.1.unread == []
    ensures r.0 <= |s.unread|
    ensures r.0 == 0 <==> forall i :: 0 <= i < |s.unread| ==> !Qualifies(s.unread[i], cutoff)
    ensures r.0 == |QualifyingIndices(s.unread, cutoff)|
  {
    QualifyingCountZeroIff(s.unread, cutoff);
    CountsAreCardinalities(s.unread, cutoff);
    (QualifyingCount(s.unread, cutoff), VoteStream([]))
  }

  function CountSelfFrom(s: VoteStream, cutoff: int): (r: (nat, VoteStream))
    ensures r.1.unread == []
    ensures r.0 == 0 <==> forall i :: 0 <= i < |s.unread| ==> !QualifyingSelfVote(s.unread[i], cutoff)
    ensures r.0 == |SelfIndices(s.unread, cutoff)|
  {
    SelfCountZeroIff(s.unread, cutoff);
    CountsAreCardinalities(s.unread, cutoff);
    (SelfCount(s.unread, cutoff), VoteStream([]))
  }

  /** `get_self_votes` as written, applied to the stream its caller hands it:
      the first sum exhausts the stream, so the second sum sees no vote and
      the percentage is always 0. */
  function GetSelfVotesAsWritten(username: string, s: VoteStream, cutoff: int): (r: real)
    ensures r == 0.0
  {
    var (total, afterTotal) := CountQualifyingFrom(s, cutoff);
    var (selfVotes, _) := CountSelfFrom(afterTotal, cutoff);
    Percentage(selfVotes, total)
  }

  /** A single qualifying self-vote: the intended percentage is 100, the
      one the code reports is 0. */
  lemma AsWrittenLosesSelfVotes(username: string, v: Vote, cutoff: int)
    requires Qualifies(v, cutoff) && IsSelfVote(v)
    ensures GetSelfVotes(username, [v], cutoff) == 100.0
    ensures GetSelfVotesAsWritten(username, VoteStream([v]), cutoff) == 0.0
  {
    CountsOfOne([v], cutoff);
  }

  /** For every stream, the code as written departs from the intended
      percentage exactly when some unread vote is a qualifying self-vote. */
  lemma AsWrittenDiffersIff(username: string, s: VoteStream, cutoff: int)
    ensures GetSelfVotesAsWritten(username, s, cutoff) != GetSelfVotes(username, s.unread, cutoff)
            <==> exists i :: 0 <= i < |s.unread| && QualifyingSelfVote(s.unread[i], cutoff)
  {
    SelfVotesZeroIff(username, s.unread, cutoff);
  }

  /** The intended statistic on the same one-shot stream: both counts are
      taken in one pass, so the stream is read once and nothing is lost. */
  method SelfVotesOnePass(username: string, s: VoteStream, cutoff: int) returns (r: real)
    ensures r == GetSelfVotes(username, s.unread, cutoff)
    ensures 0.0 <= r <= 100.0
    ensures r == 0.0 <==> forall i :: 0 <= i < |s.unread| ==> !QualifyingSelfVote(s.unread[i], cutoff)
  {
    var total, selfVotes := CountVotes(s.unread, cutoff);
    SelfCountZeroIff(s.unread, cutoff);
    r := Percentage(selfVotes, total);
  }
}
