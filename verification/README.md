# Hive account statistics — verified model of the statistics core

`checking_users.py` reads a list of Hive account names, fetches each
account's data from a Hive node, and writes a tab-separated report with one
row per account. This project models the part of that script that turns
already-fetched records into the report's numbers:

- the **self-vote percentage** (`get_self_votes`). It is meant to be the
  share of self-votes among the votes with a timestamp at or after the cutoff
  and a strictly positive weight; a self-vote is one whose voter is also the
  author of the voted content. As the caller invokes it, the function reports
  0 for every account (see "## Findings"). The model has both the code as
  written and the intended percentage;
- the **last power down** (`get_power_down`). It returns the timestamp of the
  first operation of a newest-first, kind-filtered history when that
  operation is not older than the cutoff;
- the **delegated total** (`get_vests_delegated`), the sum of the raw
  amounts of the outgoing vesting delegations;
- the two **Hive-Power ratios** of a report row (`% HP Delegated` and `KE`).
  Both are forced to 0 when the Hive Power is not positive.

The wall clock (`datetime.utcnow() - timedelta(days=30)`) becomes an explicit
integer `cutoff` parameter. Timestamps are integers, standing for the node's
already-parsed `%Y-%m-%dT%H:%M:%S` strings. Percentages and ratios are exact
`real`s, so no rounding is applied.

Files, one module each:

- `records.dfy` (`HiveRecords`): `Option`, `Vote`, `Operation` and
  `Delegation` records, and the `"withdraw_vesting"` kind name.
- `self_votes.dfy` (`SelfVotes`): the qualifying and self-vote counts, the
  percentage, and lemmas about them. The counts are also given an
  independent reading as set cardinalities, and a one-pass counting method is
  included.
- `power_down.dfy` (`PowerDown`): the first-element check, the
  `withdraw_vesting` filter the caller requests, and their composition.
- `delegations.dfy` (`Delegations`): the sum, its algebra, and the
  left-to-right accumulation.
- `ratios.dfy` (`Ratios`): the guarded ratios.

Two points where a natural reading of the tool differs from its code; the
model follows the code:

- Computed over a list of votes with exact reals, the self-vote percentage
  is 0 exactly when no qualifying vote is a self-vote. That covers more than
  "no qualifying vote at all": the result is also 0 when votes qualify but
  none of them is a self-vote. See `SelfVotes.SelfVotesZeroIff`. The code
  itself differs in two further ways: its `round(..., 2)` also turns a
  nonzero share below 0.005 percent into 0.0, and as the caller invokes it
  the result is 0 for every account (see "## Findings").
- The power-down column asks the history iterator for `withdraw_vesting`
  operations only, not `fill_vesting_withdraw`. `get_power_down` examines only
  the first operation it receives and stops there: if that operation is older
  than the cutoff, it does not go on to scan the rest.

## Model

| member | source | states |
|---|---|---|
| SelfVotes.QualifyingCount | checking_users.py:48 | the number of votes that are at or after the cutoff and have positive weight never exceeds the number of votes |
| SelfVotes.SelfCount | checking_users.py:49 | the self-vote count (voter equals author, on top of the same qualifying test) never exceeds the qualifying count |
| SelfVotes.GetSelfVotes | checking_users.py:46-51 | the intended percentage, over votes that can be read twice: it lies in [0, 100]; it is 0 when no vote qualifies; it is 0 iff there is no qualifying self-vote; with some qualifying vote, it times the qualifying count equals 100 times the self-vote count, and it is 100 when all qualifying votes are self-votes |
| SelfVotes.Percentage | checking_users.py:51 | the guarded percentage lies in [0, 100], is 0 for a zero whole and 0 iff the part is 0, times a positive whole gives 100 times the part, and is 100 when part and whole agree |
| SelfVotes.CountsAppend | checking_users.py:48-49 | both counts are additive over concatenation of vote sequences |
| SelfVotes.QualifyingCountZeroIff | checking_users.py:48 | the qualifying count is zero iff no vote is at or after the cutoff with positive weight |
| SelfVotes.SelfCountZeroIff | checking_users.py:49 | the self-vote count is zero iff no vote is a qualifying self-vote |
| SelfVotes.AllSelfIff | checking_users.py:48-49 | the two counts agree iff every qualifying vote is a self-vote |
| SelfVotes.SelfVotesZeroIff | checking_users.py:48-51 | the percentage is 0 iff no vote is a qualifying self-vote, in both directions |
| SelfVotes.AllSelfVotesGiveHundred | checking_users.py:48-51 | if some vote qualifies and every qualifying vote is a self-vote, the percentage is 100 |
| SelfVotes.NoSelfVotesGiveZero | checking_users.py:48-51 | if no qualifying vote is a self-vote, the percentage is 0 |
| SelfVotes.IgnoresNonQualifying | checking_users.py:48-49 | inserting a vote that is older than the cutoff or has non-positive weight anywhere in the sequence leaves the percentage unchanged |
| SelfVotes.OnlyQualifying | checking_users.py:48 | the filtered sequence holds only qualifying votes, and each qualifying vote of the input occurs in it exactly as often as in the input |
| SelfVotes.OnlyQualifyingAppend | checking_users.py:48 | the filter keeps the original order: filtering a concatenation gives the concatenation of the filtered parts |
| SelfVotes.OnlyQualifyingCounts | checking_users.py:48-49 | filtering down to the qualifying votes preserves both counts |
| SelfVotes.FilteringOldVotesIsHarmless | checking_users.py:46-51 | the percentage of the filtered sequence equals the percentage of the original |
| SelfVotes.UsernameIrrelevant | checking_users.py:46 | the account name argument has no influence on the percentage |
| SelfVotes.CutoffInclusive | checking_users.py:48-49 | a positive-weight vote stamped exactly at the cutoff counts: alone it gives 100 if it is a self-vote and 0 otherwise |
| SelfVotes.OneSelfOneOther | checking_users.py:48-51 | one qualifying self-vote and one qualifying vote on another author's content give 50, in either order |
| SelfVotes.CountsAreCardinalities | checking_users.py:48-49 | each count equals the cardinality of the set of indices of qualifying votes (resp. qualifying self-votes) |
| SelfVotes.CountVotes | checking_users.py:48-49 | the corrected counting, not the source's two passes: a single left-to-right pass returns the qualifying count and the self-vote count, with the second no larger than the first |
| SelfVotes.CountQualifyingFrom | checking_users.py:48 | summing over the one-shot vote stream leaves it empty; the count equals the number of positions of qualifying unread votes, is at most the number of unread votes, and is 0 iff none of them qualifies |
| SelfVotes.CountSelfFrom | checking_users.py:49 | summing over the one-shot vote stream leaves it empty; the count equals the number of positions of qualifying unread self-votes, and is 0 iff there is none |
| SelfVotes.GetSelfVotesAsWritten | checking_users.py:46-51 | on the one-shot stream the caller passes (line 107), the second sum sees an exhausted stream, so the percentage is always 0 |
| SelfVotes.AsWrittenLosesSelfVotes | checking_users.py:46-51 | for a single qualifying self-vote the intended percentage is 100, while the code as written reports 0 |
| SelfVotes.AsWrittenDiffersIff | checking_users.py:46-51 | on every stream, the code as written differs from the intended percentage iff some unread vote is a qualifying self-vote |
| SelfVotes.SelfVotesOnePass | checking_users.py:46-51 | the corrected statistic on a one-shot stream equals the intended percentage of its votes, lies in [0, 100], and is 0 iff no vote is a qualifying self-vote |
| PowerDown.GetPowerDown | checking_users.py:36-44 | None on an empty sequence; a timestamp is returned iff the first operation is at or after the cutoff, and it is that operation's timestamp, so it is never older than the cutoff |
| PowerDown.OnlyFirstMatters | checking_users.py:38-43 | operations after the first never influence the result |
| PowerDown.OnlyKind | checking_users.py:105 | the requested kind filter keeps only operations of that kind, and every such operation is a member of the result; the result is empty iff the history holds no operation of the kind; otherwise its head is the first operation of the kind in the history |
| PowerDown.OnlyKindMultiplicity | checking_users.py:105 | each operation of the kind occurs in the filtered history as often as in the history, and no other operation occurs |
| PowerDown.OnlyKindAppend | checking_users.py:105 | the filter preserves order: filtering a concatenation gives the concatenation of the filtered parts |
| PowerDown.LastPowerDown | checking_users.py:105 | the power-down column is present iff the first withdraw_vesting operation of the history is at or after the cutoff, and then it is that operation's timestamp |
| PowerDown.LastPowerDownIsNewestInWindow | checking_users.py:36-44 | on a newest-first history, a timestamp is reported iff some withdraw_vesting operation lies at or after the cutoff, and it is the newest withdraw_vesting timestamp |
| Delegations.VestsDelegated | checking_users.py:33-34 | with non-negative amounts the total is non-negative and at least every single amount |
| Delegations.EmptyIsZero | checking_users.py:33-34 | no delegations give a total of 0 |
| Delegations.VestsDelegatedAppend | checking_users.py:33-34 | the total is additive over concatenation of delegation lists |
| Delegations.VestsDelegatedPermutation | checking_users.py:33-34 | the total does not depend on the order in which the delegations are listed |
| Delegations.SumDelegations | checking_users.py:34 | the left-to-right accumulation yields the delegated total |
| Ratios.HpRatios | checking_users.py:100-110 | with Hive Power not positive both ratios are 0 and nothing is divided; otherwise percentage times HP equals 100 times delegated HP, and KE times HP times 1000 equals the raw rewards |
| Ratios.PercentageBounds | checking_users.py:109 | if the delegated HP lies between 0 and the HP, the percentage lies in [0, 100] |
| Ratios.PercentageExtremes | checking_users.py:109 | with positive HP the percentage is 100 iff all of it is delegated, and 0 iff none of it is |
| Ratios.KeSign | checking_users.py:100-110 | with positive HP, KE is non-negative iff the rewards are |

## Findings

| source | as written | input that shows it | evidently intended | confidence | as-written member | corrected member |
|---|---|---|---|---|---|---|
| checking_users.py:48-49,107 | `get_self_votes` iterates `votes` twice, once per `sum`, but the caller passes beem's `history_reverse(...)`, a generator. The first `sum` exhausts it, so `self_votes` is always 0 | one vote with weight > 0, stamped after the cutoff, with voter equal to author: the report shows 0.0 instead of 100.0 | both counts taken over the same votes, e.g. in a single pass or after `list(...)` | high that the column is always 0 given beem's generator; not executed | SelfVotes.GetSelfVotesAsWritten, SelfVotes.AsWrittenLosesSelfVotes, SelfVotes.AsWrittenDiffersIff | SelfVotes.SelfVotesOnePass, SelfVotes.GetSelfVotes |

## Left out

- `get_rep` (checking_users.py:10-31): a JSON-RPC call over the network. Its
  reputation formula uses the floating-point `math.log10` and `round`.
- The `beem` library objects (`Hive`, `Account`, `history_reverse`,
  `get_vesting_delegations`, `vests_to_hp`; checking_users.py:82,92,101-107).
  This is foreign code. Its outputs become inputs of the model: vote and
  operation sequences (the vote stream as a one-shot `SelfVotes.VoteStream`
  where its single-use nature matters), delegation lists, and the Hive Power figures `hp` and
  `hpDelegated`. The `stop=` argument of `history_reverse` is beem's own
  early termination; the model keeps only the `only_ops` kind filter
  (`PowerDown.OnlyKind`) and the cutoff check inside `get_power_down`.
- The caller's own scaling of the delegated figure, `/ 1_000_000` at
  checking_users.py:104, which turns raw millionths of VESTS into VESTS. The
  model takes `hpDelegated` as the already-scaled value, so this division is
  outside the model along with `vests_to_hp`.
- Every `round(..., 2)`, which is floating-point rounding. All percentages and
  ratios are exact reals.
- Timestamp parsing with `datetime.strptime` and amount parsing with `int(...)`
  / `float(...split(" ")[0])` (checking_users.py:28,34,39,48,49). Timestamps and
  amounts are integers already. A malformed string, which would raise in
  Python, is not modelled.
- The wall clock. Each of `get_power_down`, `get_self_votes` and the caller
  reads `datetime.utcnow()` separately; the model uses one `cutoff` parameter.
- Command-line parsing, spreadsheet reading and filtering, TSV writing, the
  per-account `try`/`except`, and console output (checking_users.py:53-121).
  These are I/O and plumbing.
- SelfVotes.GetSelfVotes: the source returns the integer `0` rather than a
  float when no vote qualifies; both are the real 0 here.
