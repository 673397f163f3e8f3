/**
 * The "last power down" column. The history is delivered newest first and
 * already restricted to one operation kind by the caller; the function itself
 * only looks at the first operation it is given.
 */
module PowerDown {
  import opened HiveRecords

  /** The timestamp of the first operation when it is not older than the
      cutoff (the cutoff itself included); `None` when the sequence is empty
      or the first operation is older. Later operations are never examined
      and the operation kind is not consulted. */
  function GetPowerDown(ops: seq<Operation>, cutoff: int): (r: Option<int>)
    ensures r.Some? <==> |ops| > 0 && ops[0].timestamp >= cutoff
    ensures r.Some? ==> r.value == ops[0].timestamp && r.value >= cutoff
  {
    if |ops| == 0 then None
    else if ops[0].timestamp < cutoff then None
    else Some(ops[0].timestamp)
  }

  /** Only the first operation matters: whatever follows it is irrelevant. */
  lemma OnlyFirstMatters(op: Operation, rest1: seq<Operation>, rest2: seq<Operation>, cutoff: int)
    ensures GetPowerDown([op] + rest1, cutoff) == GetPowerDown([op] + rest2, cutoff)
  {
  }

  /** The operations of one kind, in their original order (the `only_ops`
      filter the caller asks the history iterator to apply). */
  function OnlyKind(history: seq<Operation>, kind: string): (r: seq<Operation>)
    ensures |r| <= |history|
    ensures forall i :: 0 <= i < |r| ==> r[i].kind == kind
    ensures forall op :: op in r <==> op in history && op.kind == kind
    ensures r != [] ==> exists j :: FirstOfKind(history, kind, j) && r[0] == history[j]
    ensures r == [] <==> forall j :: 0 <= j < |history| ==> history[j].kind != kind
  {
    if history == [] then []
    else
      var rest := OnlyKind(history[1..], kind);
      assert history == [history[0]] + history[1..];
      if history[0].kind == kind then
        assert FirstOfKind(history, kind, 0);
        [history[0]] + rest
      else
        FirstOfKindSkip(history, kind, rest);
        rest
  }

  /** Skipping an operation of another kind shifts the first one of `kind`
      by one position. */
  lemma FirstOfKindSkip(history: seq<Operation>, kind: string, rest: seq<Operation>)
    requires |history| > 0 && history[0].kind != kind
    requires rest != [] ==> exists j :: FirstOfKind(history[1..], kind, j) && rest[0] == history[1..][j]
    ensures rest != [] ==> exists j :: FirstOfKind(history, kind, j) && rest[0] == history[j]
  {
    if rest != [] {
      var j :| FirstOfKind(history[1..], kind, j) && rest[0] == history[1..][j];
      assert FirstOfKind(history, kind, j + 1);
    }
  }

  /** `history[j]` is the first operation of the given kind. */
  predicate FirstOfKind(history: seq<Operation>, kind: string, j: int) {
    0 <= j < |history| && history[j].kind == kind
    && forall k :: 0 <= k < j ==> history[k].kind != kind
  }

  /** The filter keeps every operation of the kind as often as it occurs,
      and no other operation. */
  lemma {:induction false} OnlyKindMultiplicity(history: seq<Operation>, kind: string)
    ensures forall op :: multiset(OnlyKind(history, kind))[op]
                           == if op.kind == kind then multiset(history)[op] else 0
  {
    if history != [] {
      OnlyKindMultiplicity(history[1..], kind);
      assert history == [history[0]] + history[1..];
      assert multiset(history) == multiset{history[0]} + multiset(history[1..]);
    }
  }

  /** The filter keeps the original order: filtering a concatenation is
      concatenating the filtered parts. */
  lemma {:induction false} OnlyKindAppend(a: seq<Operation>, b: seq<Operation>, kind: string)
    ensures OnlyKind(a + b, kind) == OnlyKind(a, kind) + OnlyKind(b, kind)
  {
    if a == [] {
      assert a + b == b;
    } else {
      assert (a + b)[1..] == a[1..] + b;
      OnlyKindAppend(a[1..], b, kind);
    }
  }

  /** The report's power-down column: the power-down check applied to the
      withdraw_vesting operations of the account's history. */
  function LastPowerDown(history: seq<Operation>, cutoff: int): (r: Option<int>)
    ensures r.Some? ==> r.value >= cutoff
    ensures r.Some? ==> exists i :: 0 <= i < |history| && history[i].kind == WithdrawVesting
                                    && history[i].timestamp == r.value
    ensures r.Some? <==> exists j :: FirstOfKind(history, WithdrawVesting, j) && history[j].timestamp >= cutoff
    ensures forall j :: FirstOfKind(history, WithdrawVesting, j) && history[j].timestamp >= cutoff ==>
                          r == Some(history[j].timestamp)
  {
    var withdrawals := OnlyKind(history, WithdrawVesting);
    FilteredHeadIsFirstOfKind(history, WithdrawVesting);
    GetPowerDown(withdrawals, cutoff)
  }

  /** Only one position holds the first operation of a kind. */
  lemma FirstOfKindUnique(history: seq<Operation>, kind: string, j1: int, j2: int)
    requires FirstOfKind(history, kind, j1) && FirstOfKind(history, kind, j2)
    ensures j1 == j2
  {
  }

  /** The head of the filtered history is the first operation of the kind,
      whichever position that is. */
  lemma FilteredHeadIsFirstOfKind(history: seq<Operation>, kind: string)
    ensures forall j :: FirstOfKind(history, kind, j) ==>
              OnlyKind(history, kind) != [] && OnlyKind(history, kind)[0] == history[j]
  {
    var r := OnlyKind(history, kind);
    forall j | FirstOfKind(history, kind, j)
      ensures r != [] && r[0] == history[j]
    {
      assert history[j] in history;
      var j' :| FirstOfKind(history, kind, j') && r[0] == history[j'];
      FirstOfKindUnique(history, kind, j, j');
    }
  }

  /** The history iterator yields operations newest first. */
  predicate NewestFirst(history: seq<Operation>) {
    forall i, j :: 0 <= i < j < |history| ==> history[j].timestamp <= history[i].timestamp
  }

  predicate InWindow(op: Operation, cutoff: int) {
    op.kind == WithdrawVesting && op.timestamp >= cutoff
  }

  /** No withdrawal in the history is stamped later than `t`. */
  predicate NoNewerWithdrawal(history: seq<Operation>, t: int) {
    forall i :: 0 <= i < |history| && history[i].kind == WithdrawVesting ==> history[i].timestamp <= t
  }

  /** On a newest-first history, looking only at the first withdrawal is the
      same as scanning the whole window: a timestamp is reported exactly when
      some withdrawal lies in the window, and it is the newest one. */
  lemma LastPowerDownIsNewestInWindow(history: seq<Operation>, cutoff: int)
    requires NewestFirst(history)
    ensures LastPowerDown(history, cutoff).Some? <==>
              exists i :: 0 <= i < |history| && InWindow(history[i], cutoff)
    ensures LastPowerDown(history, cutoff).Some? ==>
              NoNewerWithdrawal(history, LastPowerDown(history, cutoff).value)
  {
  }
}
