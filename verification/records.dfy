/**
 * Records the statistics are computed from. They stand for entries already
 * fetched from a Hive node: timestamps are whole seconds (the node's
 * "%Y-%m-%dT%H:%M:%S" strings, already parsed) and amounts are the raw
 * integers the node reports.
 */
module HiveRecords {

  /** A value that may be absent (Python's `None`). */
  datatype Option<+T> = None | Some(value: T)

  /** One `vote` operation from an account's history. */
  datatype Vote = Vote(voter: string, author: string, weight: int, timestamp: int)

  /** One history operation of any kind, e.g. "withdraw_vesting" or "vote". */
  datatype Operation = Operation(kind: string, timestamp: int)

  /** One outgoing vesting delegation; `amount` is in raw VESTS units
      (millionths). Only `amount` enters the total; `delegatee` is kept so
      that a record reads like the node's entry. */
  datatype Delegation = Delegation(delegatee: string, amount: int)

  /** The operation kind the report treats as a power-down. */
  const WithdrawVesting: string := "withdraw_vesting"
}
