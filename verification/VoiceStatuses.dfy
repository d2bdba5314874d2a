/** The status of one employee's answer within a cycle. */
module VoiceStatuses {

  /** The six values of the vocabulary, or some other string found in the table. */
  datatype Status = Pending | Safe | Injured | Unavailable | Other | Unreachable | Unrecognised(raw: string)

  /** An answer was given. */
  predicate Confirmed(s: Status) { s.Safe? || s.Injured? || s.Unavailable? }

  /** No more outbound work for this employee in this cycle. */
  predicate Terminal(s: Status) { Confirmed(s) || s.Unreachable? }

  /** Subject to a retry, and to the rewrite at the time limit. */
  predicate Rewritable(s: Status) { s.Pending? || s.Other? }
}
