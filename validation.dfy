/**
 * The argument checks that the renderer's entry point performs on the parsed
 * `--start` and `--end` years before it touches the dataset
 * (code/plot_tempanomaly.py, lines 47-65).
 */
module Validation {
  import opened Outcomes

  /** The five checks, each named after the condition that makes it fail. */
  datatype Check =
    | StartNotBeforeEnd   // start >= end
    | StartTooEarly       // start < 2000
    | StartTooLate        // start > 2023
    | EndTooEarly         // end < 2001
    | EndTooLate          // end > 2024

  /** Position of a check in the order the script performs them. */
  function Rank(c: Check): nat
  {
    match c
    case StartNotBeforeEnd => 0
    case StartTooEarly => 1
    case StartTooLate => 2
    case EndTooEarly => 3
    case EndTooLate => 4
  }

  /** Whether check `c` rejects the pair (start, end). */
  predicate Fails(c: Check, start: int, end: int)
    ensures Fails(c, start, end) ==> !Supported(start, end)
  {
    match c
    case StartNotBeforeEnd => start >= end
    case StartTooEarly => start < 2000
    case StartTooLate => start > 2023
    case EndTooEarly => end < 2001
    case EndTooLate => end > 2024
  }

  /** The exact text written to standard error when `c` is the reported check. */
  function Message(c: Check): (m: string)
    ensures |m| > 8 && "Error: " <= m && m[|m| - 1] == '\n'
  {
    match c
    case StartNotBeforeEnd => "Error: Start date must be before end date.\n"
    case StartTooEarly => "Error: Start date must be 2000 or later.\n"
    case StartTooLate => "Error: Start date must be before 2023.\n"
    case EndTooEarly => "Error: End date must be after 2001.\n"
    case EndTooLate => "Error: End date must be no later than 2024.\n"
  }

  /** The year ranges the renderer accepts, stated independently of the checks. */
  predicate Supported(start: int, end: int)
  {
    2000 <= start <= 2023 && 2001 <= end <= 2024 && start < end
  }

  /**
   * The validation chain: `None` when every check passes, otherwise the first
   * check (in the script's order) that fails.
   */
  function Validate(start: int, end: int): (r: Option<Check>)
    ensures r.None? <==> Supported(start, end)
    ensures r.Some? ==> Fails(r.value, start, end)
    ensures r.Some? ==> forall c :: Rank(c) < Rank(r.value) ==> !Fails(c, start, end)
  {
    if start >= end then Some(StartNotBeforeEnd)
    else if start < 2000 then Some(StartTooEarly)
    else if start > 2023 then Some(StartTooLate)
    else if end < 2001 then Some(EndTooEarly)
    else if end > 2024 then Some(EndTooLate)
    else None
  }

  /** Two different checks never report the same message. */
  lemma MessagesDistinct(c: Check, d: Check)
    requires c != d
    ensures Message(c) != Message(d)
  {
    // the five messages have five different lengths
    assert |Message(c)| != |Message(d)|;
  }

  /**
   * The fourth check is dead: once start < end and start >= 2000 hold, end is at
   * least 2001, so "End date must be after 2001." is never reported.
   */
  lemma EndTooEarlyNeverReported(start: int, end: int)
    ensures Validate(start, end) != Some(EndTooEarly)
  {
  }

  /**
   * Whenever the third check reports, the fifth would fail too: a start after
   * 2023 with start < end forces end past 2024.
   */
  lemma StartTooLateMasksEndTooLate(start: int, end: int)
    requires Validate(start, end) == Some(StartTooLate)
    ensures Fails(EndTooLate, start, end)
  {
  }
}
