/** What the two "create" forms share: a submit either stops at the
    required-field check, with no request sent, or posts a payload, and the
    endpoint answers with success, a reported failure, or not at all. */
module Forms {

  datatype Submission<+P> = Rejected | Posted(payload: P)

  /** `result.success` true, `result.success` false, or the `catch` branch
      (network error). */
  datatype Reply = Succeeded | Failed | Unreachable
}
