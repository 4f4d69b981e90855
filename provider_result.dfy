/**
 * How OpenPGPCrypto.handleResult turns the provider's reply into the two
 * result flags. The result codes are those of the OpenPGP API library.
 */
module ProviderResult {
  import opened Wrappers

  const ResultCodeError: int := 0
  const ResultCodeSuccess: int := 1
  const ResultCodeUserInteractionRequired: int := 2

  /** The pending intent that hands a user-interaction step to the host; only whether it is present matters. */
  datatype PendingIntent = PendingIntent(id: nat)

  /** The reply of executeApi: its RESULT_CODE extra and its RESULT_INTENT extra, each possibly absent. */
  datatype Response = Response(code: Option<int>, intent: Option<PendingIntent>)

  /** successFlag and errorFlag. */
  datatype Flags = Flags(success: bool, error: bool)

  /** The code handleResult switches on: RESULT_CODE, or RESULT_CODE_ERROR when the extra is absent. */
  function ResultCode(r: Response): (c: int)
    ensures c == ResultCodeError <==> r.code.None? || r.code == Some(ResultCodeError)
    ensures r.code.Some? ==> c == r.code.value
  {
    match r.code
    case Some(c) => c
    case None => ResultCodeError
  }

  /** The reply makes handleResult raise errorFlag. */
  predicate IsErrorReply(r: Response)
  {
    ResultCode(r) == ResultCodeError
    || (ResultCode(r) == ResultCodeUserInteractionRequired && r.intent.None?)
  }

  /**
   * The flags after handleResult: successFlag is reset and raised only for
   * SUCCESS; errorFlag is raised for ERROR (or a missing code) and for a
   * user-interaction reply without an intent, and is otherwise left as it was.
   */
  function AfterResult(r: Response, before: Flags): (after: Flags)
    ensures after.success <==> ResultCode(r) == ResultCodeSuccess
    ensures after.error <==> before.error || IsErrorReply(r)
    ensures !before.error ==> !(after.success && after.error)
  {
    var code := ResultCode(r);
    if code == ResultCodeSuccess then Flags(true, before.error)
    else if code == ResultCodeUserInteractionRequired then
      (if r.intent.None? then Flags(false, true) else Flags(false, before.error))
    else if code == ResultCodeError then Flags(false, true)
    else Flags(false, before.error)
  }

  /**
   * From errorFlag == false, handleResult has exactly four outcomes; in the two
   * where neither flag is raised (an intent was sent to the host, or the code
   * is unknown) the waiting that follows cannot end early.
   */
  lemma ResultOutcomes(r: Response, success: bool)
    ensures var after := AfterResult(r, Flags(success, false));
      && (after == Flags(true, false) <==> ResultCode(r) == ResultCodeSuccess)
      && (after == Flags(false, true) <==> IsErrorReply(r))
      && (after == Flags(false, false) <==>
            (ResultCode(r) == ResultCodeUserInteractionRequired && r.intent.Some?)
            || ResultCode(r) !in {ResultCodeError, ResultCodeSuccess, ResultCodeUserInteractionRequired})
      && after != Flags(true, true)
  {
  }
}
