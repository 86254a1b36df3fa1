/** The process counter and the token-refresh decision of `constants.py`. */
module Session {
  import opened Wrappers

  /** `is_process_counter_exceed_limit` compares against this bound. */
  const ProcessLimit: int := 100

  /** The module-global `process_counter`, as a value threaded through its
      callers. Python integers do not wrap, so neither does `count`. */
  datatype ProcessCounter = ProcessCounter(count: int)
  {
    /** `is_process_counter_exceed_limit`. */
    predicate ExceedsLimit()
    {
      count > ProcessLimit
    }

    /** `increment_process_counter`. The limit test turns true only when the
        counter stood exactly at the limit. */
    function Increment(): (c: ProcessCounter)
      ensures c.ExceedsLimit() <==> ExceedsLimit() || count == ProcessLimit
    {
      ProcessCounter(count + 1)
    }

    /** `decrement_process_counter`. The limit test turns false only when the
        counter stood exactly one above the limit. */
    function Decrement(): (c: ProcessCounter)
      ensures !c.ExceedsLimit() <==> !ExceedsLimit() || count == ProcessLimit + 1
    {
      ProcessCounter(count - 1)
    }
  }

  /** An increment and a decrement undo each other, in either order. */
  lemma IncrementDecrementInverse(c: ProcessCounter)
    ensures c.Increment().Decrement() == c && c.Decrement().Increment() == c
  {
  }

  /** A call to one of the two counter updates. */
  datatype CounterOp = Inc | Dec

  /** The counter after a run of updates, applied left to right. */
  function Apply(c: ProcessCounter, ops: seq<CounterOp>): ProcessCounter
    decreases |ops|
  {
    if |ops| == 0 then c
    else Apply(if ops[0] == Inc then c.Increment() else c.Decrement(), ops[1..])
  }

  function Occurrences(ops: seq<CounterOp>, op: CounterOp): nat
  {
    if |ops| == 0 then 0 else (if ops[0] == op then 1 else 0) + Occurrences(ops[1..], op)
  }

  /** Each increment raises the counter by exactly one and each decrement
      lowers it by exactly one, whatever the order of the calls. */
  lemma {:induction false} ApplyCount(c: ProcessCounter, ops: seq<CounterOp>)
    ensures Apply(c, ops).count == c.count + Occurrences(ops, Inc) - Occurrences(ops, Dec)
    decreases |ops|
  {
    if |ops| > 0 {
      ApplyCount(if ops[0] == Inc then c.Increment() else c.Decrement(), ops[1..]);
    }
  }

  /** As many decrements as increments leave the counter where it was; in
      particular an increment followed by a decrement. */
  lemma BalancedRunRestores(c: ProcessCounter, ops: seq<CounterOp>)
    requires Occurrences(ops, Inc) == Occurrences(ops, Dec)
    ensures Apply(c, ops) == c
  {
    ApplyCount(c, ops);
  }

  /** Starting from the initial 0, the limit test turns true exactly when more
      than 100 units have been started and not yet finished. */
  lemma LimitFromZero(ops: seq<CounterOp>)
    ensures Apply(ProcessCounter(0), ops).ExceedsLimit() <==> Occurrences(ops, Inc) - Occurrences(ops, Dec) > ProcessLimit
  {
    ApplyCount(ProcessCounter(0), ops);
  }

  /** The pydrive credential fields `check_and_refresh_token` reads, with the
      expiry as seconds since the epoch like `time.time()`. */
  datatype Credentials = Credentials(accessToken: string, refreshToken: Option<string>, tokenExpiry: real)

  /** The side effects of a refresh: the call to `gauth.Refresh()` and the save
      of the credentials to the path `CREDENTIALS_FILE_PATH` names. */
  datatype TokenEffect = RefreshCall | SaveCredentials(path: Option<string>)

  /** Why `check_and_refresh_token` raised: no refresh token, `gauth.Refresh()`
      raised, or `gauth.SaveCredentialsFile` raised (for instance with
      `CREDENTIALS_FILE_PATH` unset and no default file configured, or a write
      error). `Refresh()` has already replaced the credentials in place when
      the save raises, so `SaveFailed` carries the renewed credentials.
      `ExpiryTypeError` is the `TypeError` of the code as written; see
      `CheckAndRefreshTokenAsWritten`. */
  datatype AuthError = NoRefreshToken | RefreshFailed | SaveFailed(renewed: Credentials) | ExpiryTypeError

  datatype TokenCheck = TokenCheck(credentials: Credentials, effects: seq<TokenEffect>)

  /** Refresh once fewer than this many seconds of validity remain. */
  const RefreshMargin: real := 300.0

  /** `check_and_refresh_token` at time `now`, with the expiry in seconds.
      `serverReply` is what `gauth.Refresh()` leaves in the credentials, or
      `None` when it raises; `saveSucceeds` says whether `SaveCredentialsFile`
      returns normally. */
  function CheckAndRefreshToken(creds: Credentials, now: real, serverReply: Option<Credentials>, credentialsPath: Option<string>, saveSucceeds: bool)
    : (r: Result<TokenCheck, AuthError>)
    ensures creds.refreshToken.None? ==> r == Failure(NoRefreshToken)
    ensures r.Success? && r.value.effects == [] <==> creds.refreshToken.Some? && creds.tokenExpiry - now >= RefreshMargin
    ensures r.Success? && r.value.effects == [] ==> r.value.credentials == creds
    ensures r.Success? && r.value.effects != [] <==>
      creds.refreshToken.Some? && creds.tokenExpiry - now < RefreshMargin && serverReply.Some? && saveSucceeds
    ensures r.Success? && r.value.effects != [] ==>
      r.value == TokenCheck(serverReply.value, [RefreshCall, SaveCredentials(credentialsPath)])
    ensures r == Failure(RefreshFailed) <==>
      creds.refreshToken.Some? && creds.tokenExpiry - now < RefreshMargin && serverReply.None?
    ensures r.Failure? && r.error.SaveFailed? <==>
      creds.refreshToken.Some? && creds.tokenExpiry - now < RefreshMargin && serverReply.Some? && !saveSucceeds
    ensures r.Failure? && r.error.SaveFailed? ==> r == Failure(SaveFailed(serverReply.value))
    ensures r != Failure(ExpiryTypeError)
  {
    if creds.refreshToken.None? then Failure(NoRefreshToken)
    else if creds.tokenExpiry - now < RefreshMargin then
      match serverReply
      case None => Failure(RefreshFailed)
      case Some(renewed) =>
        if saveSucceeds then Success(TokenCheck(renewed, [RefreshCall, SaveCredentials(credentialsPath)]))
        else Failure(SaveFailed(renewed))
    else Success(TokenCheck(creds, []))
  }

  /** The expiry as PyDrive's oauth2client credentials actually hold it: a
      `datetime`, not a number of seconds. */
  datatype ExpiryValue = DateTime(secondsSinceEpoch: real)

  /** `check_and_refresh_token` as written, on credentials whose expiry is a
      `datetime`: `token_expiry - time.time()` subtracts a float from a
      `datetime`, which raises `TypeError`, so a present refresh token never
      gets past the expiry test. */
  function CheckAndRefreshTokenAsWritten(refreshToken: Option<string>, expiry: ExpiryValue, now: real): (r: Result<TokenCheck, AuthError>)
    ensures r.Failure?
    ensures r.error == NoRefreshToken <==> refreshToken.None?
    ensures refreshToken.Some? ==> r == Failure(ExpiryTypeError)
  {
    if refreshToken.None? then Failure(NoRefreshToken) else Failure(ExpiryTypeError)
  }

  /** The code as written never refreshes, even for a token that expired long
      ago, while the intended rule refreshes it. */
  lemma AsWrittenNeverRefreshes(accessToken: string, token: string, expiresAt: real, now: real, reply: Credentials, path: Option<string>)
    requires expiresAt - now < RefreshMargin
    ensures CheckAndRefreshTokenAsWritten(Some(token), DateTime(expiresAt), now) == Failure(ExpiryTypeError)
    ensures CheckAndRefreshToken(Credentials(accessToken, Some(token), expiresAt), now, Some(reply), path, true)
      == Success(TokenCheck(reply, [RefreshCall, SaveCredentials(path)]))
  {
  }

  /** A refresh that yields a token valid for at least 300 more seconds and
      keeps a refresh token makes any later check up to that point a no-op. */
  lemma RefreshedTokenIsLeftAlone(creds: Credentials, now: real, later: real, reply: Credentials, nextReply: Option<Credentials>, path: Option<string>, nextSave: bool)
    requires creds.refreshToken.Some? && creds.tokenExpiry - now < RefreshMargin
    requires reply.refreshToken.Some? && reply.tokenExpiry - later >= RefreshMargin
    ensures var first := CheckAndRefreshToken(creds, now, Some(reply), path, true);
      && first.Success?
      && CheckAndRefreshToken(first.value.credentials, later, nextReply, path, nextSave) == Success(TokenCheck(reply, []))
  {
  }
}
