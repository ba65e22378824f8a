/**
 How the transaction manager classifies what a database step throws.
 */
module TransactionErrors {
  import opened Wrappers

  datatype DatabaseErrorType =
    | ConnectionError | ConstraintViolation | ForeignKeyViolation | UniqueViolation
    | NotNullViolation | CheckViolation | Deadlock | Timeout | SerializationFailure | UnknownError

  /** What the `code` of an error tells the conversion. */
  datatype Code =
    | Known(kind: DatabaseErrorType)
    | Duplicate     // a domain code that starts with DUPLICATE_
    | Unlisted      // another code, or none

  /** A thrown value, with the properties that the classification reads. */
  datatype Thrown =
    | Raw(message: string, hasResponse: bool, hasStatus: bool, statusCode: Option<int>,
          nameSaysException: bool, hasGetStatus: bool, code: Code, isQueryFailed: bool)
    | DatabaseException(kind: DatabaseErrorType, original: Thrown)
    | ConflictException(text: string)

  /** HTTP exceptions are business errors and are never wrapped or retried. */
  predicate IsHttpException(e: Thrown) {
    match e
    case Raw(_, hasResponse, hasStatus, statusCode, nameSaysException, hasGetStatus, _, _) =>
      || (hasResponse && hasStatus)
      || (statusCode.Some? && 400 <= statusCode.value < 600)
      || (nameSaysException && hasGetStatus)
    case DatabaseException(_, _) => false
    case ConflictException(_) => true
  }

  /** Reads the code that the driver or the domain put on the error. */
  function ReadCode(text: Option<string>): Code {
    if text.None? then Unlisted
    else
      var code := text.value;
      if "DUPLICATE_" <= code then Duplicate
      else if code in ["ECONNREFUSED", "ENOTFOUND", "ETIMEDOUT", "08000", "08003", "08006"] then Known(ConnectionError)
      else if code in ["23000", "23001"] then Known(ConstraintViolation)
      else if code == "23503" then Known(ForeignKeyViolation)
      else if code == "23505" then Known(UniqueViolation)
      else if code == "23502" then Known(NotNullViolation)
      else if code == "23514" then Known(CheckViolation)
      else if code == "40P01" then Known(Deadlock)
      else if code == "40001" then Known(SerializationFailure)
      else if code in ["57014", "57P01"] then Known(Timeout)
      else Unlisted
  }

  /** The conversion either returns an exception or throws one itself. */
  datatype Conversion = Returns(e: Thrown) | Throws(e: Thrown)

  function HandleDatabaseError(e: Thrown): (r: Conversion)
    ensures r.Returns? ==> r.e.DatabaseException? && r.e.original == e
    ensures r.Throws? ==> IsHttpException(r.e)
  {
    if IsHttpException(e) then Throws(e)
    else
      match e
      case DatabaseException(_, _) => Returns(DatabaseException(UnknownError, e))   // it has no `code`
      case Raw(message, _, _, _, _, _, code, isQueryFailed) =>
        if code.Duplicate? then Throws(ConflictException(message))
        else if code.Known? then Returns(DatabaseException(code.kind, e))
        else if isQueryFailed then Returns(DatabaseException(ConstraintViolation, e))
        else Returns(DatabaseException(UnknownError, e))
  }

  predicate IsRetryableError(kind: DatabaseErrorType) {
    kind.Deadlock? || kind.SerializationFailure? || kind.ConnectionError? || kind.Timeout?
  }

  /** What the retry loop does with an error: give up with `e`, or try again if attempts are left. */
  datatype Verdict = GiveUp(e: Thrown) | TryAgain(e: Thrown)

  function Judge(e: Thrown): Verdict {
    if IsHttpException(e) then GiveUp(e)
    else
      match HandleDatabaseError(e)
      case Throws(x) => GiveUp(x)
      case Returns(x) => if IsRetryableError(x.kind) then TryAgain(x) else GiveUp(x)
  }

  /** An error is retried exactly if it comes raw from the driver with a code of one of four kinds. */
  lemma RetriedErrors(e: Thrown)
    ensures Judge(e).TryAgain? <==>
            e.Raw? && !IsHttpException(e) && e.code.Known? && IsRetryableError(e.code.kind)
    ensures Judge(e).TryAgain? ==> Judge(e).e == DatabaseException(e.code.kind, e)
  {
  }

  const RETRYABLE_CODES := ["ECONNREFUSED", "ENOTFOUND", "ETIMEDOUT", "08000", "08003", "08006",
                            "40P01", "40001", "57014", "57P01"]

  /** These are the errors with one of ten codes. */
  lemma RetriedCodes(e: Thrown, text: Option<string>)
    requires e.Raw? && e.code == ReadCode(text) && !IsHttpException(e)
    ensures Judge(e).TryAgain? <==> text.Some? && text.value in RETRYABLE_CODES
  {
    RetriedErrors(e);
    if text.Some? && text.value in RETRYABLE_CODES {
      var i :| 0 <= i < |RETRYABLE_CODES| && RETRYABLE_CODES[i] == text.value;
      assert text.value[0] != 'D';
    }
  }

  /** The kind that each known code of the driver stands for. */
  const CODE_KINDS: seq<(string, DatabaseErrorType)> := [
    ("ECONNREFUSED", ConnectionError), ("ENOTFOUND", ConnectionError), ("ETIMEDOUT", ConnectionError),
    ("08000", ConnectionError), ("08003", ConnectionError), ("08006", ConnectionError),
    ("23000", ConstraintViolation), ("23001", ConstraintViolation), ("23503", ForeignKeyViolation),
    ("23505", UniqueViolation), ("23502", NotNullViolation), ("23514", CheckViolation), ("40P01", Deadlock),
    ("40001", SerializationFailure), ("57014", Timeout), ("57P01", Timeout)]

  /** The error has the shape of a business error: a response with status, a status code, or an exception name. */
  predicate IsBusinessError(e: Thrown) {
    && e.Raw?
    && (|| (e.hasResponse && e.hasStatus)
        || (e.statusCode.Some? && 400 <= e.statusCode.value <= 599)
        || (e.nameSaysException && e.hasGetStatus))
  }

  lemma CodeIsRead(i: nat)
    requires i < |CODE_KINDS|
    ensures ReadCode(Some(CODE_KINDS[i].0)) == Known(CODE_KINDS[i].1)
  {
    var code := CODE_KINDS[i].0;
    assert code[0] != 'D';
  }

  lemma OtherCodesAreUnlisted(code: string)
    requires !("DUPLICATE_" <= code) && forall i :: 0 <= i < |CODE_KINDS| ==> CODE_KINDS[i].0 != code
    ensures ReadCode(Some(code)) == Unlisted
  {
    assert CODE_KINDS[0].0 != code && CODE_KINDS[1].0 != code && CODE_KINDS[2].0 != code && CODE_KINDS[3].0 != code;
    assert CODE_KINDS[4].0 != code && CODE_KINDS[5].0 != code && CODE_KINDS[6].0 != code && CODE_KINDS[7].0 != code;
    assert CODE_KINDS[8].0 != code && CODE_KINDS[9].0 != code && CODE_KINDS[10].0 != code && CODE_KINDS[11].0 != code;
    assert CODE_KINDS[12].0 != code && CODE_KINDS[13].0 != code;
    assert CODE_KINDS[14].0 != code && CODE_KINDS[15].0 != code;
  }

  /**
   What the conversion makes of a raw error: business errors pass, a duplicate of the domain is
   a conflict, a known code gives its kind, and the rest depends on the class of the error.
   */
  lemma ConversionOfRaw(e: Thrown, text: Option<string>)
    requires e.Raw? && e.code == ReadCode(text)
    ensures IsBusinessError(e) ==> HandleDatabaseError(e) == Throws(e)
    ensures !IsBusinessError(e) && text.Some? && "DUPLICATE_" <= text.value ==>
              HandleDatabaseError(e) == Throws(ConflictException(e.message))
    ensures forall i :: 0 <= i < |CODE_KINDS| && !IsBusinessError(e) && text == Some(CODE_KINDS[i].0) ==>
              HandleDatabaseError(e) == Returns(DatabaseException(CODE_KINDS[i].1, e))
    ensures !IsBusinessError(e) && text.Some? && !("DUPLICATE_" <= text.value)
            && (forall i :: 0 <= i < |CODE_KINDS| ==> CODE_KINDS[i].0 != text.value) ==>
              HandleDatabaseError(e) ==
              Returns(DatabaseException(if e.isQueryFailed then ConstraintViolation else UnknownError, e))
    ensures !IsBusinessError(e) && text.None? ==>
              HandleDatabaseError(e) ==
              Returns(DatabaseException(if e.isQueryFailed then ConstraintViolation else UnknownError, e))
  {
    forall i | 0 <= i < |CODE_KINDS| && text == Some(CODE_KINDS[i].0) ensures e.code == Known(CODE_KINDS[i].1) {
      CodeIsRead(i);
    }
    if text.Some? && !("DUPLICATE_" <= text.value) &&
       forall i :: 0 <= i < |CODE_KINDS| ==> CODE_KINDS[i].0 != text.value
    {
      OtherCodesAreUnlisted(text.value);
    }
  }

  /** Converting an already converted error loses its kind and ends the retries. */
  lemma SecondConversionGivesUp(e: Thrown)
    requires !IsHttpException(e)
    ensures match HandleDatabaseError(e)
            case Throws(x) => Judge(x) == GiveUp(x)
            case Returns(x) => Judge(x) == GiveUp(DatabaseException(UnknownError, x))
  {
  }
}
