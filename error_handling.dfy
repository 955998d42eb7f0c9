/** Storage-error classification (src/utils/errorHandling.ts). */
module ErrorHandling {
  import opened Wrappers
  import opened JsString

  /** A thrown `Error` as the storage layer sees it: its `name`, its `message`,
      and the numeric `code` a DOMException carries (None when it has none). */
  datatype StorageError = StorageError(name: string, code: Option<int>, message: string)

  /** `AppError` */
  datatype AppError = AppError(message: string, code: string, originalError: Option<StorageError>)

  const QuotaErrorName := "QuotaExceededError"
  const QuotaErrorCode := 22
  const QuotaWord := "quota"
  const QuotaMessage := "Storage quota exceeded. Please delete some items to free up space."
  const GenericMessage := "An error occurred while saving your data. Please try again."

  /** `createError` */
  function CreateError(message: string, code: string, originalError: Option<StorageError>): (r: AppError)
    ensures r.message == message && r.code == code && r.originalError == originalError
  {
    AppError(message, code, originalError)
  }

  /** `isQuotaExceededError`: an error is recognised as "quota exceeded" by
      its name, by its code 22, or by the word `quota` (case-sensitive)
      anywhere in its message, and by nothing else. */
  function IsQuotaExceededError(e: StorageError): (r: bool)
    ensures r <==>
      e.name == "QuotaExceededError" || e.code == Some(22) ||
      exists i :: OccursAt(e.message, "quota", i)
  {
    IncludesIff(e.message, QuotaWord);
    e.name == QuotaErrorName || e.code == Some(QuotaErrorCode) || Includes(e.message, QuotaWord)
  }

  /** `handleStorageError` */
  function HandleStorageError(e: StorageError): (r: string)
    ensures r == QuotaMessage || r == GenericMessage
  {
    if IsQuotaExceededError(e) then QuotaMessage else GenericMessage
  }

  /** A message that mentions `quota` classifies as quota exceeded, whatever its name and code. */
  lemma QuotaInMessage(name: string, code: Option<int>, before: string, after: string)
    ensures IsQuotaExceededError(StorageError(name, code, before + "quota" + after))
  {
    var m := before + "quota" + after;
    assert m[|before|..|before| + 5] == "quota";
    IncludesIff(m, QuotaWord);
    assert OccursAt(m, QuotaWord, |before|);
  }

  /** One example of the case-sensitive message test: upper-case `Quota`, with
      another name and no code, is not a quota error. */
  lemma QuotaIsCaseSensitive()
    ensures !IsQuotaExceededError(StorageError("Error", None, "Quota"))
  {
    var m := "Quota";
    assert m[..|QuotaWord|][0] == 'Q' != QuotaWord[0];
    assert |m[1..]| < |QuotaWord|;
  }

  /** The user sees the quota message exactly for quota errors and the generic
      message for every other error. */
  lemma HandleStorageErrorIff(e: StorageError)
    ensures HandleStorageError(e) == QuotaMessage <==> IsQuotaExceededError(e)
    ensures HandleStorageError(e) == GenericMessage <==> !IsQuotaExceededError(e)
  {
    assert |QuotaMessage| != |GenericMessage|;
  }
}
