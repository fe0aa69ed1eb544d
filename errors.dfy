/** The API's error taxonomy (`MMError`) and the classification done by `get_last_error`. */
module Errors {
  import opened Wrappers
  import opened LittleEndian

  datatype MMError =
    | CommunicationError
    | SerialPortError
    | LicenseError
    | UnknownError

  /** The numeric code the API reports for each specific error; `UnknownError` has none. */
  function ErrorCode(e: MMError): (c: Option<u32>)
    ensures c.None? <==> e == UnknownError
  {
    match e
    case CommunicationError => Some(1)
    case SerialPortError => Some(2)
    case LicenseError => Some(3)
    case UnknownError => None
  }

  /**
   * Classifies the outcome of asking the API for its last error: `querySucceeded`
   * is what the query returned and `errId` the code it wrote. A failed query, or a
   * code outside the table, is `UnknownError`; otherwise the error whose code it is.
   */
  function GetLastError(querySucceeded: bool, errId: u32): (e: MMError)
    ensures !querySucceeded ==> e == UnknownError
    ensures querySucceeded ==> (e == UnknownError <==> errId !in {1, 2, 3})
    ensures e != UnknownError ==> ErrorCode(e) == Some(errId)
  {
    if querySucceeded then
      match errId
      case 1 => CommunicationError
      case 2 => SerialPortError
      case 3 => LicenseError
      case _ => UnknownError
    else
      UnknownError
  }

  /** Every specific error is recovered from its own code by a successful query. */
  lemma GetLastErrorOfCode(e: MMError)
    requires e != UnknownError
    ensures GetLastError(true, ErrorCode(e).value) == e
  {
  }
}
