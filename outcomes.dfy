/** Results and errors of the contact book.

    The program signals user errors by raising Python exceptions of three
    kinds, which a decorator on every command handler turns into the text that
    is shown to the user.  Here each exception is a value of `Error`, and an
    operation that may raise returns a `Result`.
 */
module Outcomes {

  datatype Option<+T> = None | Some(value: T)

  /** The exception kinds the program raises for expected user errors. */
  datatype Error =
    | ValueError(msg: string)   // bad phone or date, phone not found
    | KeyError(msg: string)     // contact not found
    | IndexError                // fewer command arguments than needed

  datatype Result<+T> = Ok(value: T) | Err(error: Error)

  const PhoneFormatMsg := "Phone number must contain exactly 10 digits."
  const DateFormatMsg := "Invalid date format. Use DD.MM.YYYY"
  const PhoneNotFoundMsg := "Phone not found."
  const OldPhoneNotFoundMsg := "Old phone not found."
  const ContactNotFoundMsg := "Contact not found."

  /** A result with its success value dropped: what a Python method that
      returns None or raises amounts to. */
  function Status<T>(r: Result<T>): (s: Result<()>)
    ensures s.Ok? <==> r.Ok?
    ensures r.Err? ==> s == Err(r.error)
  {
    match r
    case Ok(_) => Ok(())
    case Err(e) => Err(e)
  }
}
