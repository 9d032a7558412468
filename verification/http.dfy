/**
 * What a request handler hands back: the database and session after the
 * request, and an outcome standing for the flash message and redirect (or
 * rendered page) the browser receives.
 */
module Http {
  import opened Schema
  import opened Sessions

  /** Which login page a failed guard redirects to. */
  datatype Area = UserArea | AdminArea

  /** A protocol as the protocol page shows it, joined with its case and its author. */
  datatype ProtocolView = ProtocolView(
    protocol: Protocol,
    caseTitle: string,
    caseNumber: string,
    authorName: string)

  datatype Outcome =
    | RedirectLogin(area: Area)   // guard failed: redirect to that area's login page
    | BadRequest                  // a required form field is missing: 400
    | ServerError                 // an uncaught database error: 500
    | Success                     // the "success" flash, then a redirect
    | DuplicateUser               // "a user with this login already exists"
    | NotApproved                 // "your account is not yet approved"
    | AccountRejected             // "your account was rejected"
    | BadCredentials              // "wrong login or password"
    | NotFound                    // "protocol not found"
    | NotFoundOrForbidden         // "protocol not found or you have no right to delete it"
    | Shown(view: ProtocolView)   // the protocol page is rendered

  datatype Response = Response(db: Db, session: Session, outcome: Outcome)

}
