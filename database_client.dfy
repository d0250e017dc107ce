/**
 * How the services reach the database: DatabaseClient sends each call over HTTP
 * to the database API, whose endpoints run the call on DatabaseService. An
 * endpoint returns the service's dict only when it says success; otherwise it
 * raises HTTPException 400 with the dict's error text. _make_request turns every
 * reply that is not a success into an HTTPException of its own, so a caller of
 * the client never sees a dict whose success is False.
 */
module DatabaseClient {
  import DatabaseService

  /**
   * How one call through the client ends: the API's dict (its success is True),
   * a statement the database refused (the API's 400, carrying the database's
   * error text), an API that failed without a JSON body (its 500, carrying the
   * text requests gives the HTTPError), or no HTTP reply at all.
   */
  datatype Reply<T> = Answered(value: T) | Refused(error: string) | Crashed(message: string) | Unreachable(reason: string)

  const RequestFailed := "Database API request failed: "

  /** The status of the HTTPException _make_request raises instead of returning. */
  function Status<T>(reply: Reply<T>): int
    requires !reply.Answered?
  {
    if reply.Refused? then 400 else 500
  }

  /** The detail of that HTTPException. */
  function Detail<T>(reply: Reply<T>): string
    requires !reply.Answered?
  {
    match reply
    case Refused(error) => error
    case Crashed(message) => message
    case Unreachable(reason) => RequestFailed + reason
  }

  /** requests' text for a 500 reply: what the client reports when the API's reply has no JSON body. */
  function ServerErrorText(url: string): string {
    "500 Server Error: Internal Server Error for url: " + url
  }

  /**
   * One endpoint over one call of the database service, as the client returns or
   * raises it: a dict with success False becomes the endpoint's 400, and an
   * exception that escapes the service becomes the server's bare 500.
   */
  function Through(outcome: DatabaseService.Outcome, url: string): (r: Reply<DatabaseService.Response>)
    ensures r.Answered? ==> !r.value.Failed?
    ensures r.Refused? <==> outcome.Returned? && outcome.response.Failed?
    ensures r.Refused? ==> r.error == DatabaseService.ErrorText(outcome.response.error)
    ensures r.Crashed? <==> outcome.Raised?
    ensures !r.Unreachable?
  {
    match outcome
    case Raised(_) => Crashed(ServerErrorText(url))
    case Returned(response) =>
      if response.Failed? then Refused(DatabaseService.ErrorText(response.error)) else Answered(response)
  }

  /**
   * A statement sent through the client is answered exactly when the database
   * connects and accepts it; a refused statement reaches the caller as status 400
   * with the database's message, and a failed connection as status 500.
   */
  lemma ClientOverExecuteQuery(query: DatabaseService.Query, db: DatabaseService.Database, url: string)
    ensures Through(DatabaseService.ExecuteQueryAsWritten(query, db), url).Answered? <==> db.connects && db.accepts
    ensures db.connects && !db.accepts ==>
      Status(Through(DatabaseService.ExecuteQueryAsWritten(query, db), url)) == 400
      && Detail(Through(DatabaseService.ExecuteQueryAsWritten(query, db), url)) == db.message
    ensures !db.connects ==> Status(Through(DatabaseService.ExecuteQueryAsWritten(query, db), url)) == 500
  {
    DatabaseService.ConnectFailureEscapes(query, db);
  }
}
