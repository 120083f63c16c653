/**
 * What a serverless handler receives and returns, reduced to what the handlers
 * decide on. The body is the already-decoded JSON object; CORS and content-type
 * headers and the `isBase64Encoded` flag are constant plumbing and are not kept.
 */
module Http {
  import opened Values
  import opened Tables

  /**
   * The event: `httpMethod` (absent: None), the query-string parameters, the
   * request headers and the decoded body (an absent body reads as `'{}'`).
   */
  datatype Event = Event(
    httpMethod: Option<string>,
    queryStringParameters: map<string, string>,
    headers: map<string, string>,
    body: map<string, Value>)

  /** `event.get('httpMethod', 'GET')`. */
  function MethodOf(e: Event): string {
    if e.httpMethod.Some? then e.httpMethod.value else "GET"
  }

  /** The JSON the response body carries. */
  datatype Body =
    | NoBody                                        // ''
    | Error(error: string)                          // {"error": ...}
    | Message(message: string)                      // {"message": ...}
    | Created(id: int, message: string)             // {"id": ..., "message": ...}
    | LoggedIn(token: string, message: string)      // {"token": ..., "message": ...}
    | OneBook(book: BookRow)
    | BookSummaries(summaries: seq<BookSummary>)
    | AllBooks(books: seq<BookRow>)
    | Reviews(reviews: seq<ReviewRow>)
    | ReviewsWithTitles(rows: seq<(ReviewRow, Option<string>)>)
    | ServerError                                   // {"error": str(e)}

  datatype Response = Response(statusCode: int, body: Body)

  const MethodNotAllowed := "Метод не поддерживается"

  /** The answer to an OPTIONS pre-flight request. */
  const Preflight := Response(200, NoBody)

  /** The answer of the `except Exception` clause. */
  const Fault := Response(500, ServerError)
}
