/** The outcome of `fetch_snapshots` once the HTTP exchange is over. The
    request itself is foreign I/O; its three possible endings are the input. */
module Fetch {

  /** One decoded index row: timestamp, status code, mime type. */
  type Row = seq<string>

  /** How the archive-index request ended. */
  datatype Response =
    | TimedOut                      // requests.exceptions.Timeout
    | RequestFailed(reason: string) // any other RequestException
    | Decoded(data: seq<Row>)       // status OK and the body decoded as rows

  /** The method's boolean result together with the snapshots it leaves
      behind on the analyzer. */
  datatype Fetched = Fetched(ok: bool, snapshots: seq<Row>)

  /** A fresh analyzer fetching once: success exactly when more than one row
      came back, and then the snapshots are the rows after the header row;
      every other outcome leaves the snapshots empty. */
  function FetchSnapshots(response: Response): (r: Fetched)
    ensures r.ok <==> response.Decoded? && |response.data| > 1
    ensures r.ok ==> [response.data[0]] + r.snapshots == response.data
    ensures !r.ok ==> r.snapshots == []
  {
    match response
    case Decoded(data) =>
      if |data| > 1 then Fetched(true, data[1..]) else Fetched(false, [])
    case _ => Fetched(false, [])
  }
}
