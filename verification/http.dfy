/** What a handler writes to the client: a status line, headers, and a
    body that is a JSON object, the bytes of a scanned file, or nothing. */
module Http {

  /** The JSON values the handlers produce. */
  datatype Json = JStr(s: string) | JInt(n: int) | JNull | JStrList(items: seq<string>)

  type JsonObject = map<string, Json>

  datatype Body =
    | NoBody
    | JsonBody(obj: JsonObject)
    | FileBody(name: string)      // the bytes of this file of the scan directory

  datatype Response = Response(status: int, headers: seq<(string, string)>, body: Body)
}
