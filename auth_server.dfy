/** The OAuth callback receiver of `server.py`: one module-level slot that
    `/auth` fills with the redirect's code and state and `/get` empties. */
module AuthCallback {
  import opened Python
  import opened Http

  /** The dict `/auth` stores. */
  datatype AuthRecord = AuthRecord(url: string, code: string, state: Option<string>)

  /** The object `jsonify` makes of a stored record; a missing state is
      `null`. */
  function RecordJson(a: AuthRecord): map<string, JValue>
  {
    map["url" := JStr(a.url), "code" := JStr(a.code),
        "state" := if a.state.Some? then JStr(a.state.value) else JNull]
  }

  class Server {
    /** The global `auth`; `None` until a code arrives and again once it has
        been taken. */
    var auth: Option<AuthRecord>

    constructor ()
      ensures auth == None
    {
      auth := None;
    }

    /** `/auth`: `url` is the request URL, `code` and `state` the query
        arguments, `None` when absent. A non-empty code is stored, with
        whatever state came along, over any earlier record. */
    method StoreAuth(url: string, code: Option<string>, state: Option<string>)
      returns (response: Response)
      modifies this
      ensures code.Some? && code.value != "" ==>
                auth == Some(AuthRecord(url, code.value, state)) &&
                response == Response(Text("Authorization received"), OK)
      ensures !(code.Some? && code.value != "") ==>
                auth == old(auth) &&
                response == Response(Text("Failed to save auth"), BadRequest)
    {
      if code.Some? && code.value != "" {
        auth := Some(AuthRecord(url, code.value, state));
        return Response(Text("Authorization received"), OK);
      } else {
        return Response(Text("Failed to save auth"), BadRequest);
      }
    }

    /** `/get`: hands out the stored record once and empties the slot. A
        stored record is a dict with three keys, so it is always truthy. */
    method RetrieveUrl() returns (response: Response)
      modifies this
      ensures auth == None
      ensures old(auth).Some? ==> response == Response(Json(RecordJson(old(auth).value)), OK)
      ensures old(auth).None? ==>
                response == Response(Json(map["error" := JStr("No auth yet")]), NotFound)
    {
      if auth.Some? {
        var temp := auth.value;
        auth := None;
        return Response(Json(RecordJson(temp)), OK);
      } else {
        return Response(Json(map["error" := JStr("No auth yet")]), NotFound);
      }
    }
  }

  /** Take-once: of two `/get` requests with no `/auth` between them the
      second always finds the slot empty, so they never both succeed. */
  method GetTwice(server: Server) returns (first: Response, second: Response)
    modifies server
    ensures second.status == NotFound && server.auth == None
    ensures first.status == OK <==> old(server.auth).Some?
  {
    first := server.RetrieveUrl();
    second := server.RetrieveUrl();
  }
}
