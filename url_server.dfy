/** The earlier OAuth callback receiver of `code/server.py`: one
    module-level slot that `/auth` fills with the request URL and `/get`
    empties. */
module UrlCallback {
  import opened Python
  import opened Http

  class Server {
    /** The global `authURL`. */
    var authURL: Option<string>

    constructor ()
      ensures authURL == None
    {
      authURL := None;
    }

    /** `/auth`: stores the request URL unconditionally, over any earlier
        one. */
    method StoreUrl(url: string) returns (response: Response)
      modifies this
      ensures authURL == Some(url)
      ensures response == Response(Text(""), OK)
    {
      authURL := Some(url);
      return Response(Text(""), OK);
    }

    /** `/get`: hands out a stored URL once and empties the slot. The slot
        is tested for truthiness, so a stored empty URL counts as absent and
        stays where it is. */
    method RetrieveUrl() returns (response: Response)
      modifies this
      ensures old(authURL).Some? && old(authURL).value != "" ==>
                authURL == None &&
                response == Response(Json(map["data" := JStr(old(authURL).value)]), OK)
      ensures !(old(authURL).Some? && old(authURL).value != "") ==>
                authURL == old(authURL) &&
                response == Response(Json(map["error" := JStr("No auth URL yet")]), Unauthorized)
    {
      if authURL.Some? && authURL.value != "" {
        var url := authURL.value;
        authURL := None;
        return Response(Json(map["data" := JStr(url)]), OK);
      } else {
        return Response(Json(map["error" := JStr("No auth URL yet")]), Unauthorized);
      }
    }
  }

  /** Take-once: of two `/get` requests with no `/auth` between them the
      second always answers 401. */
  method GetTwice(server: Server) returns (first: Response, second: Response)
    modifies server
    ensures second.status == Unauthorized
    ensures first.status == OK <==> old(server.authURL).Some? && old(server.authURL).value != ""
  {
    first := server.RetrieveUrl();
    second := server.RetrieveUrl();
  }
}
