/** What a Flask view returns: a body and a status code. A body is either
    plain text or the object `jsonify` serialises. */
module Http {

  /** The JSON values the views put into their objects. */
  datatype JValue = JNull | JStr(s: string)

  datatype Body = Text(text: string) | Json(fields: map<string, JValue>)

  /** The `(body, status)` pair a view returns. */
  datatype Response = Response(body: Body, status: int)

  const OK := 200
  const BadRequest := 400
  const Unauthorized := 401
  const NotFound := 404
}
