/** The response status codes the server can send (`HTTPCodes`). */
module Status {
  datatype HttpCode = OK | NoContent | BadRequest {
    /** The status-line text: the three-digit code, a space, the reason phrase. */
    function AsStr(): (s: string)
      ensures this == OK ==> s == "200 OK"
      ensures this == NoContent ==> s == "204 No content"
      ensures this == BadRequest ==> s == "400 Bad Request"
    {
      match this
      case OK => "200 OK"
      case NoContent => "204 No content"
      case BadRequest => "400 Bad Request"
    }
  }

  /** Distinct codes get distinct status texts, each led by a three-digit code and a space. */
  lemma StatusTextShape(a: HttpCode, b: HttpCode)
    ensures a.AsStr() == b.AsStr() ==> a == b
    ensures |a.AsStr()| > 4 && a.AsStr()[3] == ' '
    ensures forall i :: 0 <= i < 3 ==> '0' <= a.AsStr()[i] <= '9'
  {
  }
}
