/** The HTTP values both sides of the handshake exchange. The `Headers` class and the
    response classes are not part of this model: a header set is an insertion-ordered map
    from exact header names to values, and a response is its status code and headers. */
module Http {
  import Dicts

  type Headers = Dicts.Dict<string, string>

  datatype Response = Response(status: int, headers: Headers)

  /** `HTTPStatus.SWITCHING_PROTOCOLS` */
  const SwitchingProtocols := 101
}
