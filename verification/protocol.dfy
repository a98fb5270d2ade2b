/**
 * The protocol contract shared by client and server: buffer sizes, status
 * codes, measurement-kind tags and the two message records.
 */
module Protocol {
  import opened Bytes

  /** Size of the request's city field, terminator included. */
  const CITY_MAX_LEN: nat := 64

  /** A request datagram: the kind byte, then the whole city field. */
  const REQUEST_SIZE: nat := 1 + CITY_MAX_LEN

  /** A response datagram: 32-bit status, echo byte, 32-bit value pattern. */
  const RESPONSE_SIZE: nat := 4 + 1 + 4

  const STATUS_OK: U32 := 0
  const STATUS_CITY_NOT_FOUND: U32 := 1
  const STATUS_BAD_REQUEST: U32 := 2

  const TYPE_TEMP: Byte := 't' as int
  const TYPE_HUM: Byte := 'h' as int
  const TYPE_WIND: Byte := 'w' as int
  const TYPE_PRESS: Byte := 'p' as int

  /** The `char city[CITY_MAX_LEN]` field of a request, all 64 bytes of it. */
  type CityField = s: seq<Byte> | |s| == CITY_MAX_LEN witness Zeros(CITY_MAX_LEN)

  /** `weather_request_t`: the kind byte is opaque on the wire, any value may arrive. */
  datatype Request = Request(kind: Byte, city: CityField)

  /** `weather_response_t`: the float `value` is kept as its 32-bit pattern. */
  datatype Response = Response(status: U32, kind: Byte, value: U32)

  /** One of the four measurement kinds the server serves. */
  predicate IsKnownKind(k: Byte) {
    k == TYPE_TEMP || k == TYPE_HUM || k == TYPE_WIND || k == TYPE_PRESS
  }

  /** The three status codes are distinct, and so are the four kind tags, none of them NUL. */
  lemma ConstantsDistinct()
    ensures STATUS_OK != STATUS_CITY_NOT_FOUND && STATUS_OK != STATUS_BAD_REQUEST
    ensures STATUS_CITY_NOT_FOUND != STATUS_BAD_REQUEST
    ensures |{TYPE_TEMP, TYPE_HUM, TYPE_WIND, TYPE_PRESS}| == 4
    ensures !IsKnownKind(NUL)
  {
  }

  /** A city field has room for at most 63 significant bytes before its terminator. */
  lemma CityFieldCapacity(f: CityField)
    requires CText(f).Some?
    ensures |CText(f).value| <= CITY_MAX_LEN - 1
  {
  }
}
