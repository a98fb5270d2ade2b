/**
 * The client's side of one exchange: turn the `-r "<kind> <city>"` argument
 * into a request, serialise it, decode the 9-byte answer and choose the line
 * to print. The `%.1f` rendering of the value is not modelled; a printed
 * reading carries the value's 32-bit pattern instead.
 */
module Client {
  import opened Wrappers
  import opened Bytes
  import opened NetOrder
  import opened Protocol

  /** The client's failures, each of which ends the program with exit code 1. */
  datatype ClientError =
    | InvalidRequest   // "Richiesta non valida"
    | CityTooLong      // "Nome città troppo lungo"
    | MalformedReply   // "Risposta non valida" on stderr: the reply was not 9 bytes

  /** The argument from its first byte that is not a space on. */
  function SkipSpaces(s: seq<Byte>): (r: seq<Byte>)
    ensures |r| <= |s| && r == s[|s| - |r|..]
    ensures forall i :: 0 <= i < |s| - |r| ==> s[i] == SPACE
    ensures |r| > 0 ==> r[0] != SPACE
  {
    if |s| > 0 && s[0] == SPACE then SkipSpaces(s[1..]) else s
  }

  /** The city text as it stands in the argument, once the shape check has passed. */
  function CityArgument(arg: seq<Byte>): seq<Byte>
    requires |arg| >= 2
  {
    SkipSpaces(arg[1..])
  }

  /** The argument has a kind byte followed by a space. */
  predicate WellShaped(arg: seq<Byte>) {
    |arg| >= 2 && arg[1] == SPACE
  }

  /** `memset` then `strncpy` of at most 63 bytes and a forced terminator: the city, then NULs. */
  function PadCity(city: seq<Byte>): (f: CityField)
    requires |city| < CITY_MAX_LEN
    ensures f[..|city|] == city
    ensures forall i :: |city| <= i < CITY_MAX_LEN ==> f[i] == NUL
  {
    city + Zeros(CITY_MAX_LEN - |city|)
  }

  /**
   * Request parsing. `arg` is the contents of the C string given to `-r`,
   * so it holds no NUL; index 1 of a one-byte argument is its terminator,
   * which is not a space.
   */
  function ParseRequest(arg: seq<Byte>): (r: Result<Request, ClientError>)
    requires IsCString(arg)
    ensures !WellShaped(arg) ==> r == Failure(InvalidRequest)
    ensures WellShaped(arg) && |CityArgument(arg)| >= CITY_MAX_LEN ==> r == Failure(CityTooLong)
    ensures WellShaped(arg) && |CityArgument(arg)| < CITY_MAX_LEN && TAB in CityArgument(arg) ==>
      r == Failure(InvalidRequest)
    ensures r.Success? <==>
      WellShaped(arg) && |CityArgument(arg)| < CITY_MAX_LEN && TAB !in CityArgument(arg)
    ensures r.Success? ==> r.value.kind == arg[0] && CText(r.value.city) == Some(CityArgument(arg))
  {
    if |arg| < 2 || arg[1] != SPACE then Failure(InvalidRequest)
    else
      var city := CityArgument(arg);
      if |city| >= CITY_MAX_LEN then Failure(CityTooLong)
      else if TAB in city then Failure(InvalidRequest)
      else
        CTextOfPadded(city, CITY_MAX_LEN - |city|);
        Success(Request(arg[0], PadCity(city)))
  }

  /** Request serialisation: the kind byte, then the 64-byte city field. */
  function EncodeRequest(req: Request): (b: seq<Byte>)
    ensures |b| == REQUEST_SIZE && b[0] == req.kind && b[1..] == req.city
  {
    [req.kind] + req.city
  }

  /** Response deserialisation: only a reply of exactly 9 bytes is read. */
  function DecodeResponse(b: seq<Byte>): (r: Option<Response>)
    ensures r.None? <==> |b| != RESPONSE_SIZE
    ensures r.Some? ==> HostToNetwork(r.value.status) == b[0..4]
    ensures r.Some? ==> r.value.kind == b[4]
    ensures r.Some? ==> FloatToNetwork(r.value.value) == b[5..9]
  {
    if |b| != RESPONSE_SIZE then None
    else
      var status, bits := NetworkToHost(b[0..4]), NetworkToFloat(b[5..9]);
      NetworkToHostRoundTrip(b[0..4]);
      assert FloatToNetwork(bits) == HostToNetwork(bits) == b[5..9];
      Some(Response(status, b[4], bits))
  }

  /** What the client prints after its "Ricevuto risultato…" prefix. */
  datatype Line =
    | Reading(city: seq<Byte>, measure: string, unit: string, value: U32)
      /** `"<city>: <measure> = <value to one decimal><unit>"` */
    | Notice(text: string)
      /** A fixed message. */
    | Nothing
      /** Status OK with an unknown kind: the inner switch prints nothing. */

  const CITY_UNAVAILABLE := "Citt\U{E0} non disponibile"
  const BAD_REQUEST_TEXT := "Richiesta non valida"
  const BAD_RESPONSE_TEXT := "Risposta non valida"

  /** The template for a kind tag, as `(measure, unit)`; none for an unknown tag. */
  function Template(kind: Byte): (t: Option<(string, string)>)
    ensures t.Some? <==> IsKnownKind(kind)
  {
    if kind == TYPE_TEMP then Some(("Temperatura", "\U{B0}C"))
    else if kind == TYPE_HUM then Some(("Umidit\U{E0}", "%"))
    else if kind == TYPE_WIND then Some(("Vento", " km/h"))
    else if kind == TYPE_PRESS then Some(("Pressione", " hPa"))
    else None
  }

  /** The output switch: on status, then for status OK on the echoed kind. */
  function Present(city: seq<Byte>, resp: Response): (line: Line)
    ensures line.Reading? <==> resp.status == STATUS_OK && IsKnownKind(resp.kind)
    ensures line.Reading? ==>
      line.city == city && line.value == resp.value &&
      Template(resp.kind) == Some((line.measure, line.unit))
    ensures line == Nothing <==> resp.status == STATUS_OK && !IsKnownKind(resp.kind)
    ensures line == Notice(CITY_UNAVAILABLE) <==> resp.status == STATUS_CITY_NOT_FOUND
    ensures line == Notice(BAD_REQUEST_TEXT) <==> resp.status == STATUS_BAD_REQUEST
    ensures line == Notice(BAD_RESPONSE_TEXT) <==>
      resp.status !in {STATUS_OK, STATUS_CITY_NOT_FOUND, STATUS_BAD_REQUEST}
  {
    if resp.status == STATUS_OK then
      match Template(resp.kind)
      case Some((measure, unit)) => Reading(city, measure, unit, resp.value)
      case None => Nothing
    else if resp.status == STATUS_CITY_NOT_FOUND then Notice(CITY_UNAVAILABLE)
    else if resp.status == STATUS_BAD_REQUEST then Notice(BAD_REQUEST_TEXT)
    else Notice(BAD_RESPONSE_TEXT)
  }

  /** Receive, decode and present: a reply of the wrong length is an error, anything else is printed. */
  function HandleReply(req: Request, received: seq<Byte>): (r: Result<Line, ClientError>)
    requires CText(req.city).Some?
    ensures r.Failure? <==> |received| != RESPONSE_SIZE
    ensures r.Failure? ==> r.error == MalformedReply
    ensures r.Success? ==> r.value == Present(CText(req.city).value, DecodeResponse(received).value)
  {
    match DecodeResponse(received)
    case None => Failure(MalformedReply)
    case Some(resp) => Success(Present(CText(req.city).value, resp))
  }
}
