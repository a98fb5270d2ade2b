/**
 * One iteration of the server's receive loop: extract the request from the
 * received bytes, validate it, answer it, and serialise the answer. The four
 * random generators are not modelled; the value they would produce arrives
 * as the parameter `sample`, and the reply records which generator was drawn.
 */
module Server {
  import opened Wrappers
  import opened Bytes
  import opened NetOrder
  import opened Protocol
  import opened Validator

  /** `get_temperature`, `get_humidity`, `get_wind`, `get_pressure`. */
  datatype Generator = GetTemperature | GetHumidity | GetWind | GetPressure

  /** The generator that serves a kind tag; none for an unknown tag. */
  function GeneratorFor(kind: Byte): (g: Option<Generator>)
    ensures g.Some? <==> IsKnownKind(kind)
    ensures g == Some(GetTemperature) <==> kind == TYPE_TEMP
    ensures g == Some(GetHumidity) <==> kind == TYPE_HUM
    ensures g == Some(GetWind) <==> kind == TYPE_WIND
    ensures g == Some(GetPressure) <==> kind == TYPE_PRESS
  {
    if kind == TYPE_TEMP then Some(GetTemperature)
    else if kind == TYPE_HUM then Some(GetHumidity)
    else if kind == TYPE_WIND then Some(GetWind)
    else if kind == TYPE_PRESS then Some(GetPressure)
    else None
  }

  /** Request extraction: only a datagram of exactly 1 + 64 bytes yields a request. */
  function DecodeRequest(d: seq<Byte>): (r: Option<Request>)
    ensures r.None? <==> |d| != REQUEST_SIZE
    ensures r.Some? ==> [r.value.kind] + r.value.city == d
  {
    if |d| != REQUEST_SIZE then None else Some(Request(d[0], d[1..]))
  }

  /** The validation precedence, first match wins. */
  function Status(kind: Byte, city: seq<Byte>): (s: U32)
    ensures s == STATUS_BAD_REQUEST <==> !IsKnownKind(kind) || HasInvalidChars(city)
    ensures s == STATUS_CITY_NOT_FOUND <==> IsKnownKind(kind) && !HasInvalidChars(city) && !IsSupportedCity(city)
    ensures s == STATUS_OK <==> IsKnownKind(kind) && !HasInvalidChars(city) && IsSupportedCity(city)
  {
    if !IsKnownKind(kind) || HasInvalidChars(city) then STATUS_BAD_REQUEST
    else if !IsSupportedCity(city) then STATUS_CITY_NOT_FOUND
    else STATUS_OK
  }

  /** A response together with the generator drawn to fill it, if any. */
  datatype Reply = Reply(response: Response, drawn: Option<Generator>)

  /**
   * Response construction: the response starts zeroed; an error sets only
   * its status, a success also echoes the kind and takes the value from the
   * one generator that kind selects.
   */
  function Respond(kind: Byte, city: seq<Byte>, sample: Generator -> U32): (r: Reply)
    ensures r.response.status == Status(kind, city)
    ensures r.response.status != STATUS_OK ==>
      r.response.kind == NUL && r.response.value == 0 && r.drawn == None
    ensures r.response.status == STATUS_OK ==>
      r.response.kind == kind && r.drawn == GeneratorFor(kind) && r.drawn.Some? &&
      r.response.value == sample(r.drawn.value)
  {
    var status := Status(kind, city);
    if status != STATUS_OK then Reply(Response(status, NUL, 0), None)
    else
      var g := GeneratorFor(kind).value;
      Reply(Response(status, kind, sample(g)), Some(g))
  }

  /** Response serialisation: big-endian status, echo byte, big-endian value pattern. */
  function EncodeResponse(resp: Response): (b: seq<Byte>)
    ensures |b| == RESPONSE_SIZE
    ensures NetworkToHost(b[0..4]) == resp.status
    ensures b[4] == resp.kind
    ensures NetworkToFloat(b[5..9]) == resp.value
  {
    HostToNetworkRoundTrip(resp.status);
    var b := HostToNetwork(resp.status) + [resp.kind] + FloatToNetwork(resp.value);
    assert b[0..4] == HostToNetwork(resp.status);
    assert b[5..9] == FloatToNetwork(resp.value);
    b
  }

  /** What one loop iteration does with one received datagram. */
  datatype Step =
    | Skipped
      /** Wrong length: nothing is sent and the loop goes on. */
    | Unterminated
      /** The city field holds no NUL; the log line prints it as a C string and reads past it. */
    | Sent(datagram: seq<Byte>, drawn: Option<Generator>)
      /** The serialised response, and the generator drawn for it. */

  /** One iteration of the receive loop. */
  function Serve(received: seq<Byte>, sample: Generator -> U32): (step: Step)
    ensures step == Skipped <==> |received| != REQUEST_SIZE
    ensures step == Unterminated <==> |received| == REQUEST_SIZE && IsCString(received[1..])
    ensures step.Sent? ==> |step.datagram| == RESPONSE_SIZE
    ensures step.Sent? ==>
      var city := CText(received[1..]).value;
      var reply := Respond(received[0], city, sample);
      step.datagram == EncodeResponse(reply.response) && step.drawn == reply.drawn
  {
    match DecodeRequest(received)
    case None => Skipped
    case Some(req) =>
      match CText(req.city)
      case None => Unterminated
      case Some(city) =>
        var reply := Respond(req.kind, city, sample);
        Sent(EncodeResponse(reply.response), reply.drawn)
  }

  /** The server answers only ever with one of its three status codes. */
  lemma StatusIsOneOfThree(kind: Byte, city: seq<Byte>, sample: Generator -> U32)
    ensures Respond(kind, city, sample).response.status in {STATUS_OK, STATUS_CITY_NOT_FOUND, STATUS_BAD_REQUEST}
  {
  }

  /** Bytes after the city's terminator never influence the answer. */
  lemma ServeIgnoresPadding(d1: seq<Byte>, d2: seq<Byte>, sample: Generator -> U32)
    requires |d1| == |d2| == REQUEST_SIZE && d1[0] == d2[0]
    requires CText(d1[1..]).Some? && CText(d1[1..]) == CText(d2[1..])
    ensures Serve(d1, sample) == Serve(d2, sample)
  {
  }

  /** The precedence on the examples: unknown city, unknown kind, forbidden character, wrong case. */
  lemma StatusExamples()
    ensures Status(TYPE_TEMP, Ascii("Atlantide")) == STATUS_CITY_NOT_FOUND
    ensures Status('x' as int, Ascii("Roma")) == STATUS_BAD_REQUEST
    ensures Status(TYPE_WIND, Ascii("Ro@ma")) == STATUS_BAD_REQUEST
    ensures Status('T' as int, Ascii("Roma")) == STATUS_BAD_REQUEST
    ensures Status(TYPE_HUM, Ascii("MILANO")) == STATUS_OK
  {
    UnsupportedCityExamples();
    assert IsForbidden(Ascii("Ro@ma")[2]);
    assert EqualsIgnoreCase(Ascii("MILANO"), SupportedCities()[2]);
  }

  /** A foreign client's 65-byte datagram whose city is 64 letters has no terminator for the server to stop at. */
  lemma UnterminatedExample(sample: Generator -> U32)
    ensures Serve([TYPE_TEMP] + seq(CITY_MAX_LEN, _ => 'A' as int), sample) == Unterminated
  {
    var d := [TYPE_TEMP] + seq(CITY_MAX_LEN, _ => 'A' as int);
    assert d[1..] == seq(CITY_MAX_LEN, _ => 'A' as int);
  }
}
