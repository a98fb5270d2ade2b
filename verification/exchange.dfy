/**
 * Facts about a whole exchange: the client's encoder against the server's
 * extraction, the server's encoder against the client's decoder, and what
 * the client ends up printing for any request it accepts.
 */
module Exchange {
  import opened Wrappers
  import opened Bytes
  import opened NetOrder
  import opened Protocol
  import opened Validator
  import opened Server
  import opened Client

  /** The server extracts exactly the request the client serialised. */
  lemma RequestRoundTrip(req: Request)
    ensures DecodeRequest(EncodeRequest(req)) == Some(req)
  {
  }

  /** Every 65-byte datagram is the serialisation of the request the server extracts from it. */
  lemma RequestBytesRoundTrip(d: seq<Byte>)
    requires |d| == REQUEST_SIZE
    ensures EncodeRequest(DecodeRequest(d).value) == d
  {
  }

  /** The client decodes exactly the status, echo byte and value pattern the server serialised. */
  lemma ResponseRoundTrip(resp: Response)
    ensures DecodeResponse(EncodeResponse(resp)) == Some(resp)
  {
    var b := EncodeResponse(resp);
    var r := DecodeResponse(b).value;
    HostToNetworkInjective(r.status, resp.status);
    HostToNetworkInjective(r.value, resp.value);
  }

  /** Every 9-byte reply is the serialisation of the response the client decodes from it. */
  lemma ResponseBytesRoundTrip(b: seq<Byte>)
    requires |b| == RESPONSE_SIZE
    ensures EncodeResponse(DecodeResponse(b).value) == b
  {
    var r := DecodeResponse(b).value;
    var e := EncodeResponse(r);
    NetworkToHostRoundTrip(e[0..4]);
    NetworkToHostRoundTrip(e[5..9]);
    assert e[0..4] == b[0..4];
    assert e[5..9] == b[5..9];
    assert e == e[0..4] + [e[4]] + e[5..9];
    assert b == b[0..4] + [b[4]] + b[5..9];
  }

  /**
   * The request buffer the client sends: 65 bytes, the kind first, then the
   * city as it stood after the leading spaces, then only NULs, at least one.
   */
  lemma RequestLayout(arg: seq<Byte>)
    requires IsCString(arg) && ParseRequest(arg).Success?
    ensures var b := EncodeRequest(ParseRequest(arg).value);
      var city := CityArgument(arg);
      && |b| == REQUEST_SIZE
      && b[0] == arg[0]
      && 1 + |city| < REQUEST_SIZE
      && b[1..1 + |city|] == city
      && (forall i :: 1 + |city| <= i < REQUEST_SIZE ==> b[i] == NUL)
  {
    var req := ParseRequest(arg).value;
    var city := CityArgument(arg);
    var b := EncodeRequest(req);
    assert req.city == PadCity(city);
    assert b[1..1 + |city|] == req.city[..|city|];
  }

  /** The line the client prints for a request the server answered, computed from the request alone. */
  function Expected(kind: Byte, city: seq<Byte>, sample: Generator -> U32): Line {
    if !IsKnownKind(kind) || HasInvalidChars(city) then Notice(BAD_REQUEST_TEXT)
    else if !IsSupportedCity(city) then Notice(CITY_UNAVAILABLE)
    else
      var (measure, unit) := Template(kind).value;
      Reading(city, measure, unit, sample(GeneratorFor(kind).value))
  }

  /**
   * End to end: any request the client accepts reaches the server's
   * validation (it is the right length and its city is terminated), and the
   * client then prints the line the validation outcome calls for; it never
   * takes its "invalid response" branch and never prints nothing.
   */
  lemma EndToEnd(arg: seq<Byte>, sample: Generator -> U32)
    requires IsCString(arg) && ParseRequest(arg).Success?
    ensures var req := ParseRequest(arg).value;
      var step := Serve(EncodeRequest(req), sample);
      && step.Sent?
      && HandleReply(req, step.datagram) == Success(Expected(arg[0], CityArgument(arg), sample))
      && step.drawn == (if Status(arg[0], CityArgument(arg)) == STATUS_OK then GeneratorFor(arg[0]) else None)
    ensures var req := ParseRequest(arg).value;
      var line := HandleReply(req, Serve(EncodeRequest(req), sample).datagram).value;
      line != Nothing && line != Notice(BAD_RESPONSE_TEXT)
  {
    var req := ParseRequest(arg).value;
    var city := CityArgument(arg);
    var d := EncodeRequest(req);
    assert d[1..] == req.city;
    var step := Serve(d, sample);
    var reply := Respond(arg[0], city, sample);
    assert step.datagram == EncodeResponse(reply.response);
    ResponseRoundTrip(reply.response);
  }

  /** The argument `-r "t Roma"`. */
  const ROMA_ARG: seq<Byte> := Ascii("t Roma")
  const ROMA: seq<Byte> := Ascii("Roma")
  const ROMA_REQUEST: Request := Request(TYPE_TEMP, PadCity(ROMA))

  /** How `-r "t Roma"` is laid out: kind, one space, then the city. */
  lemma RomaArgumentShape()
    ensures ROMA_ARG == [TYPE_TEMP, SPACE] + ROMA
    ensures |ROMA| == 4 && ROMA[0] != SPACE && TAB !in ROMA
  {
  }

  /** The client turns `-r "t Roma"` into kind 't' and the city field "Roma" padded with NULs. */
  lemma RomaArgumentParses()
    ensures IsCString(ROMA_ARG) && ROMA_ARG[0] == TYPE_TEMP
    ensures CityArgument(ROMA_ARG) == ROMA
    ensures ParseRequest(ROMA_ARG) == Success(ROMA_REQUEST)
  {
    RomaArgumentShape();
    var arg := ROMA_ARG;
    assert arg[1..] == [SPACE] + ROMA;
    assert arg[1..][1..] == ROMA;
    assert CityArgument(arg) == ROMA;
  }

  /** The server accepts city "Roma" with kind 't'. */
  lemma RomaIsValid()
    ensures IsKnownKind(TYPE_TEMP) && !HasInvalidChars(ROMA) && IsSupportedCity(ROMA)
  {
    assert EqualsIgnoreCase(ROMA, SupportedCities()[1]);
  }

  /** `-r "t Roma"` answered with any temperature pattern prints "Roma: Temperatura = …°C". */
  lemma RomaTemperatureExample(sample: Generator -> U32)
    ensures ParseRequest(ROMA_ARG) == Success(ROMA_REQUEST)
    ensures var step := Serve(EncodeRequest(ROMA_REQUEST), sample);
      && step.Sent? && step.drawn == Some(GetTemperature)
      && HandleReply(ROMA_REQUEST, step.datagram) ==
           Success(Reading(ROMA, "Temperatura", "\U{B0}C", sample(GetTemperature)))
  {
    RomaArgumentParses();
    RomaIsValid();
    EndToEnd(ROMA_ARG, sample);
    assert Expected(TYPE_TEMP, ROMA, sample) == Reading(ROMA, "Temperatura", "\U{B0}C", sample(GetTemperature));
  }

  /** A city of 64 bytes is refused before anything is sent. */
  lemma CityTooLongExample()
    ensures ParseRequest([TYPE_TEMP, SPACE] + seq(64, _ => 'A' as int)) == Failure(CityTooLong)
  {
    var letters: seq<Byte> := seq(64, _ => 'A' as int);
    var arg := [TYPE_TEMP, SPACE] + letters;
    assert arg[1..] == [SPACE] + letters;
    assert arg[1..][1..] == letters;
    assert SkipSpaces(letters) == letters;
    assert CityArgument(arg) == letters;
  }
}
