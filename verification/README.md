# UDP weather protocol — Dafny model

This project models the wire protocol of a small UDP weather service. A client sends one
datagram naming a measurement kind (`t` temperature, `h` humidity, `w` wind, `p` pressure)
and a city; the server checks the request against ten fixed Italian cities and a blacklist
of characters, and answers with one datagram carrying a status, the echoed kind and a
32-bit float value.

Modules follow the two programs and their shared header:

- `Wrappers`: `Option` and `Result`.
- `Bytes`: octets, 32-bit unsigned integers, and C strings. `CText` reads the C string at
  the start of a buffer as the bytes before its first NUL. It yields `None` when the buffer
  holds no NUL.
- `NetOrder`: `htonl`/`ntohl` as the four wire bytes, and `float_to_network` /
  `network_to_float`. The float is kept as its opaque 32-bit pattern.
- `Protocol`: the constants and the `weather_request_t` / `weather_response_t` records.
- `Validator`: `equals_ignore_case`, `is_supported_city` and `city_has_invalid_chars`.
  Each has a specification over the string's contents and a method that walks the
  NUL-terminated buffer the way the C loop does, proved equal to the specification.
- `Server`: request extraction, the validation precedence, response construction,
  response serialisation, and one iteration of the receive loop (`Serve`).
- `Client`: parsing of the `-r "<kind> <city>"` argument, request serialisation, response
  decoding and the choice of output line (`Present`).
- `Exchange`: both codec round trips, the layout of the client's request buffer, and an
  end-to-end lemma. For every argument the client accepts, the server reaches validation,
  and the client prints exactly the line the validation outcome calls for.

The server's four random generators are not modelled. Their output arrives as a parameter
`sample: Generator -> U32`. Each reply records which generator was drawn, so "exactly one
generator, the one the kind selects, on success; none on error" is a stated property.

A request's city field holds 64 bytes. If a foreign client fills all 64 with non-NUL bytes,
the server's log line prints the field as a C string (server-project/src/main.c:125) and
reads past it before any check runs. That behaviour is undefined.
The model does not guess at it: `Serve` returns the separate outcome `Unterminated`.
`Server.UnterminatedExample` exhibits such a datagram. `Exchange.EndToEnd` shows the
project's own client never produces one.

The request datagram is 1 + 64 = 65 bytes: the kind byte, then the whole 64-byte city
field, of which at most 63 bytes are significant (client-project/src/main.c:109,
server-project/src/main.c:104).

## Model

| member | source | states |
|---|---|---|
| Bytes.CText | server-project/src/protocol.h:31 | the string in a `char` buffer is the prefix before the first NUL; there is none exactly when the buffer holds no NUL |
| Bytes.CTextOfPadded | client-project/src/main.c:84-93 | a city copied into a zeroed field with at least one NUL left reads back as exactly that city |
| NetOrder.HostToNetwork | server-project/src/main.c:150-151 | `htonl` and the copy into the datagram give four bytes whose big-endian value is the input |
| NetOrder.NetworkToHost | client-project/src/main.c:126-127 | the copy out of the datagram and `ntohl` give the value whose base-256 digits, most significant first, are the four bytes |
| NetOrder.FloatToNetwork | server-project/src/main.c:36-40 | the four wire bytes of a value pattern decode back to that pattern |
| NetOrder.NetworkToFloat | client-project/src/main.c:46-51 | the pattern read from four wire bytes re-encodes to those same bytes |
| NetOrder.HostToNetworkRoundTrip | client-project/src/main.c:39-51 | big-endian encode then decode is the identity on every 32-bit pattern |
| NetOrder.NetworkToHostRoundTrip | client-project/src/main.c:47 | decode then encode is the identity on every four-byte field |
| NetOrder.HostToNetworkInjective | server-project/src/main.c:150 | distinct 32-bit values never produce the same wire bytes |
| Protocol.ConstantsDistinct | server-project/src/protocol.h:18-26 | the three status codes are distinct, the four kind tags are distinct, and NUL is not a kind |
| Protocol.CityFieldCapacity | server-project/src/protocol.h:15 | a terminated city field holds at most 63 significant bytes |
| Validator.EqualsIgnoreCaseC | server-project/src/main.c:42-48 | the C loop answers true iff both strings have equal length and agree at every position under ASCII `tolower`; only the second needs a terminator when the first buffer is longer than it, and an unterminated first string never matches |
| Validator.EqualsIgnoreCaseReflexive | server-project/src/main.c:42-48 | every string equals itself ignoring case |
| Validator.EqualsIgnoreCaseSymmetric | server-project/src/main.c:42-48 | the comparison does not depend on argument order |
| Validator.SupportedCities | server-project/src/main.c:51 | the table has exactly ten NUL-free names |
| Validator.IsSupportedCityC | server-project/src/main.c:50-56 | the lookup loop answers true iff the city is terminated and equals one of the ten names ignoring case; a buffer longer than every name needs no terminator |
| Validator.SupportedCityExamples | server-project/src/main.c:50-56 | "ROMA", "roma" and "vEnEzIa" are supported |
| Validator.UnsupportedCityExamples | server-project/src/main.c:50-56 | "Roma " (no trimming), "" and "Atlantide" are not supported |
| Validator.CityHasInvalidCharsC | server-project/src/main.c:58-65 | the scan answers true iff the city contains tab, '@', '#', '$' or '%'; an unterminated buffer that holds one of them is answered true without leaving the buffer |
| Server.GeneratorFor | server-project/src/main.c:139-144 | each of the four kind tags selects its own generator, and no other byte selects any |
| Server.DecodeRequest | server-project/src/main.c:104-110 | a datagram yields a request iff it is 65 bytes long, and the kind and city field are its bytes in order |
| Server.Status | server-project/src/main.c:130-137 | bad kind or forbidden character gives 2; otherwise an unsupported city gives 1; otherwise 0 |
| Server.Respond | server-project/src/main.c:127-145 | on error only the status is set (echo NUL, value 0, no generator drawn); on success the kind is echoed and the value comes from the one generator the kind selects |
| Server.EncodeResponse | server-project/src/main.c:147-155 | 9 bytes: big-endian status at 0, echo byte at 4, big-endian value pattern at 5 |
| Server.Serve | server-project/src/main.c:101-157 | a datagram not 65 bytes long is skipped; an unterminated city is its own outcome; otherwise the sent bytes are the serialised response to the extracted request |
| Server.StatusIsOneOfThree | server-project/src/main.c:134-137 | the server only ever answers with status 0, 1 or 2 |
| Server.ServeIgnoresPadding | server-project/src/main.c:110-132 | bytes after the city's terminator never change the answer |
| Server.StatusExamples | server-project/src/main.c:130-137 | "Atlantide" gives 1, kind 'x' gives 2, "Ro@ma" gives 2, upper-case kind 'T' gives 2, "MILANO" gives 0 |
| Server.UnterminatedExample | server-project/src/main.c:110 | a 65-byte datagram with 64 non-NUL city bytes leaves the server without a terminator |
| Client.SkipSpaces | client-project/src/main.c:88-89 | the result is a suffix of the input, everything dropped was a space, and it does not start with a space |
| Client.PadCity | client-project/src/main.c:84-93 | the field starts with the city and every byte after it is NUL |
| Client.ParseRequest | client-project/src/main.c:81-93 | empty input or a second byte other than space is an invalid request; a city of 64 or more bytes is too long; a city with a tab is invalid; otherwise the kind is the first byte, unvalidated, and the field holds the city after the leading spaces |
| Client.EncodeRequest | client-project/src/main.c:108-111 | 65 bytes: the kind byte, then the whole 64-byte city field |
| Client.DecodeResponse | client-project/src/main.c:116-130 | a reply is decoded iff it is exactly 9 bytes; status and value re-encode to bytes 0-3 and 5-8, and the kind is byte 4 |
| Client.Template | client-project/src/main.c:142-146 | exactly the four kind tags have an output template |
| Client.Present | client-project/src/main.c:140-151 | status 0 gives the template of the echoed kind, or no line for another kind; 1 gives "Città non disponibile"; 2 gives "Richiesta non valida"; any other status gives "Risposta non valida" |
| Client.HandleReply | client-project/src/main.c:121-130 | a reply of the wrong length is an error; any 9-byte reply is decoded and presented |
| Exchange.RequestRoundTrip | server-project/src/main.c:108-110 | the server extracts exactly the request the client serialised |
| Exchange.RequestBytesRoundTrip | server-project/src/main.c:104-110 | every 65-byte datagram is the serialisation of the request extracted from it |
| Exchange.ResponseRoundTrip | client-project/src/main.c:124-130 | the client decodes exactly the status, echo byte and value pattern the server serialised |
| Exchange.ResponseBytesRoundTrip | server-project/src/main.c:148-155 | every 9-byte reply is the serialisation of the response decoded from it |
| Exchange.RequestLayout | client-project/src/main.c:108-111 | the sent buffer is 65 bytes: the kind, the city bytes, then only NULs, at least one |
| Exchange.EndToEnd | client-project/src/main.c:116-151 | an accepted request always reaches validation, and the client prints the line the validation outcome calls for, never "Risposta non valida" and never nothing |
| Exchange.RomaArgumentParses | client-project/src/main.c:81-93 | `-r "t Roma"` becomes kind 't' with city "Roma" |
| Exchange.RomaIsValid | server-project/src/main.c:130-137 | kind 't' with city "Roma" passes every check |
| Exchange.RomaTemperatureExample | client-project/src/main.c:143 | `-r "t Roma"` draws the temperature generator and prints the temperature template for "Roma" with the drawn value |
| Exchange.CityTooLongExample | client-project/src/main.c:90 | a 64-byte city is refused as too long |

## Left out

- Sockets and platform setup (`socket`, `bind`, `sendto`, `recvfrom`, `WSAStartup`, `clearwinsock`) are operating-system I/O. The model takes the received bytes as a parameter.
- `resolve_server` is name resolution by the operating system. It supplies the server address that `sendto` uses. When it fails, the client prints "Risoluzione server fallita" and exits with 1 before sending anything (client-project/src/main.c:105-106).
- A datagram longer than the receive buffer is truncated or refused by the socket layer, depending on the platform. The model takes the bytes `recvfrom` reported as received.
- Reverse lookup and logging (`gethostbyaddr`, `inet_ntop`/`inet_ntoa`, the log `printf`s and the client's "Ricevuto risultato…" prefix) only format display text.
- Command-line handling (`-s`, `-p`, `-r`, `atoi`, the port range check) is plumbing. The `-r` argument enters the model as the bytes of its C string.
- The generators `get_temperature`, `get_humidity`, `get_wind`, `get_pressure` use `rand()` and float arithmetic. Their output is the parameter `sample`.
- The `%.1f` rendering of the value is float formatting. `Present` returns the chosen template with the 32-bit pattern in place of the number.
- The server's endless `while(1)` loop is modelled as one iteration, `Serve`.
- Undefined behaviour on an unterminated city field is not modelled. `Serve` reports it as `Unterminated`.
- Validator.CityHasInvalidCharsC: requires a terminator or a forbidden byte in the buffer. On a buffer with neither, `city_has_invalid_chars` reads past its end.
- Validator.EqualsIgnoreCaseC: requires the second string to be terminated, and the first to be terminated or longer than the second. Otherwise `equals_ignore_case` can read past a buffer.
