/**
 * Network byte order for 32-bit fields: `htonl`/`ntohl` followed by the
 * `memcpy` into or out of the datagram, seen as the four bytes on the wire.
 * The float measurement travels the same way: `float_to_network` copies the
 * float's bit pattern into a `uint32_t` and byte-swaps it, so the model keeps
 * the float as its opaque 32-bit pattern and never interprets it.
 */
module NetOrder {
  import opened Bytes

  /** `htonl` and the copy into the datagram: four bytes whose big-endian value is `x`. */
  function HostToNetwork(x: U32): (b: seq<Byte>)
    ensures |b| == 4
    ensures x == (b[0] as int) * 0x100_0000 + (b[1] as int) * 0x1_0000 + (b[2] as int) * 0x100 + b[3]
  {
    // Peel off one base-256 digit at a time; without these steps the
    // solver's nonlinear search fails on some random seeds.
    var q1, r0 := x / 0x100, x % 0x100;
    var q2, r1 := q1 / 0x100, q1 % 0x100;
    var q3, r2 := q2 / 0x100, q2 % 0x100;
    assert x / 0x1_0000 == q2;
    assert x / 0x100_0000 == q3;
    assert x == ((q3 * 0x100 + r2) * 0x100 + r1) * 0x100 + r0;
    [x / 0x100_0000, (x / 0x1_0000) % 0x100, (x / 0x100) % 0x100, x % 0x100]
  }

  /**
   * The copy out of the datagram and `ntohl`: the value whose base-256
   * digits, most significant first, are the four wire bytes.
   */
  function NetworkToHost(b: seq<Byte>): (x: U32)
    requires |b| == 4
    ensures x / 0x100_0000 == b[0] && (x / 0x1_0000) % 0x100 == b[1]
    ensures (x / 0x100) % 0x100 == b[2] && x % 0x100 == b[3]
  {
    // The three quotients, stated outright: without them the solver's
    // nonlinear search fails on some random seeds.
    var x := (b[0] as int) * 0x100_0000 + (b[1] as int) * 0x1_0000 + (b[2] as int) * 0x100 + b[3];
    assert x / 0x100 == (b[0] as int) * 0x1_0000 + (b[1] as int) * 0x100 + b[2];
    assert x / 0x1_0000 == (b[0] as int) * 0x100 + b[1];
    assert x / 0x100_0000 == b[0];
    x
  }

  /** `float_to_network` then the copy into the datagram: the pattern's wire bytes. */
  function FloatToNetwork(bits: U32): (b: seq<Byte>)
    ensures |b| == 4 && NetworkToFloat(b) == bits
  {
    HostToNetworkRoundTrip(bits);
    HostToNetwork(bits)
  }

  /** The copy out of the datagram then `network_to_float`: the pattern the wire bytes carry. */
  function NetworkToFloat(b: seq<Byte>): (bits: U32)
    requires |b| == 4
    ensures HostToNetwork(bits) == b
  {
    NetworkToHostRoundTrip(b);
    NetworkToHost(b)
  }

  /** Decoding undoes encoding: `ntohl(htonl(x)) == x` across the wire. */
  lemma HostToNetworkRoundTrip(x: U32)
    ensures NetworkToHost(HostToNetwork(x)) == x
  {
  }

  /** Encoding undoes decoding: every four-byte field is the encoding of the value it decodes to. */
  lemma NetworkToHostRoundTrip(b: seq<Byte>)
    requires |b| == 4
    ensures HostToNetwork(NetworkToHost(b)) == b
  {
  }

  /** Distinct patterns never share wire bytes. */
  lemma HostToNetworkInjective(x: U32, y: U32)
    requires HostToNetwork(x) == HostToNetwork(y)
    ensures x == y
  {
    HostToNetworkRoundTrip(x);
    HostToNetworkRoundTrip(y);
  }
}
