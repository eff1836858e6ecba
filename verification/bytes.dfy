/** Octets, 32-bit network byte order and the C integer conversions the wire
    code relies on (`htonl`/`ntohl`, plain `char`, `uint32_t` to `int`). */
module Bytes {
  import Results

  newtype byte = x: int | 0 <= x < 0x100

  const TWO_32: int := 0x1_0000_0000
  const TWO_31: int := 0x8000_0000

  /** The four octets of `n` in network (big-endian) order, as `htonl` lays them out. */
  function BigEndian32(n: int): (r: seq<byte>)
    requires 0 <= n < TWO_32
    ensures |r| == 4
    ensures r[0] as int * 0x100_0000 + r[1] as int * 0x1_0000 + r[2] as int * 0x100 + r[3] as int == n
  {
    var q1 := n / 0x100;
    var q2 := q1 / 0x100;
    assert n == q1 * 0x100 + n % 0x100 && q1 == q2 * 0x100 + q1 % 0x100;
    assert q2 == q2 / 0x100 * 0x100 + q2 % 0x100 && q2 / 0x100 < 0x100;
    [(q2 / 0x100) as byte, (q2 % 0x100) as byte, (q1 % 0x100) as byte, (n % 0x100) as byte]
  }

  /** `ntohl` applied to four received octets. */
  function ReadBigEndian32(b: seq<byte>): (n: int)
    requires |b| == 4
    ensures 0 <= n < TWO_32
  {
    b[0] as int * 0x100_0000 + b[1] as int * 0x1_0000 + b[2] as int * 0x100 + b[3] as int
  }

  lemma BigEndian32RoundTrip(n: int)
    requires 0 <= n < TWO_32
    ensures ReadBigEndian32(BigEndian32(n)) == n
  {
  }

  /** Every 4-octet header is the encoding of exactly one 32-bit value. */
  lemma ReadBigEndian32RoundTrip(b: seq<byte>)
    requires |b| == 4
    ensures BigEndian32(ReadBigEndian32(b)) == b
  {
    var n := ReadBigEndian32(b);
    var q1 := b[0] as int * 0x1_0000 + b[1] as int * 0x100 + b[2] as int;
    var q2 := b[0] as int * 0x100 + b[1] as int;
    assert n == q1 * 0x100 + b[3] as int;
    assert n / 0x100 == q1 && n % 0x100 == b[3] as int;
    assert q1 == q2 * 0x100 + b[2] as int;
    assert q1 / 0x100 == q2 && q1 % 0x100 == b[2] as int;
    assert q2 / 0x100 == b[0] as int && q2 % 0x100 == b[1] as int;
  }

  /** The value of a plain `char` holding octet `b` when `char` is signed
      (two's complement). Whether a plain `char` is signed is left to the
      compiler; this model assumes it is. */
  function SignedChar(b: byte): (c: int)
    ensures -0x80 <= c < 0x80
    ensures c % 0x100 == b as int
  {
    if b < 0x80 then b as int else b as int - 0x100
  }

  /** Storing the int `c` into a `char`: the low eight bits are kept. */
  function CharOf(c: int): (b: byte)
    ensures b as int == c % 0x100
    ensures -0x80 <= c < 0x80 ==> SignedChar(b) == c
  {
    (c % 0x100) as byte
  }

  /** Converting an unsigned 32-bit value to a 32-bit `int` (two's complement). */
  function ToInt32(u: int): (i: int)
    requires 0 <= u < TWO_32
    ensures -TWO_31 <= i < TWO_31
    ensures (i - u) % TWO_32 == 0
  {
    if u < TWO_31 then u else u - TWO_32
  }

  /** The octets a C string starting at `buf[0]` denotes: everything before
      the first NUL. `None` when `buf` holds no NUL, so that reading the
      string would run past the end of the buffer. */
  function CString(buf: seq<byte>): (r: Results.Option<seq<byte>>)
    ensures r.None? <==> 0 !in buf
    ensures r.Some? ==> |r.value| < |buf| && r.value == buf[..|r.value|] && buf[|r.value|] == 0
    ensures r.Some? ==> 0 !in r.value
  {
    if |buf| == 0 then Results.None
    else if buf[0] == 0 then Results.Some([])
    else
      var t := CString(buf[1..]);
      if t.None? then Results.None else Results.Some([buf[0]] + t.value)
  }
}
