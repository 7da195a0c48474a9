/** The big-endian (network byte order) 32-bit codec of Go's
    `encoding/binary` package and Go's conversion of an `int` to `uint32`. */
module Binary {
  import opened Strings

  const TWO_TO_32: int := 0x1_0000_0000

  /** Go's `uint32(n)` for an `int` n: the low 32 bits, which for every n,
      negative ones included, is n modulo 2^32. */
  function Uint32Of(n: int): (v: nat)
    ensures v < TWO_TO_32
    ensures 0 <= n < TWO_TO_32 ==> v == n
    ensures (n - v) % TWO_TO_32 == 0
  {
    n % TWO_TO_32
  }

  /** binary.BigEndian.Uint32: the value of four bytes, most significant first. */
  function Uint32(b: seq<byte>): (v: nat)
    requires |b| == 4
    ensures v < TWO_TO_32
  {
    ((b[0] as int * 0x100 + b[1] as int) * 0x100 + b[2] as int) * 0x100 + b[3] as int
  }

  /** The four bytes binary.BigEndian.PutUint32 stores for `v`, most
      significant first; reading them back gives `v`. */
  function BigEndian(v: nat): (b: seq<byte>)
    requires v < TWO_TO_32
    ensures |b| == 4 && Uint32(b) == v
  {
    var v1 := v / 0x100;
    var v2 := v1 / 0x100;
    var v3 := v2 / 0x100;
    [v3 as byte, (v2 % 0x100) as byte, (v1 % 0x100) as byte, (v % 0x100) as byte]
  }

  /** The encoding is one-to-one: equal bytes mean equal values. */
  lemma BigEndianInjective(v: nat, w: nat)
    requires v < TWO_TO_32 && w < TWO_TO_32
    requires BigEndian(v) == BigEndian(w)
    ensures v == w
  {
    assert Uint32(BigEndian(v)) == Uint32(BigEndian(w));
  }

  /** binary.BigEndian.PutUint32: stores `v` into the first four bytes of
      `b` and leaves the rest of `b` alone. */
  method PutUint32(b: array<byte>, v: nat)
    requires b.Length >= 4 && v < TWO_TO_32
    modifies b
    ensures b[..4] == BigEndian(v)
    ensures b[4..] == old(b[4..])
  {
    var e := BigEndian(v);
    b[0], b[1], b[2], b[3] := e[0], e[1], e[2], e[3];
  }
}
