/**
 * Bytes and the integer <-> byte conversions of src/websocket.c: the 16-bit
 * network-order helpers ntohs/htons and the repository's own 64-bit macros
 * webdis_ntohl64/webdis_htonl64, which put the LEAST significant byte first.
 */
module Bytes {

  /** A C `unsigned char`, by its value. */
  newtype byte = x: int | 0 <= x < 0x100

  /** 2^16 and 2^64: the ranges of `uint16_t` and of `uint64_t`/`size_t`. */
  const TWO_TO_THE_16: nat := 0x1_0000
  const TWO_TO_THE_64: nat := 0x1_0000_0000_0000_0000

  /** The bytes a C string literal occupies, without its terminating NUL. */
  function Ascii(s: string): (r: seq<byte>)
    ensures |r| == |s|
  {
    seq(|s|, i requires 0 <= i < |s| => ((s[i] as int) % 256) as byte)
  }

  /** ntohs applied to two bytes copied from the wire: the first is the high byte. */
  function Ntohs(hi: byte, lo: byte): (n: nat)
    ensures n < TWO_TO_THE_16
  {
    hi as nat * 0x100 + lo as nat
  }

  /** The two bytes that memcpy copies out of `htons(v)`: high byte first. */
  function Htons(v: nat): (r: seq<byte>)
    requires v < TWO_TO_THE_16
    ensures |r| == 2
  {
    [(v / 0x100) as byte, (v % 0x100) as byte]
  }

  /** webdis_ntohl64: byte k is weighted by 256^k (least significant first). */
  function Ntohl64(p: seq<byte>): nat
    requires |p| == 8
  {
    p[0] as nat
    + p[1] as nat * 0x100
    + p[2] as nat * 0x1_0000
    + p[3] as nat * 0x100_0000
    + p[4] as nat * 0x1_0000_0000
    + p[5] as nat * 0x100_0000_0000
    + p[6] as nat * 0x1_0000_0000_0000
    + p[7] as nat * 0x100_0000_0000_0000
  }

  /** webdis_htonl64: byte k is `(n >> 8k) & 0xff` (least significant first). */
  function Htonl64(n: nat): (r: seq<byte>)
    requires n < TWO_TO_THE_64
    ensures |r| == 8
  {
    [ (n % 0x100) as byte,
      (n / 0x100 % 0x100) as byte,
      (n / 0x1_0000 % 0x100) as byte,
      (n / 0x100_0000 % 0x100) as byte,
      (n / 0x1_0000_0000 % 0x100) as byte,
      (n / 0x100_0000_0000 % 0x100) as byte,
      (n / 0x1_0000_0000_0000 % 0x100) as byte,
      (n / 0x100_0000_0000_0000 % 0x100) as byte ]
  }

  /** Reference: the 64-bit network (most significant first) order that RFC 6455 prescribes. */
  function NetworkOrder64(p: seq<byte>): nat
    requires |p| == 8
  {
    Ntohl64([p[7], p[6], p[5], p[4], p[3], p[2], p[1], p[0]])
  }

  /** Reference: the eight bytes of a 64-bit length in RFC 6455 network order (most significant first). */
  function NetworkBytes64(n: nat): (r: seq<byte>)
    requires n < TWO_TO_THE_64
    ensures |r| == 8
  {
    var h := Htonl64(n);
    [h[7], h[6], h[5], h[4], h[3], h[2], h[1], h[0]]
  }

  /** `b & 0x80 != 0`: the top bit of a byte. */
  predicate HighBit(b: byte)
  {
    b >= 0x80
  }

  /** `b & 0x7f`: the low seven bits of a byte. */
  function Low7(b: byte): (n: nat)
    ensures n < 0x80
    ensures HighBit(b) ==> n == b as nat - 0x80
    ensures !HighBit(b) ==> n == b as nat
  {
    b as nat % 0x80
  }

  /** 2^n. */
  function Pow2(n: nat): (r: nat)
    ensures r >= 1
  {
    if n == 0 then 1 else 2 * Pow2(n - 1)
  }

  /** The low `n` bits of `a ^ b`, one bit at a time from the least significant. */
  function XorBits(a: nat, b: nat, n: nat): (r: nat)
    ensures r < Pow2(n)
  {
    if n == 0 then 0 else (if a % 2 == b % 2 then 0 else 1) + 2 * XorBits(a / 2, b / 2, n - 1)
  }

  /** The C operator `^` on two bytes. */
  function Xor(a: byte, b: byte): byte
  {
    assert Pow2(8) == 0x100;
    XorBits(a as nat, b as nat, 8) as byte
  }

  /** XOR with the same bits twice gives the original bits back. */
  lemma {:induction false} XorBitsTwice(a: nat, b: nat, n: nat)
    requires a < Pow2(n)
    ensures XorBits(XorBits(a, b, n), b, n) == a
  {
    if n > 0 {
      var lo := if a % 2 == b % 2 then 0 else 1;
      var hi := XorBits(a / 2, b / 2, n - 1);
      var x := lo + 2 * hi;
      assert XorBits(a, b, n) == x;
      assert x % 2 == lo && x / 2 == hi;
      XorBitsTwice(a / 2, b / 2, n - 1);
      assert XorBits(x, b, n) == (if lo == b % 2 then 0 else 1) + 2 * (a / 2);
    }
  }

  /** `(a ^ k) ^ k == a`. */
  lemma XorTwice(a: byte, k: byte)
    ensures Xor(Xor(a, k), k) == a
  {
    assert Pow2(8) == 0x100;
    XorBitsTwice(a as nat, k as nat, 8);
  }

  /** ntohs undoes htons on every 16-bit value. */
  lemma NtohsHtons(v: nat)
    requires v < TWO_TO_THE_16
    ensures Ntohs(Htons(v)[0], Htons(v)[1]) == v
  {
  }

  /** Every eight bytes decode to a value that fits a `uint64_t`: the sum cannot wrap. */
  lemma Ntohl64Bound(p: seq<byte>)
    requires |p| == 8
    ensures Ntohl64(p) < TWO_TO_THE_64
  {
  }

  /** Dividing by 256 k times is dividing by 256^k (each step with a literal divisor). */
  lemma DivideByBytes(n: nat)
    ensures n / 0x100 / 0x100 == n / 0x1_0000
    ensures n / 0x1_0000 / 0x100 == n / 0x100_0000
    ensures n / 0x100_0000 / 0x100 == n / 0x1_0000_0000
    ensures n / 0x1_0000_0000 / 0x100 == n / 0x100_0000_0000
    ensures n / 0x100_0000_0000 / 0x100 == n / 0x1_0000_0000_0000
    ensures n / 0x1_0000_0000_0000 / 0x100 == n / 0x100_0000_0000_0000
  {
  }

  /** A `uint64_t` is the sum of its eight base-256 digits, each weighted by its place. */
  lemma Digits(n: nat)
    requires n < TWO_TO_THE_64
    ensures n == n % 0x100
      + (n / 0x100 % 0x100) * 0x100
      + (n / 0x1_0000 % 0x100) * 0x1_0000
      + (n / 0x100_0000 % 0x100) * 0x100_0000
      + (n / 0x1_0000_0000 % 0x100) * 0x1_0000_0000
      + (n / 0x100_0000_0000 % 0x100) * 0x100_0000_0000
      + (n / 0x1_0000_0000_0000 % 0x100) * 0x1_0000_0000_0000
      + (n / 0x100_0000_0000_0000 % 0x100) * 0x100_0000_0000_0000
  {
    DivideByBytes(n);
    var q1 := n / 0x100;
    var q2 := n / 0x1_0000;
    var q3 := n / 0x100_0000;
    var q4 := n / 0x1_0000_0000;
    var q5 := n / 0x100_0000_0000;
    var q6 := n / 0x1_0000_0000_0000;
    var q7 := n / 0x100_0000_0000_0000;
    assert n == n % 0x100 + 0x100 * q1;
    assert q1 == q1 % 0x100 + 0x100 * q2;
    assert q2 == q2 % 0x100 + 0x100 * q3;
    assert q3 == q3 % 0x100 + 0x100 * q4;
    assert q4 == q4 % 0x100 + 0x100 * q5;
    assert q5 == q5 % 0x100 + 0x100 * q6;
    assert q6 == q6 % 0x100 + 0x100 * q7;
    assert q7 == q7 % 0x100;
  }

  /** The two 64-bit macros are inverse to each other on every `uint64_t`. */
  lemma Ntohl64Htonl64(n: nat)
    requires n < TWO_TO_THE_64
    ensures Ntohl64(Htonl64(n)) == n
  {
    Digits(n);
  }

  /** The network-order bytes read back in network order give the length. */
  lemma NetworkBytes64Roundtrip(n: nat)
    requires n < TWO_TO_THE_64
    ensures NetworkOrder64(NetworkBytes64(n)) == n
  {
    var h := Htonl64(n);
    assert [h[0], h[1], h[2], h[3], h[4], h[5], h[6], h[7]] == h;
    Ntohl64Htonl64(n);
  }

  /** A value below 2^32 whose four low base-256 digits are 0 is 0. */
  lemma LowDigitsZero(n: nat)
    requires n < 0x1_0000_0000
    requires n % 0x100 == 0 && n / 0x100 % 0x100 == 0
    requires n / 0x1_0000 % 0x100 == 0 && n / 0x100_0000 % 0x100 == 0
    ensures n == 0
  {
    DivideByBytes(n);
    var q1 := n / 0x100;
    var q2 := n / 0x1_0000;
    var q3 := n / 0x100_0000;
    assert n == n % 0x100 + 0x100 * q1;
    assert q1 == q1 % 0x100 + 0x100 * q2;
    assert q2 == q2 % 0x100 + 0x100 * q3;
    assert q3 == q3 % 0x100;
  }

  /**
   * The two conventions disagree on every length below 2^32 except 0: a
   * network-order peer reads what webdis_htonl64 writes as 2^32 or more, and
   * webdis_ntohl64 reads the network-order bytes as 2^32 or more.
   */
  lemma Htonl64MisreadBelow2To32(n: nat)
    requires 0 < n < 0x1_0000_0000
    ensures NetworkOrder64(Htonl64(n)) >= 0x1_0000_0000
    ensures Ntohl64(NetworkBytes64(n)) >= 0x1_0000_0000
  {
    var h := Htonl64(n);
    assert h[0] != 0 || h[1] != 0 || h[2] != 0 || h[3] != 0 by {
      if h[0] == 0 && h[1] == 0 && h[2] == 0 && h[3] == 0 {
        LowDigitsZero(n);
      }
    }
    assert NetworkOrder64(h) == Ntohl64(NetworkBytes64(n));
  }

  /** The 64-bit macros are not network order: a length of 1 reads as 2^56 under RFC 6455. */
  lemma Htonl64IsNotNetworkOrder()
    ensures Htonl64(1) == [1, 0, 0, 0, 0, 0, 0, 0]
    ensures NetworkOrder64(Htonl64(1)) == 0x100_0000_0000_0000
    ensures Ntohl64([1, 0, 0, 0, 0, 0, 0, 0]) == 1
  {
    var one: seq<byte> := [1, 0, 0, 0, 0, 0, 0, 0];
    assert Htonl64(1) == one;
    assert NetworkOrder64(one) == Ntohl64([0, 0, 0, 0, 0, 0, 0, 1]);
  }
}
