/** Octets, network byte order, and overwriting part of a buffer. */
module Bytes {

  type byte = x: int | 0 <= x < 0x100
  type uint16 = x: int | 0 <= x < 0x1_0000
  type uint32 = x: int | 0 <= x < 0x1_0000_0000

  /** The 16-bit field that starts at offset i, most significant octet first (ntohs). */
  function U16At(b: seq<byte>, i: nat): uint16
    requires i + 2 <= |b|
  {
    b[i] as int * 0x100 + b[i + 1]
  }

  /** The 32-bit field that starts at offset i (ntohl). */
  function U32At(b: seq<byte>, i: nat): uint32
    requires i + 4 <= |b|
  {
    b[i] as int * 0x100_0000 + b[i + 1] as int * 0x1_0000 + b[i + 2] as int * 0x100 + b[i + 3]
  }

  /** The octets of htons(x). */
  function Be16(x: uint16): (b: seq<byte>)
    ensures |b| == 2 && U16At(b, 0) == x
  {
    [x / 0x100, x % 0x100]
  }

  /** The octets of htonl(x). */
  function Be32(x: uint32): (b: seq<byte>)
    ensures |b| == 4 && U32At(b, 0) == x
  {
    Be16(x / 0x1_0000) + Be16(x % 0x1_0000)
  }

  /** A number as it lies in the machine's memory, least significant octet first, as far as it fits. */
  function Le(n: nat, width: nat): (b: seq<byte>)
    ensures |b| == width
  {
    if width == 0 then [] else [n % 0x100] + Le(n / 0x100, width - 1)
  }

  /** The number that lies in memory as the given octets. */
  function FromLe(b: seq<byte>): nat {
    if b == [] then 0 else b[0] as nat + 0x100 * FromLe(b[1..])
  }

  lemma {:induction false} LeZero(width: nat)
    ensures Le(0, width) == Zeros(width)
    decreases width
  {
    if width > 0 {
      LeZero(width - 1);
    }
  }

  function Power256(width: nat): (p: nat)
    ensures p > 0
  {
    if width == 0 then 1 else 0x100 * Power256(width - 1)
  }

  lemma ModInSteps(n: nat, p: nat)
    requires p > 0
    ensures n % (0x100 * p) == n % 0x100 + 0x100 * (n / 0x100 % p)
  {
    var q, r := n / 0x100 / p, n / 0x100 % p;
    var rest := n % 0x100 + 0x100 * r;
    assert n == 0x100 * (q * p + r) + n % 0x100;
    assert n == q * (0x100 * p) + rest;
    assert 0 <= r <= p - 1 && 0 <= rest < 0x100 * p;
    ModIs(n, 0x100 * p, q, rest);
  }

  lemma ModIs(n: nat, d: nat, q: nat, r: nat)
    requires n == q * d + r && r < d
    ensures n % d == r
  {
    var e := n / d - q;
    assert n == (n / d) * d + n % d;
    assert e * d == r - n % d;
    assert (e >= 1 ==> e * d >= d) && (e <= -1 ==> e * d + d <= 0);
  }

  /** What is read back is the number itself, as far as it fits. */
  lemma {:induction false} LeReadsBack(n: nat, width: nat)
    ensures FromLe(Le(n, width)) == n % Power256(width)
    decreases width
  {
    if width > 0 {
      LeReadsBack(n / 0x100, width - 1);
      assert Le(n, width)[1..] == Le(n / 0x100, width - 1);
      ModInSteps(n, Power256(width - 1));
    }
  }

  /** A host-order field written and read back is the octets it was read from. */
  lemma Be16OfU16(b: seq<byte>, i: nat)
    requires i + 2 <= |b|
    ensures Be16(U16At(b, i)) == b[i..i + 2]
  {
  }

  lemma Be32OfU32(b: seq<byte>, i: nat)
    requires i + 4 <= |b|
    ensures Be32(U32At(b, i)) == b[i..i + 4]
  {
    var x := U32At(b, i);
    assert x / 0x1_0000 == U16At(b, i) && x % 0x1_0000 == U16At(b, i + 2);
    Be16OfU16(b, i);
    Be16OfU16(b, i + 2);
  }

  /** s with the octets from off onwards replaced by src. */
  function Put(s: seq<byte>, off: nat, src: seq<byte>): (r: seq<byte>)
    requires off + |src| <= |s|
    ensures |r| == |s|
    ensures forall k :: 0 <= k < |s| ==> r[k] == if off <= k < off + |src| then src[k - off] else s[k]
  {
    s[..off] + src + s[off + |src|..]
  }

  /** The octets from off onwards. */
  predicate FieldIs(s: seq<byte>, off: nat, octets: seq<byte>) {
    off + |octets| <= |s| && s[off..off + |octets|] == octets
  }

  function Zeros(n: nat): (z: seq<byte>)
    ensures |z| == n && forall k :: 0 <= k < n ==> z[k] == 0
  {
    seq(n, _ => 0)
  }

  /** memcpy into a buffer. */
  method Memcpy(dst: array<byte>, off: nat, src: seq<byte>)
    requires off + |src| <= dst.Length
    modifies dst
    ensures dst[..] == Put(old(dst[..]), off, src)
  {
    var i := 0;
    while i < |src|
      invariant 0 <= i <= |src|
      invariant forall k :: 0 <= k < dst.Length ==>
        dst[k] == if off <= k < off + i then src[k - off] else old(dst[k])
    {
      dst[off + i] := src[i];
      i := i + 1;
    }
  }

  /** A local buffer after memset(buf, 0, n). */
  method ZeroedBuffer(n: nat) returns (buf: array<byte>)
    ensures fresh(buf) && buf.Length == n && buf[..] == Zeros(n)
  {
    buf := new byte[n];
    var i := 0;
    while i < n
      invariant 0 <= i <= n
      invariant forall k :: 0 <= k < i ==> buf[k] == 0
    {
      buf[i] := 0;
      i := i + 1;
    }
  }
}
