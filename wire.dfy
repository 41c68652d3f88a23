/** Fixed-width integers as Go spells them, and the little-endian byte
    layouts the Wayland wire format uses for them. */
module Wire {

  type uint8 = x: int | 0 <= x < 0x100
  type uint16 = x: int | 0 <= x < 0x1_0000
  type uint32 = x: int | 0 <= x < 0x1_0000_0000
  type int32 = x: int | -0x8000_0000 <= x < 0x8000_0000
  type int64 = x: int | -0x8000_0000_0000_0000 <= x < 0x8000_0000_0000_0000

  datatype Option<T> = None | Some(value: T)

  datatype Result<T> = Ok(value: T) | Err(msg: string)

  /** Go's `uint32(x)` on any integer: keep the low 32 bits. */
  function ToUint32(x: int): (r: uint32)
    ensures (r - x) % 0x1_0000_0000 == 0
  {
    x % 0x1_0000_0000
  }

  /** Go's `int32(u)`: the same 32 bits read as two's complement. */
  function ToInt32(u: uint32): (r: int32)
    ensures ToUint32(r) == u
    ensures r < 0 <==> u >= 0x8000_0000
  {
    if u < 0x8000_0000 then u else u - 0x1_0000_0000
  }

  lemma Int32Bits(i: int32)
    ensures ToInt32(ToUint32(i)) == i
  {
  }

  function LE16(v: uint16): (r: seq<uint8>)
    ensures |r| == 2
  {
    [v % 0x100, v / 0x100]
  }

  /** The 16-bit value of two little-endian bytes: the first byte is the low one. */
  function FromLE16(b: seq<uint8>): (v: uint16)
    requires |b| == 2
    ensures v % 0x100 == b[0] && v / 0x100 == b[1]
  {
    b[0] as int + 0x100 * (b[1] as int)
  }

  function LE32(v: uint32): (r: seq<uint8>)
    ensures |r| == 4
  {
    LE16(v % 0x1_0000) + LE16(v / 0x1_0000)
  }

  /** The word of four little-endian bytes: byte i carries bits 8i to 8i+7. */
  function FromLE32(b: seq<uint8>): (v: uint32)
    requires |b| == 4
    ensures v % 0x100 == b[0] && (v / 0x100) % 0x100 == b[1]
    ensures (v / 0x1_0000) % 0x100 == b[2] && v / 0x100_0000 == b[3]
  {
    FromLE16(b[..2]) as int + 0x1_0000 * (FromLE16(b[2..]) as int)
  }

  lemma LE16RoundTrip(v: uint16)
    ensures FromLE16(LE16(v)) == v
  {
  }

  lemma FromLE16RoundTrip(b: seq<uint8>)
    requires |b| == 2
    ensures LE16(FromLE16(b)) == b
  {
  }

  /** Decoding the four bytes written for `v` gives `v` back. */
  lemma {:induction false} LE32RoundTrip(v: uint32)
    ensures FromLE32(LE32(v)) == v
  {
    var e := LE32(v);
    assert e[..2] == LE16(v % 0x1_0000);
    assert e[2..] == LE16(v / 0x1_0000);
    LE16RoundTrip(v % 0x1_0000);
    LE16RoundTrip(v / 0x1_0000);
  }

  /** Every four bytes are the encoding of exactly one word. */
  lemma {:induction false} FromLE32RoundTrip(b: seq<uint8>)
    requires |b| == 4
    ensures LE32(FromLE32(b)) == b
  {
    var lo, hi := FromLE16(b[..2]), FromLE16(b[2..]);
    var v: int := lo as int + 0x1_0000 * (hi as int);
    assert v % 0x1_0000 == lo && v / 0x1_0000 == hi;
    FromLE16RoundTrip(b[..2]);
    FromLE16RoundTrip(b[2..]);
    assert b == b[..2] + b[2..];
  }

  /** A sequence of `k` zero bytes. */
  function Zeros(k: nat): (r: seq<uint8>)
    ensures |r| == k
    ensures forall i :: 0 <= i < k ==> r[i] == 0
  {
    seq(k, _ => 0)
  }

  /** A prefix one element longer. */
  lemma TakeSnoc<T>(s: seq<T>, i: nat)
    requires i < |s|
    ensures s[..i + 1] == s[..i] + [s[i]]
  {
  }

  /** The last element of `xs + ys`, and what comes before it, for a
      non-empty `ys`. */
  lemma AppendLast<T>(xs: seq<T>, ys: seq<T>)
    requires ys != []
    ensures (xs + ys)[..|xs + ys| - 1] == xs + ys[..|ys| - 1]
    ensures (xs + ys)[|xs + ys| - 1] == ys[|ys| - 1]
  {
  }
}
