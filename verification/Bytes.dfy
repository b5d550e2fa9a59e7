/** Byte strings, the C++ `char`/`std::string` of the framework, and the
    big-endian 32-bit integers its wire format is made of. */
module Bytes {

  type Byte = c: char | c as int < 256

  /** The contents of a `std::string` or of a `std::vector<char>`. */
  type Bytes = seq<Byte>

  type Int32 = n: int | -0x8000_0000 <= n < 0x8000_0000

  datatype Option<+T> = None | Some(value: T)

  /** `static_cast<uint32_t>`: two's complement. */
  function Unsigned(n: Int32): (u: nat)
    ensures u < 0x1_0000_0000
  {
    if n < 0 then n + 0x1_0000_0000 else n
  }

  /** `static_cast<int32_t>` of an unsigned word. */
  function Signed(u: nat): Int32
    requires u < 0x1_0000_0000
  {
    if u < 0x8000_0000 then u else u - 0x1_0000_0000
  }

  /** The four bytes `htonl` puts on the wire. */
  function EncodeInt32(n: Int32): (b: Bytes)
    ensures |b| == 4
  {
    var u := Unsigned(n);
    [(u / 0x100_0000) as char, (u / 0x1_0000 % 256) as char, (u / 256 % 256) as char, (u % 256) as char]
  }

  /** `ntohl` and the cast back to a signed integer. */
  function DecodeInt32(b: Bytes): Int32
    requires |b| == 4
  {
    Signed(b[0] as int * 0x100_0000 + b[1] as int * 0x1_0000 + b[2] as int * 256 + b[3] as int)
  }

  /** Byte by byte, the first difference decides. */
  predicate Smaller(a: Bytes, b: Bytes)
    requires |a| == |b|
  {
    a != [] && (a[0] < b[0] || (a[0] == b[0] && Smaller(a[1..], b[1..])))
  }

  /** Network order: the most significant byte comes first, so comparing bytes compares numbers. */
  lemma NetworkOrder(m: Int32, n: Int32)
    requires 0 <= m && 0 <= n
    ensures Smaller(EncodeInt32(m), EncodeInt32(n)) <==> m < n
  {
    var a, b := EncodeInt32(m), EncodeInt32(n);
    Int32RoundTrip(m);
    Int32RoundTrip(n);
    hide EncodeInt32;
    DenotedOrder(a, b);
  }

  lemma DenotedOrder(a: Bytes, b: Bytes)
    requires |a| == |b| == 4 && 0 <= DecodeInt32(a) && 0 <= DecodeInt32(b)
    ensures Smaller(a, b) <==> DecodeInt32(a) < DecodeInt32(b)
  {
    SmallerFour(a, b);
    hide Smaller;
  }

  lemma SmallerFour(a: Bytes, b: Bytes)
    requires |a| == |b| == 4
    ensures Smaller(a, b) <==>
            || a[0] < b[0]
            || (a[0] == b[0] && (a[1] < b[1] || (a[1] == b[1] && (a[2] < b[2] || (a[2] == b[2] && a[3] < b[3])))))
  {
    assert Smaller(a[1..], b[1..]) <==> a[1] < b[1] || (a[1] == b[1] && Smaller(a[2..], b[2..])) by {
      assert a[1..][1..] == a[2..] && b[1..][1..] == b[2..];
    }
    assert Smaller(a[2..], b[2..]) <==> a[2] < b[2] || (a[2] == b[2] && Smaller(a[3..], b[3..])) by {
      assert a[2..][1..] == a[3..] && b[2..][1..] == b[3..];
    }
    assert Smaller(a[3..], b[3..]) <==> a[3] < b[3];
  }

  /** Every signed value survives the wire, negative ones included. */
  lemma Int32RoundTrip(n: Int32)
    ensures DecodeInt32(EncodeInt32(n)) == n
  {
    var u := Unsigned(n);
    assert u / 256 == u / 0x1_0000 * 256 + u / 256 % 256;
  }

  /** Four wire bytes are the encoding of the number they decode to. */
  lemma Int32Canonical(b: Bytes)
    requires |b| == 4
    ensures EncodeInt32(DecodeInt32(b)) == b
  {
    var hi, mid, lo, last := b[0] as int, b[1] as int, b[2] as int, b[3] as int;
    var u := hi * 0x100_0000 + mid * 0x1_0000 + lo * 256 + last;
    assert Unsigned(Signed(u)) == u;
    assert u / 0x100_0000 == hi;
    assert u / 0x1_0000 == hi * 256 + mid;
    assert u / 256 == (hi * 256 + mid) * 256 + lo;
  }
}
