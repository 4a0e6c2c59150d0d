/** The 4-byte rendering of a C `int` that Python's struct.pack('i', v) produces:
    signed 32-bit two's complement, in the machine's own byte order (the format
    has no '!', '<' or '>' prefix), raising struct.error outside the range. */
module Int32 {
  import opened Wrappers

  newtype byte = x: int | 0 <= x < 256

  /** The byte order of the machine running the program. */
  datatype ByteOrder = LittleEndian | BigEndian

  const TWO_31: int := 0x8000_0000
  const TWO_32: int := 0x1_0000_0000

  predicate InInt32(v: int) {
    -TWO_31 <= v < TWO_31
  }

  function Pow256(n: nat): (p: nat)
    ensures p >= 1
  {
    if n == 0 then 1 else 256 * Pow256(n - 1)
  }

  /** The `n` least significant base-256 digits of `u`, least significant first. */
  function ToLittle(u: nat, n: nat): (r: seq<byte>)
    ensures |r| == n
  {
    if n == 0 then [] else [(u % 256) as byte] + ToLittle(u / 256, n - 1)
  }

  /** The number whose base-256 digits, least significant first, are `b`. */
  function FromLittle(b: seq<byte>): nat {
    if b == [] then 0 else b[0] as nat + 256 * FromLittle(b[1..])
  }

  function Reverse<T>(s: seq<T>): (r: seq<T>)
    ensures |r| == |s|
    ensures forall i :: 0 <= i < |s| ==> r[i] == s[|s| - 1 - i]
  {
    if s == [] then [] else Reverse(s[1..]) + [s[0]]
  }

  lemma ReverseReverse<T>(s: seq<T>)
    ensures Reverse(Reverse(s)) == s
  {
    assert forall i :: 0 <= i < |s| ==> Reverse(Reverse(s))[i] == s[i];
  }

  lemma {:induction false} FromLittleBound(b: seq<byte>)
    ensures FromLittle(b) < Pow256(|b|)
  {
    if b != [] {
      FromLittleBound(b[1..]);
    }
  }

  /** Digits of a number that fits read back as that number. */
  lemma {:induction false} FromToLittle(u: nat, n: nat)
    requires u < Pow256(n)
    ensures FromLittle(ToLittle(u, n)) == u
  {
    if n > 0 {
      var r := ToLittle(u, n);
      assert r[1..] == ToLittle(u / 256, n - 1);
      FromToLittle(u / 256, n - 1);
    }
  }

  /** Every byte string is the digit string of the number it denotes. */
  lemma {:induction false} ToFromLittle(b: seq<byte>)
    ensures ToLittle(FromLittle(b), |b|) == b
  {
    if b != [] {
      var u := FromLittle(b);
      assert u % 256 == b[0] as int && u / 256 == FromLittle(b[1..]);
      ToFromLittle(b[1..]);
    }
  }

  /** Bytes of the 32-bit pattern `u` in the given order. */
  function Ordered(le: seq<byte>, order: ByteOrder): seq<byte> {
    if order == LittleEndian then le else Reverse(le)
  }

  /** struct.pack('i', v): four bytes, or None where Python raises struct.error. */
  function Pack(v: int, order: ByteOrder): (r: Option<seq<byte>>)
    ensures r.Some? <==> InInt32(v)
    ensures r.Some? ==> |r.value| == 4
  {
    if !InInt32(v) then None
    else
      var u := if v < 0 then v + TWO_32 else v;
      Some(Ordered(ToLittle(u, 4), order))
  }

  /** struct.unpack('i', b)[0]: the signed value of four bytes in the given order. */
  function Unpack(b: seq<byte>, order: ByteOrder): (v: int)
    requires |b| == 4
    ensures InInt32(v)
  {
    var le := Ordered(b, order);
    FromLittleBound(le);
    var u := FromLittle(le);
    if u >= TWO_31 then u - TWO_32 else u
  }

  lemma OrderedTwice(b: seq<byte>, order: ByteOrder)
    ensures Ordered(Ordered(b, order), order) == b
  {
    if order == BigEndian {
      ReverseReverse(b);
    }
  }

  /** Unpacking what was packed gives the value back, in either byte order. */
  lemma UnpackPack(v: int, order: ByteOrder)
    requires InInt32(v)
    ensures Pack(v, order).Some? && Unpack(Pack(v, order).value, order) == v
  {
    var u := if v < 0 then v + TWO_32 else v;
    assert Pow256(4) == TWO_32;
    FromToLittle(u, 4);
    OrderedTwice(ToLittle(u, 4), order);
  }

  /** Every four bytes are the packing of exactly the value they unpack to. */
  lemma PackUnpack(b: seq<byte>, order: ByteOrder)
    requires |b| == 4
    ensures Pack(Unpack(b, order), order) == Some(b)
  {
    var le := Ordered(b, order);
    assert Pow256(4) == TWO_32;
    FromLittleBound(le);
    ToFromLittle(le);
    OrderedTwice(b, order);
  }

  /** In little-endian order the first byte is the least significant one. */
  lemma PackLittle(v: nat)
    requires v < TWO_31
    ensures Pack(v, LittleEndian) == Some([(v % 256) as byte, (v / 256 % 256) as byte,
                                           (v / 65536 % 256) as byte, (v / 16777216) as byte])
  {
    assert v / 256 / 256 == v / 65536;
    assert v / 65536 / 256 == v / 16777216;
    assert v / 16777216 < 256;
    assert ToLittle(v, 4) == [(v % 256) as byte] + ToLittle(v / 256, 3);
    assert ToLittle(v / 256, 3) == [(v / 256 % 256) as byte] + ToLittle(v / 65536, 2);
    assert ToLittle(v / 65536, 2) == [(v / 65536 % 256) as byte] + ToLittle(v / 16777216, 1);
    assert ToLittle(v / 16777216, 1) == [(v / 16777216) as byte];
    var expected := [(v % 256) as byte, (v / 256 % 256) as byte,
                     (v / 65536 % 256) as byte, (v / 16777216) as byte];
    assert ToLittle(v, 4) == expected;
  }
}
