/**
 common/encode.c: integers of a fixed width in a buffer. The bytes are those of the value in
 memory, in two's complement and least significant first.
 */
module Encode {
  import opened RbOrder
  import opened Errno
  import opened Buffer

  function Pow256(n: nat): (p: nat)
    ensures p > 0
  {
    if n == 0 then 1 else 256 * Pow256(n - 1)
  }

  function Digits(u: nat, width: nat): (b: Bytes)
    ensures |b| == width
  {
    if width == 0 then [] else [(u % 256) as byte] + Digits(u / 256, width - 1)
  }

  function Number(b: Bytes): nat {
    if b == [] then 0 else b[0] as nat + 256 * Number(b[1..])
  }

  lemma {:induction false} NumberOfDigits(u: nat, width: nat)
    requires u < Pow256(width)
    ensures Number(Digits(u, width)) == u
  {
    if width > 0 {
      NumberOfDigits(u / 256, width - 1);
      assert Digits(u, width)[1..] == Digits(u / 256, width - 1);
    }
  }

  lemma {:induction false} DigitsOfNumber(b: Bytes)
    ensures Number(b) < Pow256(|b|) && Digits(Number(b), |b|) == b
  {
    if b != [] {
      DigitsOfNumber(b[1..]);
      assert Number(b) / 256 == Number(b[1..]) && Number(b) % 256 == b[0] as int;
      assert b == [b[0]] + b[1..];
    }
  }

  /** The values of a signed integer of `width` bytes. */
  predicate Fits(v: int, width: nat) {
    0 - Pow256(width) <= 2 * v < Pow256(width)
  }

  function IntBytes(v: int, width: nat): (b: Bytes)
    requires Fits(v, width)
    ensures |b| == width
  {
    Digits(if v < 0 then v + Pow256(width) else v, width)
  }

  function IntOf(b: Bytes): int {
    var u := Number(b);
    if 2 * u < Pow256(|b|) then u else u - Pow256(|b|)
  }

  lemma IntRoundTrip(v: int, width: nat)
    requires Fits(v, width)
    ensures IntOf(IntBytes(v, width)) == v
  {
    NumberOfDigits(if v < 0 then v + Pow256(width) else v, width);
  }

  lemma BytesRoundTrip(b: Bytes)
    ensures Fits(IntOf(b), |b|) && IntBytes(IntOf(b), |b|) == b
  {
    DigitsOfNumber(b);
  }

  // ---- which byte is where ----

  lemma AtLeast(d: nat, x: int)
    requires d > 0
    ensures x > 0 ==> d * x >= d
    ensures x < 0 ==> d * x + d <= 0
  {}

  lemma Multiple(d: nat, x: int, y: int)
    ensures d * x - d * y == d * (x - y)
  {}

  lemma DivIs(u: int, d: nat, q: int, r: int)
    requires r < d && 0 <= r && u == d * q + r
    ensures u / d == q
  {
    var x := u / d;
    assert u == d * x + u % d;
    Multiple(d, x, q);
    AtLeast(d, x - q);
  }

  lemma DivDiv(u: int, p: nat)
    requires p > 0
    ensures u / 256 / p == u / (256 * p)
  {
    var q := u / 256 / p;
    DivIs(u, 256 * p, q, 256 * (u / 256 % p) + u % 256);
  }

  lemma {:induction false} DigitAt(u: nat, width: nat, k: nat)
    requires k < width
    ensures Digits(u, width)[k] as int == u / Pow256(k) % 256
  {
    if k > 0 {
      DigitAt(u / 256, width - 1, k - 1);
      DivDiv(u, Pow256(k - 1));
    }
  }

  lemma {:induction false} Pow256Split(n: nat, k: nat)
    requires k <= n
    ensures Pow256(n) == Pow256(k) * Pow256(n - k)
  {
    if k > 0 {
      Pow256Split(n - 1, k - 1);
    }
  }

  lemma DivShift(v: int, p: nat, w: int)
    requires p > 0
    ensures (v + p * w) / p == v / p + w
  {
    Multiple(p, v / p, -w);
    DivIs(v + p * w, p, v / p + w, v % p);
  }

  lemma DigitShift(v: int, p: nat, w: int)
    requires p > 0
    ensures (v + p * (256 * w)) / p % 256 == v / p % 256
  {
    DivShift(v, p, 256 * w);
    var q := v / p;
    assert (q + 256 * w) % 256 == q % 256;
  }

  /** The byte at place `k` is the one of weight 256^k, also of a negative integer. */
  lemma ByteAt(v: int, width: nat, k: nat)
    requires Fits(v, width) && k < width
    ensures IntBytes(v, width)[k] as int == v / Pow256(k) % 256
  {
    hide Digits, Pow256;
    PowNext(width - k - 1);
    if v < 0 {
      DigitAt(v + Pow256(width), width, k);
      Pow256Split(width, k);
      DigitShift(v, Pow256(k), Pow256(width - k - 1));
    } else {
      DigitAt(v, width, k);
    }
  }

  lemma PowNext(n: nat)
    ensures Pow256(n + 1) == 256 * Pow256(n)
  {}

  /** The bytes that a reader has not read yet. */
  ghost function Rest(reader: Reader): Bytes
    requires reader.Valid()
    reads reader, reader.buffer, reader.buffer.nodes, reader.buffer.arrays
  {
    reader.Standing();
    reader.buffer.content[reader.Pos()..]
  }

  method EncodeInt(buffer: Buffer, value: int, width: nat)
    requires buffer.Valid() && width > 0 && Fits(value, width)
    modifies buffer, buffer.nodes, buffer.arrays
    ensures buffer.Valid() && buffer.content == old(buffer.content) + IntBytes(value, width)
    ensures fresh(set n | n in buffer.nodes && n !in old(buffer.nodes)) && fresh(buffer.arrays - old(buffer.arrays))
  {
    buffer.Append(IntBytes(value, width));
  }

  /** What decoding makes of a variable that holds `was`: when fewer bytes are left than the
      integer has, they replace its first bytes only. */
  ghost function TakeInt(b: Bytes, width: nat, was: int): (r: (int, Bytes))
    requires Fits(was, width)
    ensures Fits(r.0, width)
  {
    var n := if width <= |b| then width else |b|;
    var bytes := b[..n] + IntBytes(was, width)[n..];
    BytesRoundTrip(bytes);
    (IntOf(bytes), b[n..])
  }

  /** Enough bytes: the old value does not matter. */
  lemma TakeWhole(b: Bytes, width: nat, was: int)
    requires Fits(was, width) && width <= |b|
    ensures TakeInt(b, width, was) == (IntOf(b[..width]), b[width..])
  {
    assert b[..width] + IntBytes(was, width)[width..] == b[..width];
  }

  method DecodeInt(reader: Reader, width: nat, was: int) returns (ret: int, value: int)
    requires reader.Valid() && width > 0 && Fits(was, width) && reader.buffer.content != []
    modifies reader
    ensures reader.Valid() && (value, Rest(reader)) == TakeInt(old(Rest(reader)), width, was)
    ensures ret == if width <= |old(Rest(reader))| then OK else ERR_BUFFER_END
    ensures Fits(value, width)
    ensures forall k :: 0 <= k < width ==>
      IntBytes(value, width)[k] == if k < |old(Rest(reader))| then old(Rest(reader))[k] else IntBytes(was, width)[k]
  {
    reader.Standing();
    hide Reader.Valid;
    ghost var content, pos := reader.buffer.content, reader.Pos();
    assert Rest(reader) == content[pos..];
    var data;
    ret, data := reader.Read(width);
    assert data == content[pos..][..|data|] && Rest(reader) == content[pos..][|data|..];
    value := IntOf(data + IntBytes(was, width)[|data|..]);
    BytesRoundTrip(data + IntBytes(was, width)[|data|..]);
  }
}
