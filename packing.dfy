/** The bit layout of the compressed payload written by `compressFile` in
    readFile.c: code bits are shifted into a one-byte buffer most significant
    bit first, every eighth bit flushes the buffer, and a final partial byte
    is shifted left so that its bits sit at the top, the rest being zero. */
module Packing {
  import opened Bytes

  function Pow2(n: nat): (r: nat)
    ensures r >= 1
  {
    if n == 0 then 1 else 2 * Pow2(n - 1)
  }

  function Bit(x: bool): nat
  {
    if x then 1 else 0
  }

  /** The number a bit string stands for, first bit most significant. */
  function BitsValue(s: seq<bool>): (v: nat)
    ensures v < Pow2(|s|)
  {
    if s == [] then 0 else 2 * BitsValue(s[..|s| - 1]) + Bit(s[|s| - 1])
  }

  function Zeros(n: nat): (z: seq<bool>)
    ensures |z| == n && forall i :: 0 <= i < n ==> !z[i]
  {
    seq(n, _ => false)
  }

  /** Eight bits as one byte, the first bit most significant. */
  function ByteOf(s: seq<bool>): byte
    requires |s| == 8
  {
    assert BitsValue(s) < Pow2(8) == 256;
    BitsValue(s) as byte
  }

  /** Fewer than eight bits, left-aligned in a byte over zeros. */
  function PadByte(p: seq<bool>): byte
    requires |p| < 8
  {
    ByteOf(p + Zeros(8 - |p|))
  }

  /** The bytes flushed after every eighth bit. */
  function FullBytes(bits: seq<bool>): seq<byte>
  {
    if |bits| < 8 then [] else [ByteOf(bits[..8])] + FullBytes(bits[8..])
  }

  /** The bits not yet flushed: fewer than eight. */
  function Pending(bits: seq<bool>): (p: seq<bool>)
    ensures |p| < 8
  {
    if |bits| < 8 then bits else Pending(bits[8..])
  }

  /** The whole payload: a byte per eight bits, and the last few bits (if
      any) in one more byte padded with zeros at the bottom. */
  function Pack(bits: seq<bool>): seq<byte>
  {
    if bits == [] then []
    else if |bits| < 8 then [PadByte(bits)]
    else [ByteOf(bits[..8])] + Pack(bits[8..])
  }

  /** How many zero bits the last byte carries. */
  function PadLength(n: nat): (k: nat)
    ensures k < 8 && (n + k) % 8 == 0
  {
    (8 - n % 8) % 8
  }

  /** The `n` low bits of `v`, most significant first. */
  function BitsOf(v: nat, n: nat): (s: seq<bool>)
    ensures |s| == n
  {
    if n == 0 then [] else BitsOf(v / 2, n - 1) + [v % 2 == 1]
  }

  /** Reference inverse of packing: every byte back to its 8 bits. */
  function Unpack(bytes: seq<byte>): (bits: seq<bool>)
    ensures |bits| == 8 * |bytes|
  {
    if bytes == [] then [] else BitsOf(bytes[0] as nat, 8) + Unpack(bytes[1..])
  }

  lemma {:induction false} BitsOfValue(s: seq<bool>)
    ensures BitsOf(BitsValue(s), |s|) == s
  {
    if s != [] {
      var init := s[..|s| - 1];
      BitsOfValue(init);
      DivModUnique(BitsValue(s), 2, BitsValue(init), Bit(s[|s| - 1]));
      assert s == init + [s[|s| - 1]];
    }
  }

  lemma UnpackAppend(a: seq<byte>, b: seq<byte>)
    ensures Unpack(a + b) == Unpack(a) + Unpack(b)
  {
    if a != [] {
      var ab := a + b;
      assert ab[0] == a[0];
      assert ab[1..] == a[1..] + b;
      UnpackAppend(a[1..], b);
      calc {
        Unpack(ab);
        BitsOf(ab[0] as nat, 8) + Unpack(ab[1..]);
        BitsOf(a[0] as nat, 8) + (Unpack(a[1..]) + Unpack(b));
        (BitsOf(a[0] as nat, 8) + Unpack(a[1..])) + Unpack(b);
      }
    } else {
      assert a + b == b;
    }
  }

  /** Unpacking the payload gives back the code bits followed by the zero
      padding of the last byte, so the payload is ceil(bits / 8) bytes. */
  lemma {:induction false} PackRoundTrip(bits: seq<bool>)
    ensures |Pack(bits)| == (|bits| + 7) / 8
    ensures Unpack(Pack(bits)) == bits + Zeros(PadLength(|bits|))
    decreases |bits|
  {
    if bits == [] {
      assert Zeros(0) == [];
    } else if |bits| < 8 {
      PackShort(bits);
    } else {
      var rest := bits[8..];
      PackRoundTrip(rest);
      PackLong(bits);
    }
  }

  /** Fewer than eight bits: one padded byte. */
  lemma PackShort(bits: seq<bool>)
    requires 0 < |bits| < 8
    ensures |Pack(bits)| == 1
    ensures Unpack(Pack(bits)) == bits + Zeros(PadLength(|bits|))
  {
    var n := |bits|;
    var padded := bits + Zeros(8 - n);
    assert PadLength(n) == 8 - n by {
      DivModUnique(n, 8, 0, n);
      DivModUnique(8 - n, 8, 0, 8 - n);
    }
    BitsOfValue(padded);
    var x := PadByte(bits);
    assert x as nat == BitsValue(padded);
    assert Pack(bits) == [x];
    assert Unpack([x]) == BitsOf(x as nat, 8) + Unpack([]);
  }

  /** Eight bits or more: the first byte, then the rest packed alike. */
  lemma PackLong(bits: seq<bool>)
    requires |bits| >= 8
    requires |Pack(bits[8..])| == (|bits| - 8 + 7) / 8
    requires Unpack(Pack(bits[8..])) == bits[8..] + Zeros(PadLength(|bits| - 8))
    ensures |Pack(bits)| == (|bits| + 7) / 8
    ensures Unpack(Pack(bits)) == bits + Zeros(PadLength(|bits|))
  {
    var rest := bits[8..];
    BitsOfValue(bits[..8]);
    var packed := Pack(bits);
    assert packed == [ByteOf(bits[..8])] + Pack(rest);
    assert packed[0] == ByteOf(bits[..8]) && packed[1..] == Pack(rest);
    assert PadLength(|rest|) == PadLength(|bits|) by {
      DivModUnique(|bits|, 8, |rest| / 8 + 1, |rest| % 8);
    }
    assert Unpack(packed) == bits[..8] + (rest + Zeros(PadLength(|bits|)));
    assert bits == bits[..8] + rest;
  }

  /** The payload is the flushed bytes, then the padded pending bits. */
  lemma {:induction false} PackSplit(bits: seq<bool>)
    ensures Pack(bits) == FullBytes(bits) + if Pending(bits) == [] then [] else [PadByte(Pending(bits))]
    decreases |bits|
  {
    if |bits| >= 8 {
      PackSplit(bits[8..]);
    }
  }

  // ---------------------------------------------------------------------
  // Facts the packing loop steps through

  /** One more bit either joins the pending bits or completes a byte. */
  lemma {:induction false} PackStep(bits: seq<bool>, x: bool)
    ensures |Pending(bits)| < 7 ==>
      FullBytes(bits + [x]) == FullBytes(bits) && Pending(bits + [x]) == Pending(bits) + [x]
    ensures |Pending(bits)| == 7 ==>
      FullBytes(bits + [x]) == FullBytes(bits) + [ByteOf(Pending(bits) + [x])] && Pending(bits + [x]) == []
    decreases |bits|
  {
    var bx := bits + [x];
    if |bits| >= 8 {
      var rest := bits[8..];
      assert bx[..8] == bits[..8];
      assert bx[8..] == rest + [x];
      PackStep(rest, x);
    } else if |bits| == 7 {
      assert bx[..8] == bx && bx[8..] == [];
    }
  }

  /** `byteBuffer <<= 1; if (bit) byteBuffer |= 1;` on an `unsigned char`
      keeps the low `c + 1` bits equal to the pending bits, whatever the
      buffer held above them. */
  lemma ShiftInBit(b: byte, c: nat, x: bool)
    requires c < 8
    ensures ((b as int * 2) % 256 + Bit(x)) % Pow2(c + 1) == 2 * (b as int % Pow2(c)) + Bit(x)
  {
    var v := b as int;
    var p := Pow2(c);
    var n := Pow2(c + 1);
    var m := Pow2(8 - (c + 1));
    var r := v % p;
    assert n == 2 * p;
    assert m * n == 256 by {
      PowSplit(c + 1, 8 - (c + 1));
      assert Pow2(8) == 256;
    }
    var s := (v * 2) % 256;
    ModOfMultiple(v * 2, n, m);
    assert s % n == (v * 2) % n;
    assert v * 2 == (v / p) * n + 2 * r by { Doubled(v, p); }
    DivModUnique(v * 2, n, v / p, 2 * r);
    AddSmall(s, Bit(x), n);
  }

  lemma Doubled(v: int, p: int)
    requires p > 0
    ensures v * 2 == (v / p) * (2 * p) + 2 * (v % p)
  {
  }

  /** Reducing modulo a multiple of `n` keeps the remainder modulo `n`. */
  lemma ModOfMultiple(x: int, n: int, m: int)
    requires n > 0 && m > 0
    ensures (x % (m * n)) % n == x % n
  {
    var a, s := x / (m * n), x % (m * n);
    var c, d := s / n, s % n;
    assert x == (a * m + c) * n + d by {
      assert x == a * (m * n) + s;
      assert s == c * n + d;
      assert a * (m * n) == (a * m) * n;
    }
    DivModUnique(x, n, a * m + c, d);
  }

  /** Adding less than the room left below `n` adds to the remainder. */
  lemma AddSmall(x: int, y: int, n: int)
    requires n > 0 && y >= 0 && x % n + y < n
    ensures (x + y) % n == x % n + y
  {
    DivModUnique(x + y, n, x / n, x % n + y);
  }

  lemma {:induction false} PowSplit(a: nat, b: nat)
    ensures Pow2(a + b) == Pow2(a) * Pow2(b)
  {
    if a > 0 { PowSplit(a - 1, b); }
  }

  /** `byteBuffer <<= (8 - bitCount)` on an `unsigned char` holding `c`
      pending bits at the bottom moves them to the top, zeros beneath. */
  lemma FlushPartial(b: byte, c: nat)
    requires 0 < c < 8
    ensures (b as int * Pow2(8 - c)) % 256 == (b as int % Pow2(c)) * Pow2(8 - c)
  {
    var p, k := Pow2(c), Pow2(8 - c);
    PowSplit(c, 8 - c);
    assert Pow2(8) == 256;
    assert p * k == 256;
    var q, r := b as int / p, b as int % p;
    assert b as int * k == q * 256 + r * k;
    assert r * k < 256 by { MulAtLeast(p - r, k); }
    DivModUnique(b as int * k, 256, q, r * k);
  }

  /** Appending zeros scales the value. */
  lemma {:induction false} BitsValueZeros(s: seq<bool>, k: nat)
    ensures BitsValue(s + Zeros(k)) == BitsValue(s) * Pow2(k)
  {
    if k > 0 {
      var u := s + Zeros(k);
      assert u[..|u| - 1] == s + Zeros(k - 1);
      assert !u[|u| - 1];
      BitsValueZeros(s, k - 1);
      var w := BitsValue(s);
      assert BitsValue(u) == 2 * (w * Pow2(k - 1));
      assert 2 * (w * Pow2(k - 1)) == w * (2 * Pow2(k - 1)) by { Twice(w, Pow2(k - 1)); }
    } else {
      assert s + Zeros(0) == s;
    }
  }

  lemma Twice(w: int, q: int)
    ensures 2 * (w * q) == w * (2 * q)
  {
  }

  /** What `byteBuffer <<= (8 - bitCount)` makes of a buffer whose low
      bits are the pending bits: the padded last byte. */
  lemma LastByte(p: seq<bool>, b: byte)
    requires 0 < |p| < 8
    requires b as int % Pow2(|p|) == BitsValue(p)
    ensures (b as int * Pow2(8 - |p|)) % 256 == PadByte(p) as int
  {
    FlushPartial(b, |p|);
    BitsValueZeros(p, 8 - |p|);
  }
}
