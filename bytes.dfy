/** Bytes, optional values and the fixed-width little-endian integers that the
    compressed file header and the directory archive are made of. The header
    and archive writers dump C `int`, `long long` and `unsigned long long`
    values with `fwrite`, which on the little-endian machines the program runs
    on lays them out least significant byte first. */
module Bytes {

  /** One byte (`unsigned char`). */
  newtype byte = x: int | 0 <= x < 256

  datatype Option<T> = None | Some(value: T)

  function Pow256(n: nat): (r: nat)
    ensures r >= 1
  {
    if n == 0 then 1 else 256 * Pow256(n - 1)
  }

  /** The `n`-byte little-endian layout of `x`, keeping only the low `n` bytes
      (what a store of `x` into an `n`-byte C integer keeps). */
  function LE(x: nat, n: nat): (r: seq<byte>)
    ensures |r| == n
  {
    if n == 0 then [] else [(x % 256) as byte] + LE(x / 256, n - 1)
  }

  /** The unsigned value of a little-endian byte string. */
  function FromLE(s: seq<byte>): nat
  {
    if s == [] then 0 else s[0] as nat + 256 * FromLE(s[1..])
  }

  lemma DivModUnique(x: int, d: int, a: int, b: int)
    requires 0 < d && 0 <= b < d && x == a * d + b
    ensures x % d == b && x / d == a
  {
    var q, r := x / d, x % d;
    assert x == q * d + r;
    if a > q {
      assert (a - q) * d >= d by { MulAtLeast(a - q, d); }
      assert false;
    } else if a < q {
      assert (q - a) * d >= d by { MulAtLeast(q - a, d); }
      assert false;
    }
  }

  lemma MulAtLeast(k: int, d: int)
    requires k >= 1 && d > 0
    ensures k * d >= d
  {
  }

  /** Reading back the `n` bytes written by `LE` gives `x` modulo 256^n. */
  lemma {:induction false} FromLEOfLE(x: nat, n: nat)
    ensures FromLE(LE(x, n)) == x % Pow256(n)
  {
    if n > 0 {
      var s := LE(x, n);
      assert s[1..] == LE(x / 256, n - 1);
      FromLEOfLE(x / 256, n - 1);
      var p := Pow256(n - 1);
      var q, m := (x / 256) / p, (x / 256) % p;
      assert x / 256 == q * p + m;
      assert x == 256 * (x / 256) + x % 256;
      assert x == q * (256 * p) + (256 * m + x % 256);
      assert 256 * m + x % 256 < 256 * p by { MulAtLeast(p - m, 256); }
      DivModUnique(x, 256 * p, q, 256 * m + x % 256);
    }
  }

  /** Unsigned values that fit are recovered exactly. */
  lemma FromLEOfLEFits(x: nat, n: nat)
    requires x < Pow256(n)
    ensures FromLE(LE(x, n)) == x
  {
    FromLEOfLE(x, n);
    DivModUnique(x, Pow256(n), 0, x);
  }

  const Two31: int := 0x8000_0000
  const Two32: int := 0x1_0000_0000
  const Two63: int := 0x8000_0000_0000_0000
  const Two64: int := 0x1_0000_0000_0000_0000

  lemma Pow256Values()
    ensures Pow256(4) == Two32 && Pow256(8) == Two64
  {
    assert Pow256(2) == 0x1_0000;
    assert Pow256(4) == 0x1_0000_0000;
    assert Pow256(6) == 0x1_0000_0000_0000;
  }

  /** A C `int` as 4 stored bytes (two's complement, low byte first). */
  function Int32LE(x: int): (r: seq<byte>)
    ensures |r| == 4
  {
    LE(x % Two32, 4)
  }

  /** A C `long long` (or `unsigned long long`) as 8 stored bytes. */
  function Int64LE(x: int): (r: seq<byte>)
    ensures |r| == 8
  {
    LE(x % Two64, 8)
  }

  /** The C `int` held by 4 stored bytes. */
  function ReadInt32(s: seq<byte>): (r: int)
    requires |s| == 4
    ensures -Two31 <= r < Two31
  {
    FromLEBound(s);
    Pow256Values();
    var u := FromLE(s);
    if u >= Two31 then u - Two32 else u
  }

  /** The C `long long` held by 8 stored bytes. */
  function ReadInt64(s: seq<byte>): (r: int)
    requires |s| == 8
    ensures -Two63 <= r < Two63
  {
    FromLEBound(s);
    Pow256Values();
    var u := FromLE(s);
    if u >= Two63 then u - Two64 else u
  }

  /** The C `unsigned long long` held by 8 stored bytes. */
  function ReadUInt64(s: seq<byte>): (r: nat)
    requires |s| == 8
    ensures r < Two64
  {
    FromLEBound(s);
    Pow256Values();
    FromLE(s)
  }

  /** The value of two stored fields side by side. */
  lemma {:induction false} FromLEAppend(a: seq<byte>, b: seq<byte>)
    ensures FromLE(a + b) == FromLE(a) + Pow256(|a|) * FromLE(b)
  {
    if a != [] {
      assert (a + b)[0] == a[0] && (a + b)[1..] == a[1..] + b;
      FromLEAppend(a[1..], b);
      ScaleSum(FromLE(a[1..]), Pow256(|a| - 1), FromLE(b));
    } else {
      assert a + b == b;
    }
  }

  lemma ScaleSum(x: int, p: int, y: int)
    ensures 256 * (x + p * y) == 256 * x + (256 * p) * y
  {
  }

  lemma {:induction false} FromLEBound(s: seq<byte>)
    ensures FromLE(s) < Pow256(|s|)
  {
    if s != [] {
      FromLEBound(s[1..]);
      assert 256 * FromLE(s[1..]) <= 256 * (Pow256(|s| - 1) - 1) by {
        MulAtLeast(1, 256);
      }
    }
  }

  /** Every `int` value survives a store and a load. */
  lemma Int32RoundTrip(x: int)
    requires -Two31 <= x < Two31
    ensures ReadInt32(Int32LE(x)) == x
  {
    Pow256Values();
    FromLEOfLEFits(x % Two32, 4);
    if x < 0 { DivModUnique(x, Two32, -1, x + Two32); } else { DivModUnique(x, Two32, 0, x); }
  }

  /** Every `long long` value survives a store and a load. */
  lemma Int64RoundTrip(x: int)
    requires -Two63 <= x < Two63
    ensures ReadInt64(Int64LE(x)) == x
  {
    Pow256Values();
    FromLEOfLEFits(x % Two64, 8);
    if x < 0 { DivModUnique(x, Two64, -1, x + Two64); } else { DivModUnique(x, Two64, 0, x); }
  }

  /** Every `unsigned long long` value survives a store and a load. */
  lemma UInt64RoundTrip(x: nat)
    requires x < Two64
    ensures ReadUInt64(Int64LE(x)) == x
  {
    Pow256Values();
    DivModUnique(x, Two64, 0, x);
    FromLEOfLEFits(x, 8);
  }
}
