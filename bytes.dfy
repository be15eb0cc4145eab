/** Bytes, fixed-width unsigned integers and their big-endian encodings. */
module Bytes {
  import ModArith
  import Bits

  type Byte = bv8

  newtype u8 = x: int | 0 <= x < 0x100
  newtype u32 = x: int | 0 <= x < 0x1_0000_0000
  newtype u64 = x: int | 0 <= x < 0x1_0000_0000_0000_0000

  /** usize on the 64-bit targets the model assumes. */
  const USIZE_MAX: nat := 0xFFFF_FFFF_FFFF_FFFF

  /** The largest object size Rust allows on those targets. */
  const ISIZE_MAX: nat := 0x7FFF_FFFF_FFFF_FFFF

  /** `a.wrapping_add(b)` on a 64-bit usize. */
  function WrappingAdd(a: nat, b: nat): (r: nat)
    ensures r <= USIZE_MAX
    ensures a + b <= USIZE_MAX ==> r == a + b
  {
    (a + b) % (USIZE_MAX + 1)
  }

  /** `x.wrapping_add(1)` on a `u32`. */
  function WrappingIncU32(x: u32): (r: u32)
    ensures r as int == (x as int + 1) % 0x1_0000_0000
  {
    ((x as int + 1) % 0x1_0000_0000) as u32
  }

  /** `x.wrapping_add(1)` on a `u64`. */
  function WrappingIncU64(x: u64): (r: u64)
    ensures r as int == (x as int + 1) % 0x1_0000_0000_0000_0000
  {
    ((x as int + 1) % 0x1_0000_0000_0000_0000) as u64
  }

  /** Bytewise XOR of two byte strings of the same length. */
  function XorBytes(a: seq<Byte>, b: seq<Byte>): (r: seq<Byte>)
    requires |a| == |b|
    ensures |r| == |a|
  {
    seq(|a|, i requires 0 <= i < |a| => a[i] ^ b[i])
  }

  /** XOR-ing the same pad twice gives the input back. */
  lemma XorBytesCancel(a: seq<Byte>, b: seq<Byte>)
    requires |a| == |b|
    ensures XorBytes(XorBytes(a, b), b) == a
  {
  }

  /** XOR is commutative bytewise. */
  lemma XorBytesCommute(a: seq<Byte>, b: seq<Byte>)
    requires |a| == |b|
    ensures XorBytes(a, b) == XorBytes(b, a)
  {
    assert forall i :: 0 <= i < |a| ==> a[i] ^ b[i] == b[i] ^ a[i];
  }

  function Pow256(n: nat): (r: nat)
    ensures r > 0
  {
    if n == 0 then 1 else 256 * Pow256(n - 1)
  }

  lemma Pow256Widths()
    ensures Pow256(4) == 0x1_0000_0000
    ensures Pow256(8) == 0x1_0000_0000_0000_0000
  {
  }

  /** The unsigned integer whose big-endian encoding is `b` (`from_be_bytes`). */
  function FromBe(b: seq<Byte>): (x: nat)
    ensures x < Pow256(|b|)
  {
    if |b| == 0 then 0 else FromBe(b[..|b| - 1]) * 256 + b[|b| - 1] as nat
  }

  /** The `n`-byte big-endian encoding of `x` (`to_be_bytes`). */
  function ToBe(x: nat, n: nat): (r: seq<Byte>)
    requires x < Pow256(n)
    ensures |r| == n
  {
    if n == 0 then [] else ToBe(x / 256, n - 1) + [(x % 256) as Byte]
  }

  /** Decoding an encoding gives the number back. */
  lemma {:induction false} FromBeToBe(x: nat, n: nat)
    requires x < Pow256(n)
    ensures FromBe(ToBe(x, n)) == x
  {
    if n > 0 {
      var r := ToBe(x, n);
      var q, m := x / 256, x % 256;
      var d := m as Byte;
      assert r == ToBe(q, n - 1) + [d];
      assert r[..n - 1] == ToBe(q, n - 1);
      Bits.ByteOfNatMod(m);
      ModArith.ModUnique(m, 256, 0, m);
      assert d as nat == m;
      FromBeToBe(q, n - 1);
      assert FromBe(r) == q * 256 + m;
    }
  }

  /** Encoding a decoded string gives the bytes back. */
  lemma {:induction false} ToBeFromBe(b: seq<Byte>)
    ensures ToBe(FromBe(b), |b|) == b
  {
    if |b| > 0 {
      var n := |b|;
      var p := b[..n - 1];
      var x := FromBe(b);
      ModArith.DivModUnique(x, 256, FromBe(p), b[n - 1] as nat);
      ToBeFromBe(p);
      assert b == p + [b[n - 1]];
    }
  }

  function BeU32(b: seq<Byte>): u32
    requires |b| == 4
  {
    Pow256Widths();
    FromBe(b) as u32
  }

  function U32Be(x: u32): (r: seq<Byte>)
    ensures |r| == 4
  {
    Pow256Widths();
    ToBe(x as nat, 4)
  }

  function BeU64(b: seq<Byte>): u64
    requires |b| == 8
  {
    Pow256Widths();
    FromBe(b) as u64
  }

  function U64Be(x: u64): (r: seq<Byte>)
    ensures |r| == 8
  {
    Pow256Widths();
    ToBe(x as nat, 8)
  }

  /** `u64::from_be_bytes(x.to_be_bytes()) == x`. */
  lemma BeU64RoundTrip(x: u64)
    ensures BeU64(U64Be(x)) == x
  {
    Pow256Widths();
    FromBeToBe(x as nat, 8);
  }

  /** `u64::from_be_bytes(b).to_be_bytes() == b`. */
  lemma U64BeRoundTrip(b: seq<Byte>)
    requires |b| == 8
    ensures U64Be(BeU64(b)) == b
  {
    Pow256Widths();
    ToBeFromBe(b);
  }

  /** `u32::from_be_bytes(b).to_be_bytes() == b`. */
  lemma U32BeRoundTrip(b: seq<Byte>)
    requires |b| == 4
    ensures U32Be(BeU32(b)) == b
  {
    Pow256Widths();
    ToBeFromBe(b);
  }
}

module Wrappers {
  datatype Option<T> = None | Some(value: T)
}

/** Facts about Euclidean `%` with a divisor that is not a literal. */
module ModArith {

  lemma MulAtLeast(k: int, z: int)
    requires k >= 1 && z > 0
    ensures k * z >= z
  {
    assert k * z == z + (k - 1) * z;
  }

  /** The remainder is the unique `r` in `[0, z)` with `x == q * z + r`. */
  lemma ModUnique(x: int, z: int, q: int, r: int)
    requires z > 0 && 0 <= r < z && x == q * z + r
    ensures x % z == r
  {
    var q0, r0 := x / z, x % z;
    assert x == q0 * z + r0;
    assert (q - q0) * z == r0 - r;
    if q > q0 {
      MulAtLeast(q - q0, z);
    } else if q < q0 {
      MulAtLeast(q0 - q, z);
    }
  }

  /** Quotient and remainder are the unique pair with `x == q * z + r` and `r` in `[0, z)`. */
  lemma DivModUnique(x: int, z: int, q: int, r: int)
    requires z > 0 && 0 <= r < z && x == q * z + r
    ensures x / z == q && x % z == r
  {
    var q0 := x / z;
    ModUnique(x, z, q, r);
    assert q0 * z == q * z;
    if q0 > q {
      MulAtLeast(q0 - q, z);
    } else if q0 < q {
      MulAtLeast(q - q0, z);
    }
  }

  /** Counting one further: the remainder steps up by one, or wraps to 0 and the quotient steps up. */
  lemma DivModSucc(n: nat, z: nat)
    requires z > 0
    ensures n % z + 1 < z ==> (n + 1) / z == n / z && (n + 1) % z == n % z + 1
    ensures n % z + 1 == z ==> (n + 1) / z == n / z + 1 && (n + 1) % z == 0
  {
    var q, p := n / z, n % z;
    assert n == q * z + p;
    if p + 1 < z {
      DivModUnique(n + 1, z, q, p + 1);
    } else {
      DivModUnique(n + 1, z, q + 1, 0);
    }
  }

  /** Numbers less than `p` apart have different remainders modulo `p`. */
  lemma ModDistinct(x: nat, d: nat, p: nat)
    requires 0 < d < p
    ensures x % p != (x + d) % p
  {
    var q1, q2 := x / p, (x + d) / p;
    var r1, r2 := x % p, (x + d) % p;
    assert x == q1 * p + r1 && x + d == q2 * p + r2;
    if r1 == r2 {
      assert d == (q2 - q1) * p;
      if q2 - q1 >= 1 {
        MulAtLeast(q2 - q1, p);
      } else if q2 < q1 {
        MulAtLeast(q1 - q2, p);
      }
    }
  }

  /** Stepping a counter modulo `z` one at a time agrees with adding first. */
  lemma ModSucc(a: nat, z: nat)
    requires z > 0
    ensures (a % z + 1) % z == (a + 1) % z
  {
    var q, p := a / z, a % z;
    assert a == q * z + p;
    if p + 1 < z {
      ModUnique(a + 1, z, q, p + 1);
      ModUnique(p + 1, z, 0, p + 1);
    } else {
      ModUnique(a + 1, z, q + 1, 0);
      ModUnique(p + 1, z, 1, 0);
    }
  }
}

/** Conversions between small numbers and 8-bit vectors. */
module Bits {
  /** Converting to 8 bits keeps the number modulo 256. */
  lemma ByteOfNatMod(v: nat)
    requires v < 256
    ensures (v as bv8) as int == v % 256
  {
  }
}
