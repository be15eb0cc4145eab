/** The in-place XOR helper shared by the GOST R 34.13-2015 modes. */
module GostUtils {
  import opened Bytes

  /**
   * What `xor(buf1, buf2)` leaves in `buf1`: the two slices are walked in
   * step, so byte `i` is XOR-ed while both have one, and the rest of `buf1`
   * is left as it was.
   */
  function XorZip(a: seq<Byte>, b: seq<Byte>): (r: seq<Byte>)
    ensures |r| == |a|
  {
    seq(|a|, i requires 0 <= i < |a| => if i < |b| then a[i] ^ b[i] else a[i])
  }

  /** On slices of equal length (what the debug assertion checks) it is the bytewise XOR. */
  lemma XorZipEqualLength(a: seq<Byte>, b: seq<Byte>)
    requires |a| == |b|
    ensures XorZip(a, b) == XorBytes(a, b)
  {
  }

  /** Applying it twice with the same `buf2` restores `buf1`. */
  lemma XorZipTwice(a: seq<Byte>, b: seq<Byte>)
    ensures XorZip(XorZip(a, b), b) == a
  {
  }

  /** `xor(buf1, buf2)`: XORs `buf2` into `buf1` in place; `buf1` keeps its length. */
  method Xor(buf1: array<Byte>, buf2: seq<Byte>)
    modifies buf1
    ensures buf1[..] == XorZip(old(buf1[..]), buf2)
  {
    var i := 0;
    while i < buf1.Length && i < |buf2|
      invariant 0 <= i <= buf1.Length
      invariant forall j :: 0 <= j < i ==> j < |buf2| && buf1[j] == old(buf1[j]) ^ buf2[j]
      invariant forall j :: i <= j < buf1.Length ==> buf1[j] == old(buf1[j])
    {
      buf1[i] := buf1[i] ^ buf2[i];
      i := i + 1;
    }
  }
}
