/** Little-endian fields in byte sequences. */
module Bytes {
  import opened Bits

  /** The `n` bytes of `x`, lowest first. */
  function Le(x: nat, n: nat): (r: seq<Byte>)
    ensures |r| == n
    decreases n, x
  {
    if n == 0 then [] else [x % 256] + Le(x / 256, n - 1)
  }

  function UnLe(s: seq<Byte>): nat {
    if s == [] then 0 else s[0] + 256 * UnLe(s[1..])
  }

  lemma {:induction false} LeRoundTrip(x: nat, n: nat)
    requires x < Pow2(8 * n)
    ensures UnLe(Le(x, n)) == x
    decreases n
  {
    if n > 0 {
      Pow2Add(8, 8 * (n - 1));
      Powers();
      assert Pow2(8 * n) == 256 * Pow2(8 * (n - 1));
      LeRoundTrip(x / 256, n - 1);
      assert Le(x, n)[1..] == Le(x / 256, n - 1);
    }
  }

  function Zeros(n: nat): (r: seq<Byte>)
    ensures |r| == n && forall i :: 0 <= i < n ==> r[i] == 0
  {
    seq(n, _ => 0)
  }

  /** The `n`-byte field at offset `off`. */
  function Field(file: seq<Byte>, off: nat, n: nat): nat
    requires off + n <= |file|
  {
    UnLe(file[off..off + n])
  }

  lemma UnLeStep(b: Byte, rest: seq<Byte>)
    ensures UnLe([b] + rest) == b as nat + 256 * UnLe(rest)
  {
    assert ([b] + rest)[1..] == rest;
  }

  /** The lowest byte comes first. */
  lemma FieldBytes(file: seq<Byte>, off: nat)
    requires off + 4 <= |file|
    ensures Field(file, off, 4)
            == file[off] as nat + 0x100 * file[off + 1] as nat + 0x1_0000 * file[off + 2] as nat
               + 0x100_0000 * file[off + 3] as nat
  {
    var s := file[off..off + 4];
    assert s == [s[0]] + ([s[1]] + ([s[2]] + ([s[3]] + [])));
    UnLeStep(s[3], []);
    UnLeStep(s[2], [s[3]] + []);
    UnLeStep(s[1], [s[2]] + ([s[3]] + []));
    UnLeStep(s[0], [s[1]] + ([s[2]] + ([s[3]] + [])));
  }

  lemma FieldWidths()
    ensures Pow2(8 * 2) == 0x1_0000 && Pow2(8 * 4) == U32 && Pow2(8 * 8) == U64
  {
    Powers();
    Pow2Add(32, 32);
  }

  /** Peeling the last piece off a concatenation. */
  lemma Peel(p: seq<Byte>, g: seq<Byte>, b: seq<Byte>)
    requires |p| + |g| <= |b| && b[..|p| + |g|] == p + g
    ensures b[..|p|] == p && b[|p|..|p| + |g|] == g
  {
  }

  lemma SliceOfSlice(file: seq<Byte>, off: nat, n: nat, i: nat, j: nat)
    requires i <= j <= n && off + n <= |file|
    ensures file[off..off + n][i..j] == file[off + i..off + j]
  {
    var a, b := file[off..off + n][i..j], file[off + i..off + j];
    forall k | 0 <= k < j - i
      ensures a[k] == b[k]
    {
    }
  }
}
