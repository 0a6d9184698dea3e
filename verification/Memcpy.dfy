/** `memcpy` and `fast_memcpy`. */
module Memcpy {
  import opened Bits

  /** `a` with `data` in place of what was at `at`. */
  function Spliced(a: seq<Byte>, at: nat, data: seq<Byte>): (r: seq<Byte>)
    requires at + |data| <= |a|
    ensures |r| == |a|
    ensures forall i :: 0 <= i < |a| ==> r[i] == if at <= i < at + |data| then data[i - at] else a[i]
  {
    a[..at] + data + a[at + |data|..]
  }

  lemma SplicedIs(a: seq<Byte>, at: nat, data: seq<Byte>, r: seq<Byte>)
    requires at + |data| <= |a| == |r|
    requires forall i :: 0 <= i < |a| ==> r[i] == if at <= i < at + |data| then data[i - at] else a[i]
    ensures r == Spliced(a, at, data)
  {
  }

  method Copy(dst: array<Byte>, d: nat, src: array<Byte>, s: nat, size: nat) returns (r: nat)
    requires dst != src && d + size <= dst.Length && s + size <= src.Length
    modifies dst
    ensures r == d && dst[..] == Spliced(old(dst[..]), d, src[s..s + size])
  {
    for i := 0 to size
      invariant forall j :: 0 <= j < dst.Length ==> dst[j] == if d <= j < d + i then src[s + (j - d)] else old(dst[j])
    {
      dst[d + i] := src[s + i];
    }
    SplicedIs(old(dst[..]), d, src[s..s + size], dst[..]);
    return d;
  }

  /** Copies whole words, then the last bytes; returns the address behind the words. */
  method FastCopy(dst: array<Byte>, d: nat, src: array<Byte>, s: nat, count: nat) returns (r: nat)
    requires dst != src && d + count <= dst.Length && s + count <= src.Length
    modifies dst
    ensures r == d + (count - count % 8) && dst[..] == Spliced(old(dst[..]), d, src[s..s + count])
  {
    var qwords, bytes := count / 8, count % 8;
    var to, from := d, s;
    for q := 0 to qwords
      invariant to == d + 8 * q && from == s + 8 * q
      invariant forall j :: 0 <= j < dst.Length ==> dst[j] == if d <= j < to then src[s + (j - d)] else old(dst[j])
    {
      CopyWord(dst, to, src, from);
      to, from := to + 8, from + 8;
    }
    for i := 0 to bytes
      invariant forall j :: 0 <= j < dst.Length ==> dst[j] == if d <= j < to + i then src[s + (j - d)] else old(dst[j])
    {
      dst[to + i] := src[from + i];
    }
    SplicedIs(old(dst[..]), d, src[s..s + count], dst[..]);
    return to;
  }

  /** One `movsq`. */
  method CopyWord(dst: array<Byte>, d: nat, src: array<Byte>, s: nat)
    requires dst != src && d + 8 <= dst.Length && s + 8 <= src.Length
    modifies dst
    ensures forall j :: 0 <= j < dst.Length ==> dst[j] == if d <= j < d + 8 then src[s + (j - d)] else old(dst[j])
  {
    dst[d], dst[d + 1], dst[d + 2], dst[d + 3], dst[d + 4], dst[d + 5], dst[d + 6], dst[d + 7] :=
      src[s], src[s + 1], src[s + 2], src[s + 3], src[s + 4], src[s + 5], src[s + 6], src[s + 7];
  }
}
