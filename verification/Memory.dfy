/** Byte memory: `RtCopyMem` and `RtCompareMem` of `lib/runtime/efirtlib.c`. */
module Memory {
  type byte = b: int | 0 <= b < 256

  /** The null address. */
  const NULL: nat := 0

  /** `RtCopyMem` inside one memory, an address being an index: whatever the overlap, the
      destination ends with the bytes the source held before, and nothing else changes. */
  method RtCopyMem(mem: array<byte>, dest: nat, src: nat, len: nat)
    requires dest == NULL || src == NULL || (dest + len <= mem.Length && src + len <= mem.Length)
    modifies mem
    ensures dest == NULL || src == NULL ==> mem[..] == old(mem[..])
    ensures dest != NULL && src != NULL ==>
              && mem[dest..dest + len] == old(mem[src..src + len])
              && mem[..dest] == old(mem[..dest])
              && mem[dest + len..] == old(mem[dest + len..])
  {
    if dest == NULL || src == NULL || src == dest {
      return;
    }
    var d: nat, s: nat, n: nat := dest, src, len;
    if d > s && d < s + n {
      d, s := d + n, s + n;
      while n != 0
        invariant n <= len && d == dest + n && s == src + n
        invariant forall i :: 0 <= i < mem.Length && !(d <= i < dest + len) ==> mem[i] == old(mem[i])
        invariant forall i :: d <= i < dest + len ==> mem[i] == old(mem[i - dest + src])
      {
        n := n - 1;
        d, s := d - 1, s - 1;
        mem[d] := mem[s];
      }
    } else {
      while n != 0
        invariant n <= len && d == dest + len - n && s == src + len - n
        invariant forall i :: 0 <= i < mem.Length && !(dest <= i < d) ==> mem[i] == old(mem[i])
        invariant forall i :: dest <= i < d ==> mem[i] == old(mem[i - dest + src])
      {
        n := n - 1;
        mem[d] := mem[s];
        d, s := d + 1, s + 1;
      }
    }
  }

  /** The two extents can be compared over `len` bytes without reading past either end: any prefix on
      which they agree, if shorter than `len`, is followed by a readable byte in both. */
  ghost predicate Comparable(d: seq<byte>, s: seq<byte>, len: nat) {
    forall k :: 0 <= k < len && k <= |d| && k <= |s| && d[..k] == s[..k] ==> k < |d| && k < |s|
  }

  /** `RtCompareMem`: zero exactly when all `len` bytes agree, otherwise the sign of the first
      difference. */
  method RtCompareMem(d: seq<byte>, s: seq<byte>, len: nat) returns (order: int)
    requires Comparable(d, s, len)
    ensures order == 0 <==> len <= |d| && len <= |s| && d[..len] == s[..len]
    ensures order != 0 ==> exists k :: 0 <= k < len && k < |d| && k < |s| && d[..k] == s[..k]
                                       && d[k] != s[k] && order == (d[k] as int) - s[k]
  {
    var k := 0;
    while k < len
      invariant k <= len && k <= |d| && k <= |s| && d[..k] == s[..k]
    {
      assert k < |d| && k < |s|;
      if d[k] != s[k] {
        return (d[k] as int) - s[k];
      }
      assert d[..k + 1] == d[..k] + [d[k]] && s[..k + 1] == s[..k] + [s[k]];
      k := k + 1;
    }
    return 0;
  }
}
