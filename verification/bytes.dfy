/** Byte copies between buffers (kernel/src/KiSimple.c). */
module ByteCopy {
  import opened Words

  /** memcpy of n bytes from `source` at `from` to `dest` at `to`, into another buffer. */
  method Memcpy(dest: array<u8>, to: nat, source: array<u8>, from: nat, n: nat)
    requires dest != source && to + n <= dest.Length && from + n <= source.Length
    modifies dest
    ensures dest[..] == old(dest[..to]) + source[from..from + n] + old(dest[to + n..])
  {
    for i := 0 to n
      invariant dest[..] == old(dest[..to]) + source[from..from + i] + old(dest[to + i..])
    {
      dest[to + i] := source[from + i];
    }
  }
}
