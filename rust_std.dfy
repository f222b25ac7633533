/** The pieces of the Rust standard library the core relies on: `Option`,
    the 64-bit `usize`, and `Vec::resize`. */
module RustStd {

  datatype Option<+T> = None | Some(value: T)

  /** A machine word: `usize` on the 64-bit targets the wire format assumes. */
  type Word = x: int | 0 <= x < 0x1_0000_0000_0000_0000

  /** `usize::MAX`, used as the "no run" sentinel of the spatial index. */
  const UsizeMax: Word := 0xFFFF_FFFF_FFFF_FFFF

  /** The vector `s` after `s.resize(len, fill)`: the first `min(|s|, len)`
      elements are kept and any new tail holds copies of `fill`. */
  function Resized<T>(s: seq<T>, len: nat, fill: T): (r: seq<T>)
    ensures |r| == len
    ensures forall k :: 0 <= k < len && k < |s| ==> r[k] == s[k]
    ensures forall k :: |s| <= k < len ==> r[k] == fill
  {
    if len <= |s| then s[..len] else s + seq(len - |s|, _ => fill)
  }
}
