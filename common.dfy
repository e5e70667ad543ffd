/** Shared vocabulary: bytes as held in a Node.js Buffer, option and result values,
    and the two Buffer operations every other module relies on. */
module Common {

  /** One octet of a Buffer. */
  type byte = b: int | 0 <= b < 256

  datatype Option<+T> = None | Some(value: T)

  /** The outcome of an operation that may throw: a value, or the error it throws. */
  datatype Result<+T, +E> = Success(value: T) | Failure(error: E)

  function Min(a: int, b: int): int { if a < b then a else b }

  function Max(a: int, b: int): int { if a < b then b else a }

  /** `n` zero bytes: the fill that `Buffer.concat` gives the part of its result
      that nothing was copied into. */
  function Zeros(n: nat): (z: seq<byte>)
    ensures |z| == n
    ensures forall i :: 0 <= i < n ==> z[i] == 0
  {
    seq(n, _ => 0)
  }

  /** `s.slice(start, end)` on a Buffer, for non-negative bounds: both bounds are
      clamped to the length, and the result is empty when `end <= start`. */
  function Slice(s: seq<byte>, start: nat, end: nat): (r: seq<byte>)
    ensures |r| == Max(0, Min(end, |s|) - Min(start, |s|))
    ensures forall k :: 0 <= k < |r| ==> r[k] == s[start + k]
    ensures end <= |s| && start <= end ==> r == s[start..end]
  {
    var lo := Min(start, |s|);
    var hi := Min(end, |s|);
    if hi <= lo then [] else s[lo..hi]
  }

  /** `buf[i] = v` on a Buffer: an index past the end is silently ignored. */
  function Assign(buf: seq<byte>, i: nat, v: byte): (r: seq<byte>)
    ensures |r| == |buf|
    ensures forall k :: 0 <= k < |r| ==> r[k] == if k == i then v else buf[k]
  {
    if i < |buf| then buf[i := v] else buf
  }
}
