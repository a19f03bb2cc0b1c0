/**
 * The dirty-buffer operations the module calls (record_plus, record_minus,
 * record_init), specified by behaviour over byte sequences: append at the
 * tail, remove from the head, clear.
 */
module Record {
  import opened Octets

  /** record_plus: append the first `n` bytes of `bytes` after what the buffer holds. */
  function Plus(rec: seq<uint8>, bytes: seq<uint8>, n: nat): (r: seq<uint8>)
    requires n <= |bytes|
    ensures |r| == |rec| + n
    ensures r[..|rec|] == rec && r[|rec|..] == bytes[..n]
  {
    rec + bytes[..n]
  }

  /** record_minus: take up to `n` bytes off the head; the rest keeps its order. */
  function Minus(rec: seq<uint8>, n: nat): (r: (seq<uint8>, seq<uint8>))
    ensures r.0 + r.1 == rec
    ensures |r.0| == if n < |rec| then n else |rec|
  {
    if n < |rec| then (rec[..n], rec[n..]) else (rec, [])
  }

  /** record_init: the buffer is empty again. */
  function Init(): (r: seq<uint8>)
    ensures |r| == 0
  {
    []
  }
}
