/** Hashing in stripes of w bytes: what is mixed, and what is left over for later. */
module Stripes {
  import opened Words

  /** Mix every whole stripe, in order. */
  function Fold<L>(mix: (L, seq<u8>) -> L, w: nat, lanes: L, data: seq<u8>): L
    requires w > 0
  {
    if |data| < w then lanes else Fold(mix, w, mix(lanes, data[..w]), data[w..])
  }

  /** The bytes after the last whole stripe. */
  function Tail(w: nat, data: seq<u8>): (t: seq<u8>)
    requires w > 0
    ensures |t| < w
  {
    if |data| < w then data else Tail(w, data[w..])
  }

  /** Feeding more data is resuming at the left-over bytes. */
  lemma {:induction false} Resume<L>(mix: (L, seq<u8>) -> L, w: nat, lanes: L, data: seq<u8>, more: seq<u8>)
    requires w > 0
    ensures Fold(mix, w, lanes, data + more) == Fold(mix, w, Fold(mix, w, lanes, data), Tail(w, data) + more)
    ensures Tail(w, data + more) == Tail(w, Tail(w, data) + more)
    decreases |data|
  {
    if |data| >= w {
      assert (data + more)[..w] == data[..w] && (data + more)[w..] == data[w..] + more;
      Resume(mix, w, mix(lanes, data[..w]), data[w..], more);
    }
  }

  /** The number of left-over bytes is the length modulo the stripe length. */
  lemma {:induction false} TailLength(w: nat, data: seq<u8>) returns (n: nat)
    requires w > 0
    ensures |data| == n * w + |Tail(w, data)| && |Tail(w, data)| == |data| % w
    decreases |data|
  {
    n := 0;
    if |data| >= w {
      n := TailLength(w, data[w..]);
      n := n + 1;
      assert (n - 1) * w + w == n * w;
    }
    DivModUnique(|data|, w, n, |Tail(w, data)|);
  }

  lemma {:induction false} TailIsSuffix(w: nat, data: seq<u8>)
    requires w > 0
    ensures |Tail(w, data)| <= |data| && Tail(w, data) == data[|data| - |Tail(w, data)|..]
    decreases |data|
  {
    if |data| >= w {
      TailIsSuffix(w, data[w..]);
    }
  }

  function Joined(chunks: seq<seq<u8>>): seq<u8> {
    if chunks == [] then [] else Joined(chunks[..|chunks| - 1]) + chunks[|chunks| - 1]
  }
}
