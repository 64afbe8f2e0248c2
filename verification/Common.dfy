/** Datatypes shared by every part of the model. */
module Common {
  datatype Option<+T> = None | Some(value: T)

  datatype Result<+T, +E> = Ok(value: T) | Err(error: E)

  /** The two sides of a rendezvous session. */
  datatype Role = Send | Recv {
    function Opposite(): Role {
      if this == Send then Recv else Send
    }
  }

  /** Appending one element is the last unrolling of a left fold over a sequence. */
  lemma DropLastAppend<T>(s: seq<T>, x: T)
    ensures (s + [x])[..|s|] == s && (s + [x])[|s|] == x && |s + [x]| == |s| + 1
  {
  }

  lemma SubsetSize<T>(a: set<T>, b: set<T>)
    requires a <= b
    ensures |a| <= |b|
  {
    assert b == a + (b - a);
  }
}
