// Optional values, fallible results, and joined sequences.
module Wrappers {
  datatype Option<T> = None | Some(value: T)
  datatype Result<T, E> = Ok(value: T) | Err(error: E)

  function Flatten<T>(chunks: seq<seq<T>>): seq<T> {
    if chunks == [] then [] else Flatten(chunks[..|chunks| - 1]) + chunks[|chunks| - 1]
  }

  lemma FlattenStep<T>(chunks: seq<seq<T>>, i: nat)
    requires i <= |chunks|
    ensures Flatten(chunks[..0]) == []
    ensures i < |chunks| ==> Flatten(chunks[..i + 1]) == Flatten(chunks[..i]) + chunks[i]
  {
    if i < |chunks| {
      assert chunks[..i + 1][..i] == chunks[..i];
    }
  }
}
