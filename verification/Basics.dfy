// Vocabulary shared by every model of the control stack.
module Basics {

  // A byte of a wire protocol.
  type Byte = x: int | 0 <= x < 256

  // Size of every state and command vector.
  const MAX_JOINTS: nat := 32

  datatype Option<+T> = None | Some(value: T)

  function Min(a: int, b: int): int {
    if a < b then a else b
  }

  function Flatten<T>(chunks: seq<seq<T>>): seq<T> {
    if chunks == [] then [] else chunks[0] + Flatten(chunks[1..])
  }

  lemma FlattenCons<T>(before: seq<T>, chunks: seq<seq<T>>)
    requires chunks != []
    ensures before + chunks[0] + Flatten(chunks[1..]) == before + Flatten(chunks)
  {
    assert before + (chunks[0] + Flatten(chunks[1..])) == before + chunks[0] + Flatten(chunks[1..]);
  }

  lemma FlattenSnoc<T>(chunks: seq<seq<T>>, last: seq<T>)
    ensures Flatten(chunks + [last]) == Flatten(chunks) + last
  {
    if chunks == [] {
      assert [last][1..] == [];
      assert chunks + [last] == [last];
    } else {
      assert (chunks + [last])[1..] == chunks[1..] + [last];
    }
  }
}
