/** Shared vocabulary of the channel-scoring pipeline. */
module Common {

  datatype Option<+T> = None | Some(value: T)

  datatype Result<+T, +E> = Ok(value: T) | Err(error: E)

  /** Node, protein and pathway identifiers are plain strings. */
  type Id = string

  /** One interaction row: two endpoint identifiers and the integer score column. */
  datatype Interaction = Interaction(n1: Id, n2: Id, score: int)

  /** An ordered endpoint pair, the key the pipeline's sets and dictionaries use. */
  type Pair = (Id, Id)

  function PairOf(t: Interaction): Pair
  {
    (t.n1, t.n2)
  }

  /** The elements of a sequence, collected back to front: what `set(list)` or `set.update(list)` adds. */
  function SetOf<T>(s: seq<T>): set<T>
  {
    if s == [] then {} else SetOf(s[..|s| - 1]) + {s[|s| - 1]}
  }

  /** An element is in the set exactly when it is in the sequence. */
  lemma {:induction false} SetOfContains<T>(s: seq<T>, x: T)
    ensures x in SetOf(s) <==> x in s
  {
    if s != [] {
      SetOfContains(s[..|s| - 1], x);
      assert s == s[..|s| - 1] + [s[|s| - 1]];
    }
  }
}
