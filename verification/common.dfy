/** Values shared by every part of the graph store model. */
module Common {

  datatype Option<T> = None | Some(value: T)

  /** The error path of a handler: the message of its `{'error': ...}` response. */
  datatype Result<T> = Ok(value: T) | Err(message: string)

  /** An embedding vector. Its components are opaque to the model; only whether the
      list is empty is ever observed. */
  datatype Vector = Vector(components: seq<real>)

  /** Python truthiness of what `get_embedding` returns: `None` and `[]` are false. */
  predicate Truthy(e: Option<Vector>)
  {
    e.Some? && |e.value.components| > 0
  }

  /** Lower-casing of one character, as SQL `LOWER` does on ASCII letters. */
  function LowerChar(c: char): char
  {
    if 'A' <= c <= 'Z' then (c as int + 32) as char else c
  }

  function Lower(s: string): (r: string)
    ensures |r| == |s|
    ensures forall i :: 0 <= i < |s| ==> r[i] == LowerChar(s[i])
  {
    seq(|s|, i requires 0 <= i < |s| => LowerChar(s[i]))
  }
}
