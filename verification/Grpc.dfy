/** The rules a key-value pair meets on its way to another node. */
module Grpc {
  import opened Values

  datatype KeyValuePair = KeyValuePair(key: string, hash: Hash, value: Value)

  datatype Code = InvalidArgument | NotFound

  datatype Result<+T> = Ok(value: T) | Error(code: Code)

  /** Protocol Buffers do not put an empty bytes field on the wire, so that it
      arrives as a nil slice. */
  function Wire(v: Value): Value {
    if v.Len() == 0 then NilValue else v
  }

  /** The validation of a remote write, applied to what arrives. */
  predicate Accepts(pair: KeyValuePair) {
    pair.key != "" && Wire(pair.value) != NilValue && pair.hash != 0
  }

  lemma AcceptsIff(pair: KeyValuePair)
    ensures Accepts(pair) <==> pair.key != "" && pair.hash != 0 && pair.value.Len() > 0
    ensures Accepts(pair) ==> Wire(pair.value) == pair.value
  {
  }
}
