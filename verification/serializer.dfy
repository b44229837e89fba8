/**
 The value codec both backends hand their values to. Its encoding is not part of
 this model: a codec is any pair of total functions, and the only thing the store
 relies on is the round-trip law, which the lemmas take as a hypothesis.
 */
module Serialization {

  /** `serialize` turns a value into the text the backend stores; `deserialize` reads it back. */
  datatype Serializer<!V> = Serializer(serialize: V -> string, deserialize: string -> V)

  /** The codec's contract: decoding an encoding gives back the value that was encoded. */
  ghost predicate RoundTrips<V(!new)>(codec: Serializer<V>)
  {
    forall v :: codec.deserialize(codec.serialize(v)) == v
  }

  /** The round-trip law at one value. */
  lemma DecodeEncode<V(!new)>(codec: Serializer<V>, v: V)
    requires RoundTrips(codec)
    ensures codec.deserialize(codec.serialize(v)) == v
  {
  }
}
