/** Stored values, their kinds and the errors the storage layer returns. */
module Values {
  import opened Bytes
  import opened StreamTypes

  type Key = string

  type bytes = seq<byte>

  /** A sorted-set score: a double other than NaN, without the sign of zero. */
  datatype Score = MinusInf | Finite(x: real) | PlusInf

  /** Member names and hash fields are UTF-8 text, held as their bytes. */
  datatype Value =
    | String(data: bytes)
    | Hash(fields: map<bytes, bytes>)
    | List(items: seq<bytes>)
    | Set(members: set<bytes>)
    | ZSet(scores: map<bytes, Score>)
    | Stream(stream: StreamValue)

  datatype StoredValue = StoredValue(value: Value, expiresAtMs: Option<int>)

  datatype Kind = KString | KHash | KList | KSet | KZSet | KStream

  function KindOf(v: Value): Kind {
    match v
    case String(_) => KString
    case Hash(_) => KHash
    case List(_) => KList
    case Set(_) => KSet
    case ZSet(_) => KZSet
    case Stream(_) => KStream
  }

  /** Errors a command's own logic can raise. */
  datatype Error = WrongType | Parse
}
