/** The records that travel between the two codecs. JSON values are kept as their text. */
module Wire {
  import opened Common

  type Json = string

  const UINT64_LIMIT: nat := 0x1_0000_0000_0000_0000

  /** A request id may be any JSON value; `Null` is also the absent id. */
  datatype Id = Null | Number(n: nat) | Other(text: Json)

  datatype Request = Request(
    methodName: string, channel: string, target: Option<string>, params: Option<Json>, id: Id)

  /** The error member of a response: null, a string, or some other JSON value. */
  datatype Failure = Absent | Text(message: string) | Object(text: Json)

  /** A response; a null result is an absent one. */
  datatype Response = Response(id: Id, channel: Option<string>, result: Option<Json>, error: Failure)
}
