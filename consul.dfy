/** The Consul key-value record, the HTTP replies the resolvers see, and the
    host environment they run in, all as values.

    Everything the Swift code reaches through the framework — the HTTP
    client, the process environment, the file system, the base64, UTF-8 and
    JWKS decoders — is a field of `Host`, so that every resolver is a plain
    function of its inputs. */
module Consul {

  newtype byte = b: int | 0 <= b < 256

  type Bytes = seq<byte>

  datatype Option<+T> = None | Some(value: T) {
    /** Swift's `x ?? default`. */
    function GetOr(default: T): T {
      match this
      case Some(v) => v
      case None => default
    }
  }

  /** One element of the JSON array a Consul KV GET returns (`ConsulKeyValueResponse`);
      every field is optional, and `value` holds base64 text. */
  datatype Entry = Entry(
    lockIndex: Option<int>,
    key: Option<string>,
    flags: Option<int>,
    value: Option<string>,
    createIndex: Option<int>,
    modifyIndex: Option<int>)

  /** A reply to an HTTP GET: its status code, and its body as decoded into
      `[ConsulKeyValueResponse]` — `None` when the body does not decode. */
  datatype Response = Response(status: int, entries: Option<seq<Entry>>) {

    /** The entries of the reply; a body that does not decode counts as no entries. */
    function Content(): (content: seq<Entry>)
      ensures entries.Some? ==> content == entries.value
      ensures entries.None? ==> content == []
    {
      entries.GetOr([])
    }

    /** `content.first?.value`: the `Value` of the first entry, if there is
        a first entry and it has one. Later entries are never looked at. */
    function FirstValue(): (v: Option<string>)
      ensures v.Some? <==> |Content()| > 0 && Content()[0].value.Some?
      ensures v.Some? ==> v == Content()[0].value
    {
      var content := Content();
      if |content| == 0 then None else content[0].value
    }
  }

  /** `HTTPResponseStatus.ok`. */
  const OK: int := 200

  /** The world a resolver call observes. */
  datatype Host = Host(
    /** `app.client.get(uri)`: `None` when the request throws. */
    get: string -> Option<Response>,
    /** `Environment.get`. */
    environment: map<string, string>,
    /** `app.directory.workingDirectory`. */
    workingDirectory: string,
    /** `FileManager.default.contents(atPath:)` followed by
        `String(data:encoding: .utf8)`: a path that is absent has no file;
        `None` is a file whose bytes are not UTF-8. */
    files: map<string, Option<string>>,
    /** `Array(decodingBase64:)`: `None` on text that is not base64. */
    base64Decode: string -> Option<Bytes>,
    /** `String(decoding:as: UTF8.self)`, which never fails. */
    utf8Decode: Bytes -> string,
    /** Whether `JSONDecoder().decode(JWKS.self, from:)` succeeds on the bytes. */
    isJWKS: Bytes -> bool)

  /** Why a resolver calls `fatalError`. */
  datatype Reason =
    | NoValue                      // the KV reply has no first entry with a `Value`
    | InvalidBase64(text: string)  // the first entry's `Value` is not base64
    | MissingEnvironment(key: string)
    | MissingFile(path: string)
    | UnreadableFile(path: string) // not UTF-8, or empty once read

  /** A resolver's result: a string, or the process aborts. */
  datatype Outcome<+T> = Ok(value: T) | Fatal(reason: Reason)
}
