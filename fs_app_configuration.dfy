/** `FSAppConfiguration`, the older synchronous resolver built on
    `EventLoopFuture.wait()`. Each operation is a function of the host, the
    Consul health status and the request; a `fatalError` is a `Fatal`
    result, and a GET that throws inside `try?` is a soft miss. Unlike the
    async copy, `getVersion` asks Consul first and no newline is removed. */
module FSAppConfiguration {
  import opened Consul
  import opened Text

  /** `getConsulStatus`: the status of `GET url + path`, or `None` when the
      GET throws; it never fails. */
  function GetConsulStatus(h: Host, url: string, path: string, configuration: string): (status: Option<int>)
    ensures status.None? <==> h.get(url + path).None?
    ensures status.Some? ==> status.value == h.get(url + path).value.status
  {
    match h.get(url + path)
    case None => None
    case Some(response) => Some(response.status)
  }

  /** `decode`: the base64 decoding of the first entry's `Value`. A body that
      is not a KV array counts as no entries; no first entry, or one without
      a `Value`, is fatal, and so is a `Value` that is not base64. The
      status of the reply is not looked at. */
  function Decode(h: Host, response: Response): (data: Outcome<Bytes>)
    ensures data.Ok? <==>
      response.FirstValue().Some? && h.base64Decode(response.FirstValue().value).Some?
    ensures data.Ok? ==> h.base64Decode(response.FirstValue().value) == Some(data.value)
    ensures response.FirstValue().None? ==> data == Fatal(NoValue)
    ensures response.FirstValue().Some? && data.Fatal? ==>
      data.reason == InvalidBase64(response.FirstValue().value)
  {
    match response.FirstValue()
    case None => Fatal(NoValue)
    case Some(stringValue) =>
      match h.base64Decode(stringValue)
      case None => Fatal(InvalidBase64(stringValue))
      case Some(bytes) => Ok(bytes)
  }

  /** Entries after the first, and the reply's status, never matter. */
  lemma DecodeReadsFirstEntryOnly(h: Host, first: Entry, rest: seq<Entry>, rest': seq<Entry>, status: int, status': int)
    ensures Decode(h, Response(status, Some([first] + rest))) == Decode(h, Response(status', Some([first] + rest')))
  {
  }

  /** A body that is not a KV array decodes like an empty array: fatally. */
  lemma DecodeUnparsedBody(h: Host, status: int)
    ensures Decode(h, Response(status, None)) == Decode(h, Response(status, Some([]))) == Fatal(NoValue)
  {
  }

  /** `app.client.get(uri)` followed by `decode`: `None` when the GET throws. */
  function Fetch(h: Host, uri: string): (fetched: Option<Outcome<Bytes>>)
    ensures fetched.None? <==> h.get(uri).None?
    ensures fetched.Some? ==> fetched.value == Decode(h, h.get(uri).value)
  {
    match h.get(uri)
    case None => None
    case Some(response) => Some(Decode(h, response))
  }

  /** `getValueFromConsul`: `Ok(None)` when the GET throws, a fatal decode
      stays fatal, otherwise the decoded bytes as text (possibly empty). */
  function ValueFromConsul(h: Host, uri: string): (value: Outcome<Option<string>>)
    ensures value == Ok(None) <==> h.get(uri).None?
    ensures value.Fatal? <==> h.get(uri).Some? && Decode(h, h.get(uri).value).Fatal?
    ensures value.Fatal? ==> value.reason == Decode(h, h.get(uri).value).reason
    ensures value.Ok? && value.value.Some? ==>
      value.value.value == h.utf8Decode(Decode(h, h.get(uri).value).value)
  {
    match Fetch(h, uri)
    case None => Ok(None)
    case Some(Fatal(reason)) => Fatal(reason)
    case Some(Ok(data)) => Ok(Some(h.utf8Decode(data)))
  }

  /** `getVersionFromConsul`: the decoded bytes as text, as they are. */
  function VersionFromConsul(h: Host, uri: string): (version: Outcome<Option<string>>)
    ensures version == Ok(None) <==> h.get(uri).None?
    ensures version.Fatal? <==> h.get(uri).Some? && Decode(h, h.get(uri).value).Fatal?
    ensures version.Fatal? ==> version.reason == Decode(h, h.get(uri).value).reason
    ensures version.Ok? && version.value.Some? ==>
      version.value.value == h.utf8Decode(Decode(h, h.get(uri).value).value)
  {
    match Fetch(h, uri)
    case None => Ok(None)
    case Some(Fatal(reason)) => Fatal(reason)
    case Some(Ok(data)) =>
      var versionString := h.utf8Decode(data);
      Ok(Some(versionString))
  }

  /** `getJWKSFromConsul`: the decoded text when the bytes parse as a JWKS
      and the text is not empty, `""` when they do not. */
  function JWKSFromConsul(h: Host, uri: string): (jwks: Outcome<Option<string>>)
    ensures jwks == Ok(None) <==> h.get(uri).None?
    ensures jwks.Fatal? <==> h.get(uri).Some? && Decode(h, h.get(uri).value).Fatal?
    ensures jwks.Fatal? ==> jwks.reason == Decode(h, h.get(uri).value).reason
    ensures jwks.Ok? && jwks.value.Some? && jwks.value.value != "" ==>
      var data := Decode(h, h.get(uri).value).value;
      h.isJWKS(data) && jwks.value.value == h.utf8Decode(data)
    ensures jwks.Ok? && jwks.value.Some? && jwks.value.value == "" ==>
      var data := Decode(h, h.get(uri).value).value;
      !h.isJWKS(data) || h.utf8Decode(data) == ""
  {
    match Fetch(h, uri)
    case None => Ok(None)
    case Some(Fatal(reason)) => Fatal(reason)
    case Some(Ok(data)) =>
      var jwksString := h.utf8Decode(data);
      Ok(Some(if h.isJWKS(data) && jwksString != "" then jwksString else ""))
  }

  /** `getValueFromEnvironment`: the variable's value; fatal when it is
      unset or empty. */
  function ValueFromEnvironment(h: Host, key: string): (value: Outcome<string>)
    ensures value.Ok? <==> key in h.environment && h.environment[key] != ""
    ensures value.Ok? ==> value.value == h.environment[key]
    ensures value.Fatal? ==> value.reason == MissingEnvironment(key)
  {
    if key in h.environment && h.environment[key] != "" then Ok(h.environment[key])
    else Fatal(MissingEnvironment(key))
  }

  /** `getJWKSFromLocalDirectory`: the text of the file `workingDirectory +
      name`; fatal when it is missing, not UTF-8, or empty. */
  function JWKSFromLocalDirectory(h: Host, name: string): (jwks: Outcome<string>)
    ensures var path := h.workingDirectory + name;
      jwks.Ok? <==> path in h.files && h.files[path].Some? && h.files[path].value != ""
    ensures var path := h.workingDirectory + name;
      jwks.Ok? ==> jwks.value == h.files[path].value
    ensures var path := h.workingDirectory + name;
      jwks.Fatal? ==> jwks.reason == if path in h.files then UnreadableFile(path) else MissingFile(path)
  {
    var path := h.workingDirectory + name;
    if path !in h.files then Fatal(MissingFile(path))
    else match h.files[path]
      case Some(text) => if text != "" then Ok(text) else Fatal(UnreadableFile(path))
      case None => Fatal(UnreadableFile(path))
  }

  /** `getVersionFromLocalDirectory`: the text of the file `workingDirectory
      + name`, newlines included; fatal when it is missing, not UTF-8, or
      empty. */
  function VersionFromLocalDirectory(h: Host, name: string): (version: Outcome<string>)
    ensures var path := h.workingDirectory + name;
      version.Ok? <==> path in h.files && h.files[path].Some? && h.files[path].value != ""
    ensures var path := h.workingDirectory + name;
      version.Ok? ==> version.value == h.files[path].value
    ensures var path := h.workingDirectory + name;
      version.Fatal? ==> version.reason == if path in h.files then UnreadableFile(path) else MissingFile(path)
  {
    var path := h.workingDirectory + name;
    if path !in h.files then Fatal(MissingFile(path))
    else match h.files[path]
      case Some(versionString) => if versionString != "" then Ok(versionString) else Fatal(UnreadableFile(path))
      case None => Fatal(UnreadableFile(path))
  }

  /** `getValue`: the value stored in Consul when the status is exactly
      `.ok` and the stored value is not empty; otherwise the environment
      variable named after the path. A GET that throws is a miss, but a
      fatal decode aborts even when the variable is set. Whatever is
      returned is not empty. */
  function GetValue(h: Host, status: Option<int>, url: string, path: string): (value: Outcome<string>)
    ensures value.Ok? ==> value.value != ""
    ensures status != Some(OK) ==> value == ValueFromEnvironment(h, EnvironmentKey(path))
    ensures status == Some(OK) ==>
      match Fetch(h, ConsulUri(url, path))
      case None => value == ValueFromEnvironment(h, EnvironmentKey(path))
      case Some(Fatal(reason)) => value == Fatal(reason)
      case Some(Ok(data)) =>
        value == if h.utf8Decode(data) != "" then Ok(h.utf8Decode(data))
                 else ValueFromEnvironment(h, EnvironmentKey(path))
  {
    var consulUri := ConsulUri(url, path);
    var environmentKey := EnvironmentKey(path);
    var remote := if status == Some(OK) then ValueFromConsul(h, consulUri) else Ok(None);
    match remote
    case Fatal(reason) => Fatal(reason)
    case Ok(valueResult) =>
      var value := valueResult.GetOr("");
      if value == "" then ValueFromEnvironment(h, environmentKey) else Ok(value)
  }

  /** `getJWKS`: the key set stored in Consul when the status is exactly
      `.ok` and the stored bytes parse as a JWKS with non-empty text;
      otherwise the local file. Whatever is returned is not empty. */
  function GetJWKS(h: Host, status: Option<int>, url: string, path: string, name: string): (jwks: Outcome<string>)
    ensures jwks.Ok? ==> jwks.value != ""
    ensures status != Some(OK) ==> jwks == JWKSFromLocalDirectory(h, name)
    ensures status == Some(OK) ==>
      match Fetch(h, ConsulUri(url, path))
      case None => jwks == JWKSFromLocalDirectory(h, name)
      case Some(Fatal(reason)) => jwks == Fatal(reason)
      case Some(Ok(data)) =>
        jwks == if h.isJWKS(data) && h.utf8Decode(data) != "" then Ok(h.utf8Decode(data))
                else JWKSFromLocalDirectory(h, name)
  {
    var consulUri := ConsulUri(url, path);
    var remote := if status == Some(OK) then JWKSFromConsul(h, consulUri) else Ok(None);
    match remote
    case Fatal(reason) => Fatal(reason)
    case Ok(valueResult) =>
      var valueJWKS := valueResult.GetOr("");
      if valueJWKS == "" then JWKSFromLocalDirectory(h, name) else Ok(valueJWKS)
  }

  /** `getVersion`: the version stored in Consul when the status is exactly
      `.ok` and the stored text is not empty; otherwise the local file.
      Whatever is returned is not empty; newlines are kept. */
  function GetVersion(h: Host, status: Option<int>, url: string, path: string, name: string): (version: Outcome<string>)
    ensures version.Ok? ==> version.value != ""
    ensures status != Some(OK) ==> version == VersionFromLocalDirectory(h, name)
    ensures status == Some(OK) ==>
      match Fetch(h, ConsulUri(url, path))
      case None => version == VersionFromLocalDirectory(h, name)
      case Some(Fatal(reason)) => version == Fatal(reason)
      case Some(Ok(data)) =>
        version == if h.utf8Decode(data) != "" then Ok(h.utf8Decode(data))
                   else VersionFromLocalDirectory(h, name)
  {
    var consulUri := ConsulUri(url, path);
    var remote := if status == Some(OK) then VersionFromConsul(h, consulUri) else Ok(None);
    match remote
    case Fatal(reason) => Fatal(reason)
    case Ok(valueResult) =>
      var versionValue := valueResult.GetOr("");
      if versionValue == "" then VersionFromLocalDirectory(h, name) else Ok(versionValue)
  }

  /** Without a status of exactly `.ok` the KV store is never read. */
  lemma OfflineSkipsConsul(h: Host, get': string -> Option<Response>, status: Option<int>, url: string, path: string, name: string)
    requires status != Some(OK)
    ensures GetValue(h, status, url, path) == GetValue(h.(get := get'), status, url, path)
    ensures GetJWKS(h, status, url, path, name) == GetJWKS(h.(get := get'), status, url, path, name)
    ensures GetVersion(h, status, url, path, name) == GetVersion(h.(get := get'), status, url, path, name)
  {
  }

  /** The only KV key read is `url + "/" + path`. */
  lemma ReadsOnlyConsulUri(h: Host, get': string -> Option<Response>, status: Option<int>, url: string, path: string, name: string)
    requires get'(url + "/" + path) == h.get(url + "/" + path)
    ensures GetValue(h, status, url, path) == GetValue(h.(get := get'), status, url, path)
    ensures GetJWKS(h, status, url, path, name) == GetJWKS(h.(get := get'), status, url, path, name)
    ensures GetVersion(h, status, url, path, name) == GetVersion(h.(get := get'), status, url, path, name)
  {
  }

  /** A reachable store whose reply has no first entry with a `Value` aborts
      the run, whatever the environment or the files hold. */
  lemma MissingEntryIsFatal(h: Host, url: string, path: string, name: string)
    requires h.get(url + "/" + path).Some? && h.get(url + "/" + path).value.FirstValue().None?
    ensures GetValue(h, Some(OK), url, path) == Fatal(NoValue)
    ensures GetJWKS(h, Some(OK), url, path, name) == Fatal(NoValue)
    ensures GetVersion(h, Some(OK), url, path, name) == Fatal(NoValue)
  {
  }
}
