/** The async `AppConfiguration` and the synchronous `FSAppConfiguration`
    side by side: on the same inputs they agree on the status, on decoding,
    on values and on key sets, and they part on versions. */
module Variants {
  import opened Consul
  import opened Text
  import A = AppConfiguration
  import F = FSAppConfiguration

  lemma StatusCopiesAgree(h: Host, url: string, path: string, configuration: string)
    ensures A.GetConsulStatus(h, url, path, configuration) == F.GetConsulStatus(h, url, path, configuration)
  {
  }

  lemma DecodeCopiesAgree(h: Host, response: Response)
    ensures A.Decode(h, response) == F.Decode(h, response)
  {
  }

  lemma ValueCopiesAgree(h: Host, status: Option<int>, url: string, path: string)
    ensures A.GetValue(h, status, url, path) == F.GetValue(h, status, url, path)
  {
  }

  lemma JWKSCopiesAgree(h: Host, status: Option<int>, url: string, path: string, name: string)
    ensures A.GetJWKS(h, status, url, path, name) == F.GetJWKS(h, status, url, path, name)
  {
  }

  /** With Consul skipped, both copies read the same version file: the async
      one succeeds only where the synchronous one does, returning its text
      with the newlines removed; on a file without newlines the two agree,
      and where only the synchronous one succeeds the file held nothing but
      newlines. */
  lemma VersionCopiesOffline(h: Host, status: Option<int>, url: string, path: string, name: string)
    requires status != Some(OK)
    ensures A.GetVersion(h, status, url, path, name).Ok? ==>
      F.GetVersion(h, status, url, path, name).Ok? &&
      A.GetVersion(h, status, url, path, name).value == Removing(F.GetVersion(h, status, url, path, name).value, '\n')
    ensures F.GetVersion(h, status, url, path, name).Ok? && '\n' !in F.GetVersion(h, status, url, path, name).value ==>
      A.GetVersion(h, status, url, path, name) == F.GetVersion(h, status, url, path, name)
    ensures F.GetVersion(h, status, url, path, name).Ok? && A.GetVersion(h, status, url, path, name).Fatal? ==>
      Removing(F.GetVersion(h, status, url, path, name).value, '\n') == []
  {
    var p := h.workingDirectory + name;
    if p in h.files && h.files[p].Some? {
      var text := h.files[p].value;
      RemovingIsIdentity(text, '\n');
      RemovingIsEmpty(text, '\n');
    }
  }

  /** A host with no Consul answer and one file, `VERSION`, holding `text`. */
  function OfflineHost(text: string): Host {
    Host(_ => None, map[], "", map["VERSION" := Some(text)], _ => None, _ => [], _ => false)
  }

  /** The synchronous copy keeps a trailing newline the async copy drops, and
      a file of newlines alone is a version to one and fatal to the other. */
  lemma VersionCopiesDifferOnNewlines()
    ensures A.GetVersion(OfflineHost("1.2.3\n"), None, "", "", "VERSION") == Ok("1.2.3")
    ensures F.GetVersion(OfflineHost("1.2.3\n"), None, "", "", "VERSION") == Ok("1.2.3\n")
    ensures A.GetVersion(OfflineHost("\n"), None, "", "", "VERSION") == Fatal(UnreadableFile("VERSION"))
    ensures F.GetVersion(OfflineHost("\n"), None, "", "", "VERSION") == Ok("\n")
  {
    assert "" + "VERSION" == "VERSION";
    RemovingNewlineExamples();
    RemovingIsEmpty("\n", '\n');
  }

  /** A host whose Consul store holds `v2` under `kv/version` and whose
      `VERSION` file holds `v1`. */
  function OnlineHost(): Host {
    var reply := Response(OK, Some([Entry(None, Some("version"), None, Some("djI="), None, None)]));
    Host(uri => if uri == "kv/version" then Some(reply) else None,
         map[], "", map["VERSION" := Some("v1")],
         s => if s == "djI=" then Some([118, 50]) else None,
         b => if b == [118, 50] then "v2" else "",
         _ => false)
  }

  /** With Consul reachable, the synchronous copy returns the stored version
      and the async copy still reads the file. */
  lemma VersionCopiesDifferOnConsul()
    ensures A.GetVersion(OnlineHost(), Some(OK), "kv", "version", "VERSION") == Ok("v1")
    ensures F.GetVersion(OnlineHost(), Some(OK), "kv", "version", "VERSION") == Ok("v2")
  {
    assert ConsulUri("kv", "version") == "kv/version";
    assert "" + "VERSION" == "VERSION";
    RemovingIsIdentity("v1", '\n');
  }
}
