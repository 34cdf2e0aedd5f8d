# fs-app-configuration in Dafny

A model of the configuration resolver of `FSAppConfiguration`, a Vapor
library. The resolver finds a service's settings in three tiers:

- a Consul key-value store, tried only when the health probe answered
  exactly `.ok`;
- the process environment, for plain values;
- a file in the working directory, for the JWKS key set and the version.

Running out of tiers is fatal.

The library has two copies of the resolver, and the model keeps both:

- `AppConfiguration.swift` is the current async struct (module `AppConfiguration`);
- `FSAppConfiguration.swift` is the older one, built on `EventLoopFuture.wait()`
  (module `FSAppConfiguration`).

Both are straight-line guard-and-fallback code, so every operation is a
function. Each function returns `Ok(text)` or `Fatal(reason)`; `Fatal`
stands for the source's `fatalError`.

Modules:

- `Consul` (`consul.dfy`): the KV record `Entry` with its six optional
  fields, an HTTP reply `Response`, and the `Host`. The `Host` is a value
  that holds every outside collaborator:
  - the HTTP GET, as a function from URI to reply, with `None` when the GET throws;
  - the environment and the working directory;
  - the files, each already decoded as UTF-8 text, or `None` when it is not UTF-8;
  - three decoders: base64, lossy UTF-8, and "parses as a JWKS".
- `Text` (`text.dfy`): the string routines the resolvers use (Foundation's
  `replacingOccurrences` and the standard library's `uppercased`), the
  environment-key derivation and the KV URI, with lemmas that say what each
  one computes.
- `AppConfiguration` (`app_configuration.dfy`) and `FSAppConfiguration`
  (`fs_app_configuration.dfy`): one function per Swift method, plus lemmas
  about the tiers.
- `Variants` (`variants.dfy`): the two copies compared. They agree on the
  status probe, on decoding, on values and on key sets. They differ on
  versions; concrete hosts show each difference.

Points where the code may surprise a reader:

- `AppConfiguration.getVersion` removes every `"\n"` from the file, interior
  ones too, not only trailing ones. `"1.2\n.3"` becomes `"1.2.3"`.
- The async `getVersion` never consults Consul. The synchronous one does,
  and keeps newlines. So the two copies are not interchangeable for versions.
- The environment key replaces only `-` with `_`. Other separators, such as
  `.` and `/`, stay as they are.
- The remote tier is gated on the status being exactly 200. Any other 2xx
  code skips Consul.
- The status of the KV reply itself is never looked at. A reply whose body is
  not a KV array counts as no entries, and no entries is fatal.

## Model

| member | source | states |
|---|---|---|
| `Consul.Response.Content` | Sources/FSAppConfiguration/AppConfiguration.swift:201-206 | a body that decodes gives its entries; one that does not gives no entries |
| `Consul.Response.FirstValue` | Sources/FSAppConfiguration/AppConfiguration.swift:207 | there is a value exactly when there is a first entry and it has a `Value`; it is that entry's `Value` |
| `Text.ReplacingOccurrences` | Sources/FSAppConfiguration/AppConfiguration.swift:56 | replacing one character by another keeps the length |
| `Text.ReplacingOccurrencesAt` | Sources/FSAppConfiguration/AppConfiguration.swift:56 | replacing keeps the length; each `target` becomes `replacement`; every other character is unchanged |
| `Text.Uppercased` | Sources/FSAppConfiguration/AppConfiguration.swift:56 | upper-casing keeps the length |
| `Text.UppercasedAt` | Sources/FSAppConfiguration/AppConfiguration.swift:56 | upper-casing keeps the length and maps each character on its own |
| `Text.EnvironmentKey` | Sources/FSAppConfiguration/FSAppConfiguration.swift:38 | the key has the path's length and no `-` in it |
| `Text.EnvironmentKeyAt` | Sources/FSAppConfiguration/AppConfiguration.swift:56 | the key has the path's length; `-` becomes `_`; every other character is upper-cased; no `-` and no lower-case ASCII letter is left |
| `Text.EnvironmentKeyIdempotent` | Sources/FSAppConfiguration/AppConfiguration.swift:56 | deriving a key from a key gives the same key |
| `Text.EnvironmentKeyAppend` | Sources/FSAppConfiguration/FSAppConfiguration.swift:38 | the key of a concatenation is the concatenation of the keys |
| `Text.EnvironmentKeyExamples` | Sources/FSAppConfiguration/FSAppConfiguration.swift:38 | `a-b-c` gives `A_B_C` |
| `Text.EnvironmentKeyKeepsSeparators` | Sources/FSAppConfiguration/AppConfiguration.swift:56 | `a.b/c-d` gives `A.B/C_D`, so dots and slashes are kept |
| `Text.ConsulUri` | Sources/FSAppConfiguration/FSAppConfiguration.swift:37 | the URI is the URL, one `/`, then the path: its first part is exactly the URL and its last part exactly the path |
| `Text.Removing` | Sources/FSAppConfiguration/AppConfiguration.swift:118 | removing never lengthens the string and leaves no `target` in it |
| `Text.RemovingCounts` | Sources/FSAppConfiguration/AppConfiguration.swift:189 | no `target` is left; every other character is kept as many times as it occurs; the length drops by the number of `target`s |
| `Text.RemovingAppend` | Sources/FSAppConfiguration/AppConfiguration.swift:189 | removing distributes over concatenation, so the kept characters keep their order |
| `Text.RemovingIsIdentity` | Sources/FSAppConfiguration/AppConfiguration.swift:189 | a string is unchanged exactly when it has no `target` in it |
| `Text.RemovingIsEmpty` | Sources/FSAppConfiguration/AppConfiguration.swift:189 | nothing is left exactly when every character is `target` |
| `Text.RemovingNewlineExamples` | Sources/FSAppConfiguration/AppConfiguration.swift:118 | trailing and interior newlines both go; `"\n\n"` gives the empty string |
| `AppConfiguration.GetConsulStatus` | Sources/FSAppConfiguration/AppConfiguration.swift:42-46 | `None` exactly when the GET of `url + path` throws; otherwise the reply's status |
| `AppConfiguration.Decode` | Sources/FSAppConfiguration/AppConfiguration.swift:200-216 | succeeds exactly when the first entry has a `Value` that is valid base64, and then gives exactly its decoded bytes; no first `Value` gives `Fatal(NoValue)`; invalid base64 is fatal with that text |
| `AppConfiguration.DecodeReadsFirstEntryOnly` | Sources/FSAppConfiguration/AppConfiguration.swift:207 | entries after the first, and the reply's status, do not change the result |
| `AppConfiguration.DecodeUnparsedBody` | Sources/FSAppConfiguration/AppConfiguration.swift:201-210 | a body that is not a KV array decodes like `[]`: `Fatal(NoValue)` |
| `AppConfiguration.Fetch` | Sources/FSAppConfiguration/AppConfiguration.swift:100-101 | nothing exactly when the GET throws; otherwise the decoding of the reply |
| `AppConfiguration.ValueFromConsul` | Sources/FSAppConfiguration/AppConfiguration.swift:99-109 | a GET that throws is exactly `Ok(None)`; it is fatal exactly when decoding is, for the same reason; otherwise it gives the decoded bytes as text |
| `AppConfiguration.VersionFromConsul` | Sources/FSAppConfiguration/AppConfiguration.swift:115-126 | a GET that throws is exactly `Ok(None)`; it is fatal exactly when decoding is, for the same reason; otherwise the decoded text with every newline removed, so it has no `"\n"` |
| `AppConfiguration.JWKSFromConsul` | Sources/FSAppConfiguration/AppConfiguration.swift:132-148 | a GET that throws is exactly `Ok(None)`; it is fatal exactly when decoding is, for the same reason; non-empty text comes back only if the bytes parse as a JWKS, and it is their text; otherwise `""` |
| `AppConfiguration.ValueFromEnvironment` | Sources/FSAppConfiguration/AppConfiguration.swift:153-160 | succeeds exactly when the key is set to a non-empty value, and gives that value; otherwise `Fatal(MissingEnvironment(key))` |
| `AppConfiguration.JWKSFromLocalDirectory` | Sources/FSAppConfiguration/AppConfiguration.swift:165-178 | succeeds exactly when `workingDirectory + name` exists, is UTF-8 and is non-empty, and gives its text; a missing file and an unreadable file are distinct fatal reasons |
| `AppConfiguration.VersionFromLocalDirectory` | Sources/FSAppConfiguration/AppConfiguration.swift:182-195 | succeeds exactly when the file exists, is UTF-8 and has a character other than `"\n"`; gives the text with every newline removed, which is non-empty and newline-free |
| `AppConfiguration.GetValue` | Sources/FSAppConfiguration/AppConfiguration.swift:54-64 | any result is non-empty; unless the status is exactly 200, the environment alone decides; with 200, non-empty text from `url + "/" + path` wins; a GET that throws, or empty text, falls back to the environment; a fatal decode stays fatal |
| `AppConfiguration.GetJWKS` | Sources/FSAppConfiguration/AppConfiguration.swift:73-82 | any result is non-empty; the Consul text is kept only with status 200, bytes that parse as a JWKS, and non-empty text; otherwise the local file decides; a fatal decode stays fatal |
| `AppConfiguration.GetVersion` | Sources/FSAppConfiguration/AppConfiguration.swift:91-93 | it is the local-file version, which is non-empty and newline-free |
| `AppConfiguration.OfflineSkipsConsul` | Sources/FSAppConfiguration/AppConfiguration.swift:59-62 | unless the status is 200, changing every Consul reply changes no value and no key set |
| `AppConfiguration.ReadsOnlyConsulUri` | Sources/FSAppConfiguration/AppConfiguration.swift:55 | value and key set depend on the KV store only through the reply at `url + "/" + path` |
| `AppConfiguration.MissingEntryIsFatal` | Sources/FSAppConfiguration/AppConfiguration.swift:207-210 | with status 200, a reply without a first `Value` is `Fatal(NoValue)` for value and key set, whatever the environment and the files hold |
| `AppConfiguration.VersionIgnoresConsul` | Sources/FSAppConfiguration/AppConfiguration.swift:91-93 | the version is the same for any status, URL, path and Consul replies |
| `AppConfiguration.NewlinesOnlyVersionIsFatal` | Sources/FSAppConfiguration/AppConfiguration.swift:189-192 | a version file made only of newlines is fatal |
| `FSAppConfiguration.GetConsulStatus` | Sources/FSAppConfiguration/FSAppConfiguration.swift:23-28 | `None` exactly when the GET of `url + path` throws; otherwise the reply's status |
| `FSAppConfiguration.Decode` | Sources/FSAppConfiguration/FSAppConfiguration.swift:192-208 | succeeds exactly when the first entry has a valid base64 `Value`, and gives exactly its decoded bytes; a missing first `Value` and invalid base64 are fatal |
| `FSAppConfiguration.DecodeReadsFirstEntryOnly` | Sources/FSAppConfiguration/FSAppConfiguration.swift:199 | entries after the first, and the reply's status, do not change the result |
| `FSAppConfiguration.DecodeUnparsedBody` | Sources/FSAppConfiguration/FSAppConfiguration.swift:193-202 | a body that is not a KV array decodes like `[]`: `Fatal(NoValue)` |
| `FSAppConfiguration.Fetch` | Sources/FSAppConfiguration/FSAppConfiguration.swift:89-90 | nothing exactly when the GET future fails; otherwise the decoding of the reply |
| `FSAppConfiguration.ValueFromConsul` | Sources/FSAppConfiguration/FSAppConfiguration.swift:88-99 | a failed GET future is exactly `Ok(None)`; it is fatal exactly when decoding is, for the same reason; otherwise it gives the decoded text |
| `FSAppConfiguration.JWKSFromConsul` | Sources/FSAppConfiguration/FSAppConfiguration.swift:105-122 | a GET that throws is exactly `Ok(None)`; it is fatal exactly when decoding is, for the same reason; non-empty text comes back only if the bytes parse as a JWKS, and it is their text; otherwise `""` |
| `FSAppConfiguration.VersionFromConsul` | Sources/FSAppConfiguration/FSAppConfiguration.swift:128-140 | a failed GET future is exactly `Ok(None)`; fatal exactly when decoding is, for the same reason; otherwise the decoded text as it is, newlines kept |
| `FSAppConfiguration.ValueFromEnvironment` | Sources/FSAppConfiguration/FSAppConfiguration.swift:145-152 | succeeds exactly when the key is set to a non-empty value, and gives it; otherwise `Fatal(MissingEnvironment(key))` |
| `FSAppConfiguration.JWKSFromLocalDirectory` | Sources/FSAppConfiguration/FSAppConfiguration.swift:157-170 | succeeds exactly when `workingDirectory + name` exists, is UTF-8 and is non-empty, and gives its text; otherwise a missing-file or unreadable-file fatal |
| `FSAppConfiguration.VersionFromLocalDirectory` | Sources/FSAppConfiguration/FSAppConfiguration.swift:174-187 | succeeds exactly when the file exists, is UTF-8 and is non-empty, and gives its text, newlines kept |
| `FSAppConfiguration.GetValue` | Sources/FSAppConfiguration/FSAppConfiguration.swift:36-46 | any result is non-empty; unless the status is exactly 200, the environment alone decides; with 200, non-empty Consul text wins; a failed GET or empty text falls back; a fatal decode stays fatal |
| `FSAppConfiguration.GetJWKS` | Sources/FSAppConfiguration/FSAppConfiguration.swift:55-64 | any result is non-empty; the Consul text is kept only with status 200, bytes that parse as a JWKS, and non-empty text; otherwise the local file decides |
| `FSAppConfiguration.GetVersion` | Sources/FSAppConfiguration/FSAppConfiguration.swift:73-82 | any result is non-empty; with status 200, non-empty Consul text wins; otherwise, or on a failed GET or empty text, the local file decides; a fatal decode stays fatal |
| `FSAppConfiguration.OfflineSkipsConsul` | Sources/FSAppConfiguration/FSAppConfiguration.swift:41-44 | unless the status is 200, changing every Consul reply changes no value, no key set and no version |
| `FSAppConfiguration.ReadsOnlyConsulUri` | Sources/FSAppConfiguration/FSAppConfiguration.swift:37 | all three results depend on the KV store only through the reply at `url + "/" + path` |
| `FSAppConfiguration.MissingEntryIsFatal` | Sources/FSAppConfiguration/FSAppConfiguration.swift:199-202 | with status 200, a reply without a first `Value` is `Fatal(NoValue)` for value, key set and version alike |
| `Variants.StatusCopiesAgree` | Sources/FSAppConfiguration/FSAppConfiguration.swift:23-28 | both copies report the same status |
| `Variants.DecodeCopiesAgree` | Sources/FSAppConfiguration/FSAppConfiguration.swift:192-208 | both copies decode every reply alike |
| `Variants.ValueCopiesAgree` | Sources/FSAppConfiguration/FSAppConfiguration.swift:36-46 | both copies resolve every value alike |
| `Variants.JWKSCopiesAgree` | Sources/FSAppConfiguration/FSAppConfiguration.swift:55-64 | both copies resolve every key set alike |
| `Variants.VersionCopiesOffline` | Sources/FSAppConfiguration/FSAppConfiguration.swift:174-187 | with Consul skipped, the async version succeeds only when the synchronous one does, and is its text without newlines; on a newline-free file they agree; where only the synchronous copy succeeds, the file held only newlines |
| `Variants.VersionCopiesDifferOnNewlines` | Sources/FSAppConfiguration/AppConfiguration.swift:189 | for a file `"1.2.3\n"` the copies return `"1.2.3"` and `"1.2.3\n"`; for a file `"\n"` the async copy is fatal and the synchronous one returns `"\n"` |
| `Variants.VersionCopiesDifferOnConsul` | Sources/FSAppConfiguration/FSAppConfiguration.swift:73-82 | with Consul holding `v2` and the file `v1`, the synchronous copy returns `v2` and the async copy returns `v1` |

## Left out

- HTTP transport, `async`/`await` and `EventLoopFuture`: each GET is the `Host.get` function of its URI. A GET that throws, or a future that fails, is `None`. Timeouts and cancellation are not modelled.
- JSON decoding of `[ConsulKeyValueResponse]` and of `JWKS`: these are library calls. A reply carries its entries already decoded, or `None`; `Host.isJWKS` says whether the JWKS decoder accepts the bytes.
- `Array(decodingBase64:)` and `String(decoding:as: UTF8.self)`: library routines whose code is not part of this model. They are the abstract `Host.base64Decode` and `Host.utf8Decode`. So the base64 round trip is not proved; `Decode` only promises to return exactly what the decoder gives.
- `FileManager.default.contents`, `String(data:encoding: .utf8)`, `Environment.get`, `app.directory.workingDirectory`: ambient state, given as the `Host.files` and `Host.environment` maps and `Host.workingDirectory`.
- Logging through `app.logger`: it does not affect any result. The text of the `fatalError` messages is reduced to a `Reason`.
- `HTTPResponseStatus`: modelled as its numeric code, with `.ok` as 200.
- `Configure.swift`, `Extensions/Application+Extensions.swift`, `AppConfigurationProtocol.swift` and `Package.swift` are not part of this model. They hold log-level setup, framework wiring, a protocol with signatures only, and build scaffolding.
- Text.UppercasedAt: models `uppercased()` for ASCII letters only. Swift applies full Unicode case mapping (`ß` becomes `SS`), which can change the length.
- Text.RemovingCounts: treats a string as a sequence of Unicode scalars. Swift compares by extended grapheme cluster, so a `"\r\n"` pair is not modelled specially.
