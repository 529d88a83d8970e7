# tf-registry: the protocol-to-storage mapping, in Dafny

tf-registry is a read-only Terraform module registry. It serves the module
registry protocol over HTTP and keeps the modules in an S3 bucket, read
through Go's `fs.FS` interface. All of its logic is in `main.go`. Besides the
HTTP, AWS and routing glue, this logic is a small layer that maps protocol
identifiers to storage paths and shapes the responses. This project models
that layer:

- the service discovery document, which always advertises
  `/terraform/modules/v1`;
- the storage path listed for a module's versions,
  `filepath.Join(prefix, namespace, name, provider)`;
- `getModuleVersions`, which lists that path and turns each entry, in
  listing order, into a `{"version": <entry name>}` record. The listing is an
  error or a sequence of entries. The error is passed on unchanged;
- the `X-Terraform-Get` redirect value,
  `/download/{ns}/{name}/{provider}/{version}/{name}.tgz`;
- the path the archive handler hands to the file server: the request path
  with `/download/` stripped;
- the route table, as constant data.

`paths.dfy` (module `FilePath`) holds `Join`, which is Go's `filepath.Join`
restricted to clean segments: non-empty, no `/`, not `.` or `..`. For such
segments Go's `Clean` changes nothing. The file also holds `Split`, which cuts
a path at every `/`. `SplitJoin` proves that `Split` undoes `Join`, and the
injectivity and layout lemmas are stated in terms of it.

`registry.dfy` (module `Registry`) holds the registry's types and operations.
Storage is a parameter, `readDir: string -> ReadDirResult`, and stands for
`fs.ReadDir` on the bucket. `getModuleVersions` is a method with a loop. Its
invariant covers the records built so far. Its `ensures` ties the response and
the error to the listing, through the predicate `VersionsOutcome`.

## Model

| member | source | states |
|---|---|---|
| Registry.ServiceDiscovery | main.go:70 | The discovery document advertises `modules.v1` = `/terraform/modules/v1`. It takes no input, so the document is the same whatever the prefix, the bucket or the request. |
| Registry.VersionsPath | main.go:86 | With an empty prefix the versions path is exactly `ns/name/provider`. Otherwise it is exactly `prefix/ns/name/provider`. |
| Registry.VersionsPathSegments | main.go:86 | The versions path splits into the prefix's segments (none for an empty prefix), then namespace, name and provider. |
| Registry.VersionsPathInjective | main.go:86 | Under one prefix, two modules share a versions path if and only if their namespace, name and provider agree. |
| Registry.ArchiveName | main.go:112 | The archive file name extends the module's name (with `.tgz`), and a clean name gives a clean file name. |
| Registry.VersionRecordOf | main.go:54 | A version record has exactly one key, `"version"`, and it holds the entry's name. |
| Registry.GetModuleVersions | main.go:47-60 | If the listing fails: no modules, and the backend's error unchanged. If it succeeds: no error and exactly one module. Its versions list is as long as the listing, and the i-th version is the record of the i-th entry's name. Entries are not filtered, de-duplicated or sorted. |
| Registry.HttpGetVersions | main.go:80-94 | The handler lists the versions path built from the prefix and the URL parameters, and its response and error are what `GetModuleVersions` promises for that listing. |
| Registry.VersionsOutcomeDeterministic | main.go:47-60 | The listing determines the response and the error: two outcomes of the same listing are equal. |
| Registry.VersionsIgnoreEntryKind | main.go:53-56 | Only entry names count. Two listings with the same names in the same order give the same outcomes, so files are listed as versions just like directories. |
| Registry.ThreeVersionDirectories | main.go:76-79 | A module with version directories 1.0.0, 1.1.0 and 2.0.0, listed in that order, gets exactly those three records in that order, and no error. |
| Registry.DownloadURL | main.go:106-113 | The redirect value is exactly `/download/` followed by `ns/name/provider/version/name.tgz`. It has no prefix input and reads no storage. |
| Registry.DownloadURLSegments | main.go:106-113 | The redirect value splits into `""`, `"download"`, namespace, name, provider, version and `name.tgz`. |
| Registry.DownloadURLInjective | main.go:106-113 | Two versioned modules get the same redirect value if and only if they are the same module. |
| Registry.StripPrefix | main.go:125 | The result is present if and only if the path starts with the prefix. The prefix followed by the result then gives back the path. |
| Registry.ModuleStorageKey | main.go:125 | The path handed to the file server exists if and only if the request path starts with `/download/`. It is then the rest of the path. The configured prefix plays no part. |
| Registry.DownloadRoundTrip | main.go:125 | Stripping `/download/` from a redirect value gives the module's archive key, `ns/name/provider/version/name.tgz`. |
| Registry.StorageKeySegments | main.go:125 | The key a redirect leads to splits into namespace, name, provider, version and `name.tgz`. The prefix is not among them. |
| Registry.ArtifactPathSegments | main.go:76-86 | A version's archive, stored as the versions lookup expects, splits into the prefix's segments, the coordinates, the version and `name.tgz`. This is the versions path's segments followed by the version and the archive name. |
| Registry.ArtifactPathUnderPrefix | main.go:76-86 | A version's archive lies at the archive key, under `prefix/` when a prefix is configured. |
| Registry.DownloadKeyIsArtifactPathIffNoPrefix | main.go:125 | As written, the key a redirect leads to is where the version's archive lies if and only if the prefix is empty. |
| Registry.PrefixedDownloadMissesArchive | main.go:125 | Take prefix `modules` and module acme/vpc/aws 1.0.0. The redirect leads to key `acme/vpc/aws/1.0.0/vpc.tgz`, but the archive lies at `modules/acme/vpc/aws/1.0.0/vpc.tgz`. |
| Registry.PrefixedModuleStorageKey | main.go:125 | The corrected key exists if and only if the request path starts with `/download/`. It is then the stripped rest, under `prefix/` when a prefix is configured. |
| Registry.PrefixedKeyOfRedirect | main.go:125 | The corrected key of a redirect value is the archive key, under `prefix/` when a prefix is configured. |
| Registry.PrefixedKeyFindsArtifact | main.go:125 | With the corrected key, every redirect leads to where the version's archive lies, for every prefix, empty or not. |
| Registry.DiscoveryAdvertisesModuleRoutes | main.go:207-214 | The versions and download routes are registered under the base path that the discovery document advertises. |
| Registry.Routes | main.go:207-217 | The five routes and their handlers, all for GET requests. |
| Registry.RedirectIsServedByModuleRoute | main.go:217 | Every redirect value matches the `/download/*` route. The part of that pattern before `*` is exactly the prefix its handler strips. |
| FilePath.Join | main.go:86 | The non-empty elements joined with `/`. `Clean` is the identity on the clean inputs admitted. A path whose first element is non-empty starts with that element. |
| FilePath.JoinEmptyIff | main.go:86 | `Join` gives the empty path if and only if every element is empty. |
| FilePath.SplitJoin | main.go:86 | Splitting the join of clean segments at `/` gives the segments back. |

## Left out

- JSON encoding and header writing (`Content-Type`, `Content-Encoding`, the 204 status of the redirect handler) are not modelled. These are byte-level output on the response writer.
- Registry.GetModuleVersions: the model does not tell a nil slice from an empty one. On failure it returns an empty module list, where Go returns a nil slice that encodes as `"modules": null`. On a successful but empty listing it returns an empty versions list, where Go leaves `Versions` nil, which encodes as `"versions": null`.
- Registry.HttpGetVersions: on a failed listing the handler writes a 500 with the error text and then still encodes the empty response, because no `return` follows `http.Error`. Only the response and the error are modelled, not this output sequencing.
- Registry.VersionsPath: requires clean coordinates and a clean prefix (no `//`, no trailing `/`, no `.` or `..` segment). Go's `Join` would clean other inputs, and `..` in a URL parameter could climb out of the module's directory. General `Clean` semantics and that traversal hazard are outside the model.
- Registry.DownloadURL: requires clean namespace, name, provider and version, for the same reason. With an empty or `..` field, Go's `Join` would produce a different value.
- FilePath.Join: models `filepath.Join` on a Unix host with `/` as the only separator.
- The order of a listing is whatever storage returns (`fs.ReadDir` sorts by name). The model takes that order as given.
- Registry.ModuleStorageKey: the file server then opens `path.Clean("/" + key)` without its leading `/`, or `.` for an empty key. That cleaning is not modelled, so `/download/a/../b` gives `a/../b` here, where the server opens `b`. Redirect values are already clean, so `DownloadRoundTrip` and the finding are unaffected.
- Serving the archive bytes through `http.FileServer` is not modelled: range and conditional requests, directory listings, and the `RawPath` handling of `http.StripPrefix`. Only the string prefix strip is.
- Route matching and middleware from chi, and the `/is_alive` heartbeat, are library behaviour. The route table is recorded as constant data only.
- `main`, `init` and `usage` are process bootstrap and I/O: flag parsing, the AWS session, the S3 file system and the bucket probe.
- Concurrency: handlers are stateless and share only read-only configuration, so there is nothing to model.

## Findings

| source | as written | input that shows it | evidently intended | confidence | as-written member | corrected member |
|---|---|---|---|---|---|---|
| main.go:125 | The archive handler serves the request path with `/download/` stripped, read from the bucket root. The versions lookup at main.go:86 reads below the configured prefix. | prefix `modules`, module acme/vpc/aws 1.0.0: the redirect leads to key `acme/vpc/aws/1.0.0/vpc.tgz`, while the archive lies at `modules/acme/vpc/aws/1.0.0/vpc.tgz` | put the prefix in front of the stripped key, so that downloads read the same layout the versions lookup lists | not executed | Registry.DownloadKeyIsArtifactPathIffNoPrefix | Registry.PrefixedKeyFindsArtifact |
