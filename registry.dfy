/**
  The protocol-to-storage mapping layer of a read-only Terraform module
  registry (main.go). A module coordinate becomes the storage path whose
  sub-directories are its versions, a storage listing becomes the versions
  response, a coordinate with a version becomes the `X-Terraform-Get` redirect
  value, and a download request path becomes the path handed to the file
  server. The storage backend is a parameter (`readDir`); HTTP transport, JSON
  encoding and process bootstrap are not part of this module.
*/
module Registry {
  import opened FilePath

  datatype Option<T> = None | Some(value: T)

  /** The base path of the modules API, advertised by service discovery. */
  const ModuleBasePath: string := "/terraform/modules/v1"

  /** The public root under which module archives are downloaded. */
  const DownloadRoot: string := "/download"

  /** The prefix the archive handler strips from a request path. */
  const DownloadStripPrefix: string := DownloadRoot + "/"

  /** The archive extension appended to a module's name. */
  const ArchiveExtension: string := ".tgz"

  /** The single key of a version record. */
  const VersionKey: string := "version"

  /** The service discovery document: {"modules.v1": <base path>}. */
  datatype ServiceDiscoveryResp = ServiceDiscoveryResp(modulesV1: string)

  /** A version record is a map from "version" to the version string. */
  type VersionRecord = map<string, string>

  /** The versions of one module: {"versions": [...]}. */
  datatype ModuleVersions = ModuleVersions(versions: seq<VersionRecord>)

  /** The versions response: {"modules": [...]}. */
  datatype ModuleVersionsResp = ModuleVersionsResp(modules: seq<ModuleVersions>)

  /** A module coordinate, built per request from the URL parameters. The
      versions route carries no version; it is then the empty string. */
  datatype Module = Module(namespace: string, name: string, provider: string, version: string)

  /** An error reported by the storage backend, passed on unchanged. */
  datatype Error = Error(message: string)

  /** One entry of a directory listing: its base name and whether it is a
      directory. */
  datatype DirEntry = DirEntry(name: string, isDir: bool)

  /** What listing a storage path yields: the entries or an error. */
  datatype ReadDirResult = ReadDirOk(entries: seq<DirEntry>) | ReadDirFailed(error: Error)

  /** The coordinate's namespace, name and provider are clean path segments. */
  predicate ValidCoordinates(m: Module) {
    ValidSegment(m.namespace) && ValidSegment(m.name) && ValidSegment(m.provider)
  }

  /** The coordinate and its version are clean path segments. */
  predicate ValidVersionedModule(m: Module) {
    ValidCoordinates(m) && ValidSegment(m.version)
  }

  /** The archive file name of a module: its name with the archive extension.
      It extends the name, and a clean name gives a clean file name. */
  function ArchiveName(m: Module): (r: string)
    ensures m.name < r
    ensures ValidSegment(m.name) ==> ValidSegment(r)
  {
    var r := m.name + ArchiveExtension;
    assert r[..|m.name|] == m.name;
    assert ValidSegment(m.name) ==> ValidSegment(r) by {
      if ValidSegment(m.name) {
        ExtensionKeepsSegment(m.name);
      }
    }
    r
  }

  /** A clean name followed by the archive extension is a clean segment. */
  lemma ExtensionKeepsSegment(n: string)
    requires ValidSegment(n)
    ensures ValidSegment(n + ArchiveExtension)
  {
    var a := n + ArchiveExtension;
    forall k | 0 <= k < |a| ensures a[k] != Separator {
      if k < |n| {
        assert a[k] == n[k];
      } else {
        assert a[k] == ".tgz"[k - |n|];
      }
    }
  }

  /** The module's directory below the prefix: `{ns}/{name}/{provider}`. */
  function ModuleDir(m: Module): string {
    m.namespace + "/" + m.name + "/" + m.provider
  }

  /** The archive's path below the prefix:
      `{ns}/{name}/{provider}/{version}/{name}.tgz`. */
  function ArchiveKey(m: Module): string {
    m.namespace + "/" + m.name + "/" + m.provider + "/" + m.version + "/" + ArchiveName(m)
  }

  // ---------------------------------------------------------------------
  // Service discovery
  // ---------------------------------------------------------------------

  /** The discovery document. It takes no input: the same document is served
      whatever the configured prefix, bucket or request. */
  function ServiceDiscovery(): (r: ServiceDiscoveryResp)
    ensures r.modulesV1 == "/terraform/modules/v1"
  {
    ServiceDiscoveryResp(ModuleBasePath)
  }

  // ---------------------------------------------------------------------
  // Versions
  // ---------------------------------------------------------------------

  /** The storage path listed for a module's versions: the configured prefix,
      then namespace, name and provider, joined with '/'. An empty prefix
      contributes nothing. */
  function VersionsPath(prefix: string, m: Module): (r: string)
    requires CleanPrefix(prefix) && ValidCoordinates(m)
    ensures prefix == "" ==> r == ModuleDir(m)
    ensures prefix != "" ==> r == prefix + "/" + ModuleDir(m)
  {
    DirJoin(m);
    JoinCons(prefix, [m.namespace, m.name, m.provider]);
    Join([prefix, m.namespace, m.name, m.provider])
  }

  /** The coordinates joined with '/'. */
  lemma DirJoin(m: Module)
    requires ValidCoordinates(m)
    ensures Join([m.namespace, m.name, m.provider]) == ModuleDir(m)
  {
    JoinOne(m.provider);
    JoinPrepend(m.name, [m.provider]);
    var j := Join([m.name, m.provider]);
    assert j == m.name + "/" + m.provider;
    JoinPrepend(m.namespace, [m.name, m.provider]);
  }

  /** The record for one listed entry: exactly one key, "version", holding
      the entry's name. */
  function VersionRecordOf(name: string): (r: VersionRecord)
    ensures r.Keys == {"version"} && r["version"] == name
  {
    map[VersionKey := name]
  }

  /** What listing the module's path promises: on failure no modules and the
      backend's error unchanged; on success no error and exactly one module
      whose i-th version record is that of the i-th entry, for every entry in
      listing order, directories and files alike. */
  ghost predicate VersionsOutcome(listing: ReadDirResult, resp: ModuleVersionsResp, err: Option<Error>) {
    match listing
    case ReadDirFailed(e) =>
      resp == ModuleVersionsResp([]) && err == Some(e)
    case ReadDirOk(entries) =>
      && err == None
      && |resp.modules| == 1
      && |resp.modules[0].versions| == |entries|
      && forall i :: 0 <= i < |entries| ==> resp.modules[0].versions[i] == VersionRecordOf(entries[i].name)
  }

  /** Looks up all versions of the module stored at `modPath`: lists the path
      and turns each entry, in order, into a version record. */
  method GetModuleVersions(readDir: string -> ReadDirResult, modPath: string)
    returns (resp: ModuleVersionsResp, err: Option<Error>)
    ensures VersionsOutcome(readDir(modPath), resp, err)
  {
    var listing := readDir(modPath);
    if listing.ReadDirFailed? {
      return ModuleVersionsResp([]), Some(listing.error);
    }
    var entries := listing.entries;
    var versions: seq<VersionRecord> := [];
    for i := 0 to |entries|
      invariant |versions| == i
      invariant forall j :: 0 <= j < i ==> versions[j] == VersionRecordOf(entries[j].name)
    {
      versions := versions + [VersionRecordOf(entries[i].name)];
    }
    resp, err := ModuleVersionsResp([ModuleVersions(versions)]), None;
  }

  /** The versions handler: the module's storage path and the response and
      error that listing it yields. */
  method HttpGetVersions(readDir: string -> ReadDirResult, prefix: string, m: Module)
    returns (modPath: string, resp: ModuleVersionsResp, err: Option<Error>)
    requires CleanPrefix(prefix) && ValidCoordinates(m)
    ensures modPath == VersionsPath(prefix, m)
    ensures VersionsOutcome(readDir(modPath), resp, err)
  {
    modPath := VersionsPath(prefix, m);
    resp, err := GetModuleVersions(readDir, modPath);
  }

  /** A listing determines the outcome: repeating the lookup against the same
      storage gives the same response and error. */
  lemma VersionsOutcomeDeterministic(listing: ReadDirResult,
                                     resp1: ModuleVersionsResp, err1: Option<Error>,
                                     resp2: ModuleVersionsResp, err2: Option<Error>)
    requires VersionsOutcome(listing, resp1, err1) && VersionsOutcome(listing, resp2, err2)
    ensures resp1 == resp2 && err1 == err2
  {
    if listing.ReadDirOk? {
      var v1, v2 := resp1.modules[0].versions, resp2.modules[0].versions;
      assert v1 == v2;
      assert resp1.modules == [ModuleVersions(v1)];
      assert resp2.modules == [ModuleVersions(v2)];
    }
  }

  /** Entry kind plays no part: two listings whose entries have the same
      names in the same order promise the same outcomes, so files are listed
      as versions just like directories. */
  lemma VersionsIgnoreEntryKind(entries1: seq<DirEntry>, entries2: seq<DirEntry>,
                                resp: ModuleVersionsResp, err: Option<Error>)
    requires |entries1| == |entries2|
    requires forall i :: 0 <= i < |entries1| ==> entries1[i].name == entries2[i].name
    ensures VersionsOutcome(ReadDirOk(entries1), resp, err) <==> VersionsOutcome(ReadDirOk(entries2), resp, err)
  {
  }

  /** A module stored with version directories 1.0.0, 1.1.0 and 2.0.0 (listed
      in that order) gets exactly those three versions, in that order. */
  lemma ThreeVersionDirectories(resp: ModuleVersionsResp, err: Option<Error>)
    requires VersionsOutcome(ReadDirOk([DirEntry("1.0.0", true), DirEntry("1.1.0", true), DirEntry("2.0.0", true)]), resp, err)
    ensures err == None
    ensures resp == ModuleVersionsResp([ModuleVersions([
      map["version" := "1.0.0"], map["version" := "1.1.0"], map["version" := "2.0.0"]])])
  {
    var vs := resp.modules[0].versions;
    assert vs[0] == VersionRecordOf("1.0.0");
    assert vs[1] == VersionRecordOf("1.1.0");
    assert vs[2] == VersionRecordOf("2.0.0");
    assert vs == [vs[0], vs[1], vs[2]];
    assert resp.modules == [resp.modules[0]];
  }

  // ---------------------------------------------------------------------
  // Download redirect and archive key
  // ---------------------------------------------------------------------

  /** The `X-Terraform-Get` value: the download root, then namespace, name,
      provider and version, then the archive name, joined with '/'. It does
      not depend on the configured prefix and is computed without looking at
      storage. */
  function DownloadURL(m: Module): (r: string)
    requires ValidVersionedModule(m)
    ensures r == DownloadStripPrefix + ArchiveKey(m)
  {
    KeyJoin(m);
    JoinCons(DownloadRoot, [m.namespace, m.name, m.provider, m.version, ArchiveName(m)]);
    Join([DownloadRoot, m.namespace, m.name, m.provider, m.version, ArchiveName(m)])
  }

  /** The coordinates, version and archive name joined with '/'. */
  lemma KeyJoin(m: Module)
    requires ValidVersionedModule(m)
    ensures Join([m.namespace, m.name, m.provider, m.version, ArchiveName(m)]) == ArchiveKey(m)
  {
    var archive := ArchiveName(m);
    JoinOne(archive);
    JoinPrepend(m.version, [archive]);
    JoinPrepend(m.provider, [m.version, archive]);
    JoinPrepend(m.name, [m.provider, m.version, archive]);
    JoinPrepend(m.namespace, [m.name, m.provider, m.version, archive]);
    SlashChain(m.namespace, m.name, m.provider, m.version, archive);
  }

  /** Five pieces separated by slashes, grouped from the right, are the same
      string grouped from the left. */
  lemma SlashChain(a: string, b: string, c: string, d: string, e: string)
    ensures a + [Separator] + (b + [Separator] + (c + [Separator] + (d + [Separator] + e)))
         == a + "/" + b + "/" + c + "/" + d + "/" + e
  {
  }

  /** The result of stripping `prefix` from `path`: present exactly when
      `path` starts with `prefix`, and then the rest of `path` after it. */
  function StripPrefix(prefix: string, path: string): (r: Option<string>)
    ensures r.Some? <==> prefix <= path
    ensures r.Some? ==> prefix + r.value == path
  {
    if prefix <= path then Some(path[|prefix|..]) else None
  }

  /** The path the archive handler hands to the file server for a request
      path: the path with "/download/" (`DownloadStripPrefix`) stripped, or
      nothing (a not-found answer) when the path does not start with it. The
      configured prefix plays no part. */
  function ModuleStorageKey(reqPath: string): (r: Option<string>)
    ensures r.Some? <==> DownloadStripPrefix <= reqPath
    ensures r.Some? ==> DownloadStripPrefix + r.value == reqPath
  {
    StripPrefix(DownloadStripPrefix, reqPath)
  }

  /** Where a version's archive lies in storage, in the layout the versions
      lookup reads: the configured prefix, the coordinates, the version's
      directory and the archive name, joined with '/'. */
  function ArtifactPath(prefix: string, m: Module): string
    requires CleanPrefix(prefix) && ValidVersionedModule(m)
  {
    Join([prefix, m.namespace, m.name, m.provider, m.version, ArchiveName(m)])
  }

  /** The storage key with the configured prefix put in front of the stripped
      request path: the key the archive handler needs for prefixed storage. */
  function PrefixedModuleStorageKey(prefix: string, reqPath: string): (r: Option<string>)
    requires CleanPrefix(prefix)
    ensures r.Some? <==> DownloadStripPrefix <= reqPath
    ensures r.Some? && prefix != "" && reqPath != DownloadStripPrefix ==>
      r.value == prefix + "/" + reqPath[|DownloadStripPrefix|..]
    ensures r.Some? && (prefix == "" || reqPath == DownloadStripPrefix) ==>
      r.value == prefix + reqPath[|DownloadStripPrefix|..]
  {
    match ModuleStorageKey(reqPath)
    case None => None
    case Some(key) =>
      JoinCons(key, []);
      JoinCons(prefix, [key]);
      assert reqPath[|DownloadStripPrefix|..] == key;
      Some(Join([prefix, key]))
  }

  /** Round trip: the archive handler strips the redirect value back to the
      module's archive key, `{ns}/{name}/{provider}/{version}/{name}.tgz`. */
  lemma DownloadRoundTrip(m: Module)
    requires ValidVersionedModule(m)
    ensures ModuleStorageKey(DownloadURL(m)) == Some(ArchiveKey(m))
  {
    assert DownloadURL(m)[|DownloadStripPrefix|..] == ArchiveKey(m);
  }

  /** The segments of the module's storage key: the four coordinates and the
      archive name. */
  lemma StorageKeySegments(m: Module)
    requires ValidVersionedModule(m)
    ensures Split(ModuleStorageKey(DownloadURL(m)).value) ==
      [m.namespace, m.name, m.provider, m.version, ArchiveName(m)]
  {
    var archive := ArchiveName(m);
    var segs := [m.namespace, m.name, m.provider, m.version, archive];
    SplitJoin(segs);
    KeyJoin(m);
    DownloadRoundTrip(m);
  }

  /** The segments of the redirect value: "", "download", then the four
      coordinates and the archive name. */
  lemma DownloadURLSegments(m: Module)
    requires ValidVersionedModule(m)
    ensures Split(DownloadURL(m)) ==
      ["", "download", m.namespace, m.name, m.provider, m.version, ArchiveName(m)]
  {
    var key := ArchiveKey(m);
    var segs := [m.namespace, m.name, m.provider, m.version, ArchiveName(m)];
    assert DownloadURL(m) == DownloadRoot + [Separator] + key;
    SplitAtSeparator(DownloadRoot, key);
    assert Split(DownloadURL(m)) == Split(DownloadRoot) + Split(key);
    ArchiveKeySegments(m);
    DownloadRootSegments();
    assert Split(DownloadURL(m)) == ["", "download"] + segs;
    DisplayConcat("", "download", m.namespace, m.name, m.provider, m.version, ArchiveName(m));
  }

  /** A two-element display followed by a five-element one is the
      seven-element display. */
  lemma DisplayConcat<T>(a: T, b: T, c: T, d: T, e: T, f: T, g: T)
    ensures [a, b] + [c, d, e, f, g] == [a, b, c, d, e, f, g]
  {
  }

  /** The archive key splits into the coordinates, the version and the
      archive name. */
  lemma ArchiveKeySegments(m: Module)
    requires ValidVersionedModule(m)
    ensures Split(ArchiveKey(m)) == [m.namespace, m.name, m.provider, m.version, ArchiveName(m)]
  {
    KeyJoin(m);
    SplitJoin([m.namespace, m.name, m.provider, m.version, ArchiveName(m)]);
  }

  /** The download root splits into an empty segment and "download". */
  lemma DownloadRootSegments()
    ensures Split(DownloadRoot) == ["", "download"]
  {
    assert DownloadRoot == [Separator] + "download";
    SplitCons(Separator, "download");
    SplitSegment("download");
  }

  /** Distinct versioned modules get distinct redirect values, and equal ones
      equal values. */
  lemma DownloadURLInjective(m1: Module, m2: Module)
    requires ValidVersionedModule(m1) && ValidVersionedModule(m2)
    ensures DownloadURL(m1) == DownloadURL(m2) <==> m1 == m2
  {
    if DownloadURL(m1) == DownloadURL(m2) {
      DownloadURLSegments(m1);
      DownloadURLSegments(m2);
      var s1, s2 := Split(DownloadURL(m1)), Split(DownloadURL(m2));
      assert s1[2] == s2[2] && s1[3] == s2[3] && s1[4] == s2[4] && s1[5] == s2[5];
    }
  }

  /** The segments of a versions path: the prefix's segments (none for an
      empty prefix), then namespace, name and provider. */
  lemma VersionsPathSegments(prefix: string, m: Module)
    requires CleanPrefix(prefix) && ValidCoordinates(m)
    ensures Split(VersionsPath(prefix, m)) ==
      PrefixSegments(prefix) + [m.namespace, m.name, m.provider]
  {
    var segs := [m.namespace, m.name, m.provider];
    assert [prefix] + segs == [prefix, m.namespace, m.name, m.provider];
    SplitJoinUnder(prefix, segs);
  }

  /** Under one prefix, two coordinates share a versions path exactly when
      their namespace, name and provider agree. */
  lemma VersionsPathInjective(prefix: string, m1: Module, m2: Module)
    requires CleanPrefix(prefix) && ValidCoordinates(m1) && ValidCoordinates(m2)
    ensures VersionsPath(prefix, m1) == VersionsPath(prefix, m2) <==>
      (m1.namespace, m1.name, m1.provider) == (m2.namespace, m2.name, m2.provider)
  {
    if VersionsPath(prefix, m1) == VersionsPath(prefix, m2) {
      VersionsPathSegments(prefix, m1);
      VersionsPathSegments(prefix, m2);
      var n := |PrefixSegments(prefix)|;
      var s1, s2 := Split(VersionsPath(prefix, m1)), Split(VersionsPath(prefix, m2));
      assert s1[n] == s2[n] && s1[n + 1] == s2[n + 1] && s1[n + 2] == s2[n + 2];
    }
  }

  /** The segments of an archive's storage location: the prefix's segments,
      the coordinates, the version and the archive name. So the archive lies
      in a sub-directory, named by the version, of the module's versions
      path. */
  lemma ArtifactPathSegments(prefix: string, m: Module)
    requires CleanPrefix(prefix) && ValidVersionedModule(m)
    ensures Split(ArtifactPath(prefix, m)) ==
      PrefixSegments(prefix) + [m.namespace, m.name, m.provider, m.version, ArchiveName(m)]
    ensures Split(ArtifactPath(prefix, m)) == Split(VersionsPath(prefix, m)) + [m.version, ArchiveName(m)]
  {
    var segs := [m.namespace, m.name, m.provider, m.version, ArchiveName(m)];
    assert [prefix] + segs == [prefix, m.namespace, m.name, m.provider, m.version, ArchiveName(m)];
    SplitJoinUnder(prefix, segs);
    VersionsPathSegments(prefix, m);
  }

  /** As written, the archive is fetched from the stored layout only when no
      prefix is configured: for any non-empty prefix the key the redirect
      leads to is not where the version's archive lies. */
  lemma DownloadKeyIsArtifactPathIffNoPrefix(prefix: string, m: Module)
    requires CleanPrefix(prefix) && ValidVersionedModule(m)
    ensures ModuleStorageKey(DownloadURL(m)) == Some(ArtifactPath(prefix, m)) <==> prefix == ""
  {
    DownloadRoundTrip(m);
    StorageKeySegments(m);
    ArtifactPathSegments(prefix, m);
    if prefix != "" {
      assert |Split(ArtifactPath(prefix, m))| > 5;
    }
  }

  /** Concretely: with prefix "modules", the archive of acme/vpc/aws 1.0.0
      lies at "modules/acme/vpc/aws/1.0.0/vpc.tgz", inside the directory the
      versions lookup lists, but its redirect leads to the storage key
      "acme/vpc/aws/1.0.0/vpc.tgz". */
  lemma PrefixedDownloadMissesArchive(prefix: string, m: Module)
    requires prefix == "modules" && m == Module("acme", "vpc", "aws", "1.0.0")
    ensures CleanPrefix(prefix) && ValidVersionedModule(m)
    ensures ModuleStorageKey(DownloadURL(m)) == Some("acme/vpc/aws/1.0.0/vpc.tgz")
    ensures ArtifactPath(prefix, m) == "modules/" + "acme/vpc/aws/1.0.0/vpc.tgz"
  {
    ExamplePrefixIsClean(prefix);
    ExampleModuleKey(m);
    DownloadRoundTrip(m);
    ArtifactPathUnderPrefix(prefix, m);
  }

  /** "modules" is a clean prefix. */
  lemma ExamplePrefixIsClean(prefix: string)
    requires prefix == "modules"
    ensures CleanPrefix(prefix)
  {
    SplitSegment(prefix);
  }

  /** acme/vpc/aws 1.0.0 is a valid versioned module whose archive key is
      "acme/vpc/aws/1.0.0/vpc.tgz". */
  lemma ExampleModuleKey(m: Module)
    requires m == Module("acme", "vpc", "aws", "1.0.0")
    ensures ValidVersionedModule(m)
    ensures ArchiveKey(m) == "acme/vpc/aws/1.0.0/vpc.tgz"
  {
  }

  /** With the prefix put in front of the stripped key, the redirect leads to
      the version's archive for every configured prefix, empty or not. */
  lemma PrefixedKeyFindsArtifact(prefix: string, m: Module)
    requires CleanPrefix(prefix) && ValidVersionedModule(m)
    ensures PrefixedModuleStorageKey(prefix, DownloadURL(m)) == Some(ArtifactPath(prefix, m))
  {
    PrefixedKeyOfRedirect(prefix, m);
    ArtifactPathUnderPrefix(prefix, m);
  }

  /** The corrected key of a redirect value: the archive key, under the
      prefix when one is configured. */
  lemma PrefixedKeyOfRedirect(prefix: string, m: Module)
    requires CleanPrefix(prefix) && ValidVersionedModule(m)
    ensures PrefixedModuleStorageKey(prefix, DownloadURL(m)) ==
      Some(if prefix == "" then ArchiveKey(m) else prefix + "/" + ArchiveKey(m))
  {
    DownloadRoundTrip(m);
    assert DownloadURL(m)[|DownloadStripPrefix|..] == ArchiveKey(m);
    if prefix == "" {
      assert "" + ArchiveKey(m) == ArchiveKey(m);
    }
  }

  /** A version's archive lies at the archive key, under the prefix when one
      is configured. */
  lemma ArtifactPathUnderPrefix(prefix: string, m: Module)
    requires CleanPrefix(prefix) && ValidVersionedModule(m)
    ensures ArtifactPath(prefix, m) == if prefix == "" then ArchiveKey(m) else prefix + "/" + ArchiveKey(m)
  {
    var segs := [m.namespace, m.name, m.provider, m.version, ArchiveName(m)];
    KeyJoin(m);
    JoinEmptyIff(segs);
    JoinCons(prefix, segs);
    assert [prefix] + segs == [prefix, m.namespace, m.name, m.provider, m.version, ArchiveName(m)];
  }

  // ---------------------------------------------------------------------
  // Routes
  // ---------------------------------------------------------------------

  /** The handler a route dispatches to. */
  datatype Handler = ServiceDiscoveryHandler | VersionsHandler | DownloadURLHandler | ModuleHandler

  /** A route: an HTTP method, a path pattern and its handler. A pattern
      ending in '*' matches every path that starts with the part before it. */
  datatype Route = Route(verb: string, pattern: string, handler: Handler)

  /** The URL parameters naming a module, as a route pattern. */
  const ModuleParams: string := "{namespace}/{name}/{provider}"

  /** The routes the server registers: five, all for GET requests. */
  function Routes(): (rs: seq<Route>)
    ensures |rs| == 5
    ensures forall i :: 0 <= i < |rs| ==> rs[i].verb == "GET"
  {
    [
    Route("GET", "/", ServiceDiscoveryHandler),
    Route("GET", "/.well-known/terraform.json", ServiceDiscoveryHandler),
    Route("GET", ModuleBasePath + "/" + ModuleParams + "/versions", VersionsHandler),
    Route("GET", ModuleBasePath + "/" + ModuleParams + "/{version}/download", DownloadURLHandler),
    Route("GET", DownloadRoot + "/*", ModuleHandler)
    ]
  }

  /** A wildcard pattern `p*` matches every path that starts with `p`. */
  predicate WildcardMatches(pattern: string, path: string) {
    |pattern| > 0 && pattern[|pattern| - 1] == '*' && pattern[..|pattern| - 1] <= path
  }

  /** The base path the discovery document advertises is the one under which
      the versions and download routes are registered. */
  lemma DiscoveryAdvertisesModuleRoutes()
    ensures forall i :: 0 <= i < |Routes()| && Routes()[i].handler in {VersionsHandler, DownloadURLHandler} ==>
      ServiceDiscovery().modulesV1 + "/" <= Routes()[i].pattern
  {
    var base := ServiceDiscovery().modulesV1 + "/";
    forall i | 0 <= i < |Routes()| && Routes()[i].handler in {VersionsHandler, DownloadURLHandler}
      ensures base <= Routes()[i].pattern
    {
      var tail := if i == 2 then "/versions" else "/{version}/download";
      assert Routes()[i].pattern == base + (ModuleParams + tail);
      PrefixOfConcat(base, ModuleParams + tail);
    }
  }

  /** A string is a prefix of itself followed by anything. */
  lemma PrefixOfConcat(a: string, b: string)
    ensures a <= a + b
  {
    assert (a + b)[..|a|] == a;
  }

  /** Every redirect value is a path the archive route matches, and the part
      of the pattern before '*' is exactly what the archive handler strips. */
  lemma RedirectIsServedByModuleRoute(m: Module)
    requires ValidVersionedModule(m)
    ensures exists i :: (0 <= i < |Routes()| && Routes()[i].handler == ModuleHandler
      && WildcardMatches(Routes()[i].pattern, DownloadURL(m))
      && Routes()[i].pattern[..|Routes()[i].pattern| - 1] == DownloadStripPrefix)
  {
    var p := Routes()[4].pattern;
    assert p == DownloadStripPrefix + "*";
    assert p[..|p| - 1] == DownloadStripPrefix;
    assert WildcardMatches(p, DownloadURL(m));
  }
}
