/** src/utils/json.ts: merging the package's MCP server registry into the
    user's configuration, and the file update around it (read, merge, back
    up, write).

    `JSON.parse` and the formatted `JSON.stringify` are the function
    parameters `parse` (None when the text is not JSON) and `serialise`. */
module McpMerge {
  import opened Wrappers
  import opened Types
  import opened Fs

  /** The user's entry for `name` is present and truthy, so the merge keeps it. */
  predicate Kept(user: map<string, Json>, name: string) {
    name in user && Truthy(user[name])
  }

  /** The package names the merge adds: those absent or falsy in the user's registry. */
  function AddedNames(user: map<string, Json>, pkg: map<string, Json>): set<string> {
    set name | name in pkg && !Kept(user, name)
  }

  /** The registry after the merge: first writer wins, where a falsy user
      entry does not count as written. */
  function MergedRegistry(user: map<string, Json>, pkg: map<string, Json>): map<string, Json> {
    map name | name in user.Keys + pkg.Keys :: if name in pkg && !Kept(user, name) then pkg[name] else user[name]
  }

  /** The configuration after the merge. */
  function Merged(user: McpConfig, pkg: McpConfig): (r: McpConfig)
    ensures Registry(r).Keys == Registry(user).Keys + Registry(pkg).Keys
  {
    user[ServersKey := JObj(MergedRegistry(Registry(user), Registry(pkg)))]
  }

  /** `pkg` restricted to the names in `names`. */
  function Restrict(pkg: map<string, Json>, names: set<string>): map<string, Json> {
    map name | name in pkg && name in names :: pkg[name]
  }

  /** deepMergeMcp. The package's entries are objects (`McpEntry`), so the
      copy `{ ...entry }` equals the entry. */
  method DeepMergeMcp(user: McpConfig, pkg: McpConfig) returns (merged: McpConfig, entriesAdded: nat)
    requires EntriesAreObjects(pkg)
    ensures merged == Merged(user, pkg)
    ensures entriesAdded == |AddedNames(Registry(user), Registry(pkg))|
  {
    var servers: map<string, Json>;
    if ServersKey in user && Truthy(user[ServersKey]) {
      servers := user[ServersKey].fields;
    } else {
      servers := map[];
    }
    entriesAdded := 0;
    if ServersKey in pkg && Truthy(pkg[ServersKey]) {
      var entries := pkg[ServersKey].fields;
      assert entries == Registry(pkg);
      EntriesTruthy(pkg);
      servers, entriesAdded := AddMissing(servers, entries);
    } else {
      MergeStart(servers, map[]);
    }
    merged := user[ServersKey := JObj(servers)];
  }

  /** The loop of deepMergeMcp: each package entry whose name the registry
      does not keep is added, taking the names in any order. */
  method AddMissing(user: map<string, Json>, pkg: map<string, Json>) returns (servers: map<string, Json>, entriesAdded: nat)
    requires forall name :: name in pkg ==> Truthy(pkg[name])
    ensures servers == MergedRegistry(user, pkg)
    ensures entriesAdded == |AddedNames(user, pkg)|
  {
    servers, entriesAdded := user, 0;
    var todo := pkg.Keys;
    MergeStart(user, pkg);
    while todo != {}
      invariant todo <= pkg.Keys
      invariant servers == MergedRegistry(user, Restrict(pkg, pkg.Keys - todo))
      invariant entriesAdded == |AddedNames(user, Restrict(pkg, pkg.Keys - todo))|
      decreases todo
    {
      var name :| name in todo;
      RestrictStep(pkg, todo, name);
      AddedStep(user, Restrict(pkg, pkg.Keys - todo), name, pkg[name]);
      if !(name in servers && Truthy(servers[name])) {
        servers := servers[name := pkg[name]];
        entriesAdded := entriesAdded + 1;
      }
      todo := todo - {name};
    }
    MergeEnd(pkg);
  }

  /** Object entries are truthy. */
  lemma EntriesTruthy(pkg: McpConfig)
    requires EntriesAreObjects(pkg)
    ensures forall name :: name in Registry(pkg) ==> Truthy(Registry(pkg)[name])
  {
    forall name | name in Registry(pkg) ensures Truthy(Registry(pkg)[name]) {
      assert Registry(pkg)[name].JObj?;
    }
  }

  /** Before the loop nothing of the package is merged; after it all of it is. */
  lemma MergeStart(u: map<string, Json>, p: map<string, Json>)
    ensures MergedRegistry(u, Restrict(p, p.Keys - p.Keys)) == u
    ensures AddedNames(u, Restrict(p, p.Keys - p.Keys)) == {}
    ensures p == map[] ==> MergedRegistry(u, p) == u && AddedNames(u, p) == {}
  {
    assert Restrict(p, p.Keys - p.Keys) == map[];
    assert MergedRegistry(u, map[]) == u;
  }

  lemma MergeEnd(p: map<string, Json>)
    ensures Restrict(p, p.Keys - {}) == p
  {
  }

  /** Taking `name` out of the names still to do adds its entry to the part done. */
  lemma RestrictStep(p: map<string, Json>, todo: set<string>, name: string)
    requires todo <= p.Keys && name in todo
    ensures Restrict(p, p.Keys - (todo - {name})) == Restrict(p, p.Keys - todo)[name := p[name]]
    ensures name !in Restrict(p, p.Keys - todo)
  {
    assert Restrict(p, p.Keys - (todo - {name})) == Restrict(p, p.Keys - todo)[name := p[name]];
  }

  /** One package entry more: the merged registry and the added names grow by
      that entry exactly when the user does not keep the name. */
  lemma AddedStep(u: map<string, Json>, done: map<string, Json>, name: string, entry: Json)
    requires name !in done && Truthy(entry)
    ensures var current := MergedRegistry(u, done);
      && (Kept(current, name) <==> Kept(u, name))
      && MergedRegistry(u, done[name := entry]) ==
        (if Kept(u, name) then current else current[name := entry])
      && AddedNames(u, done[name := entry]) ==
        (if Kept(u, name) then AddedNames(u, done) else AddedNames(u, done) + {name})
      && name !in AddedNames(u, done)
  {
    var current := MergedRegistry(u, done);
    if !Kept(u, name) {
      assert MergedRegistry(u, done[name := entry]) == current[name := entry];
    } else {
      assert MergedRegistry(u, done[name := entry]) == current;
    }
  }

  // ---------------------------------------------------------------------
  // Properties of the merge

  /** Every top-level field of the user's configuration other than
      `mcpServers` is kept as it is, and `mcpServers` is always an object. */
  lemma MergeKeepsOtherFields(user: McpConfig, pkg: McpConfig)
    ensures var m := Merged(user, pkg);
      && m.Keys == user.Keys + {ServersKey}
      && (forall k :: k in user && k != ServersKey ==> m[k] == user[k])
      && m[ServersKey].JObj? && Registry(m) == MergedRegistry(Registry(user), Registry(pkg))
  {
  }

  /** The merged registry: every user entry the merge keeps is unchanged,
      every added name holds the package's entry, and no name is lost; the
      number added is the number of package names the user does not keep. */
  lemma MergedRegistryContents(u: map<string, Json>, p: map<string, Json>)
    ensures var m := MergedRegistry(u, p);
      && m.Keys == u.Keys + p.Keys
      && (forall name :: Kept(u, name) ==> m[name] == u[name])
      && (forall name :: name in AddedNames(u, p) ==> m[name] == p[name])
      && (forall name :: name in u && name !in AddedNames(u, p) ==> m[name] == u[name])
      && AddedNames(u, p) <= p.Keys
  {
  }

  /** Without package servers nothing is added. */
  lemma NoPackageServersAddsNothing(user: McpConfig, pkg: McpConfig)
    requires !(ServersKey in pkg && Truthy(pkg[ServersKey]))
    ensures AddedNames(Registry(user), Registry(pkg)) == {}
    ensures Registry(Merged(user, pkg)) == Registry(user)
  {
  }

  /** Convergence: after a merge, merging the same package adds nothing and
      leaves the configuration as it is. */
  lemma MergeConverges(user: McpConfig, pkg: McpConfig)
    requires EntriesAreObjects(pkg)
    ensures AddedNames(Registry(Merged(user, pkg)), Registry(pkg)) == {}
    ensures Merged(Merged(user, pkg), pkg) == Merged(user, pkg)
  {
    var u, p := Registry(user), Registry(pkg);
    var m := MergedRegistry(u, p);
    assert Registry(Merged(user, pkg)) == m;
    forall name | name in p ensures Kept(m, name) {
      assert p[name].JObj?;
    }
    assert MergedRegistry(m, p) == m;
  }

  // ---------------------------------------------------------------------
  // mergeAndBackupMcp

  /** `{ action, entriesAdded, backupCreated }`. */
  datatype McpSummary = McpSummary(action: Action, entriesAdded: nat, backupCreated: bool)

  /** What mergeAndBackupMcp reports and the files it leaves. */
  datatype McpRun = McpRun(result: Result<McpSummary, FsError>, files: map<Path, string>)

  /** A parsed configuration is falsy or an McpConfig object. */
  predicate UserShaped(parsed: Option<Json>) {
    parsed.Some? && Truthy(parsed.value) ==> parsed.value.JObj? && IsMcpConfig(parsed.value.fields)
  }

  /** Writing the package configuration as the whole file. */
  function WritePackage(files: map<Path, string>, readOnly: set<Path>, path: Path, pkg: McpConfig,
                        serialise: Config -> string): McpRun {
    if path in readOnly then McpRun(Failure(WriteFailed(path)), files)
    else McpRun(Success(McpSummary(Created, |Registry(pkg).Keys|, false)), files[path := serialise(pkg)])
  }

  /** mergeAndBackupMcp on the file map, at the time `iso`. */
  function McpStep(files: map<Path, string>, readOnly: set<Path>, path: Path, pkg: McpConfig,
                   parse: string -> Option<Json>, serialise: Config -> string, iso: string): (r: McpRun)
    requires path in files ==> UserShaped(parse(files[path]))
    ensures r.result.Failure? ==>
      r.result.error in {InvalidJson(path), WriteFailed(path), WriteFailed(BackupPath(path, iso))}
    ensures r.result.Success? ==>
      path in r.files && (r.result.value.backupCreated <==> r.result.value.action == Updated)
  {
    if path !in files then WritePackage(files, readOnly, path, pkg, serialise)
    else
      var parsed := parse(files[path]);
      if parsed.None? then McpRun(Failure(InvalidJson(path)), files)
      else if !Truthy(parsed.value) then WritePackage(files, readOnly, path, pkg, serialise)
      else
        var user: McpConfig := parsed.value.fields;
        var added := |AddedNames(Registry(user), Registry(pkg))|;
        if added == 0 then McpRun(Success(McpSummary(Skipped, 0, false)), files)
        else
          var bk := BackupStep(files, readOnly, path, iso);
          if bk.result.Failure? then McpRun(Failure(bk.result.error), bk.files)
          else if path in readOnly then McpRun(Failure(WriteFailed(path)), bk.files)
          else McpRun(Success(McpSummary(Updated, added, true)), bk.files[path := serialise(Merged(user, pkg))])
  }

  /** readJsonWithBackup: the parsed content, None for a missing file, or
      the error JSON.parse raised. */
  method ReadJson(fs: FileSystem, path: Path, parse: string -> Option<Json>) returns (r: Result<Option<Json>, FsError>)
    ensures path !in fs.files ==> r == Success(None)
    ensures path in fs.files ==> r == if parse(fs.files[path]).None? then Failure(InvalidJson(path)) else Success(parse(fs.files[path]))
  {
    if path !in fs.files {
      return Success(None);
    }
    var parsed := parse(fs.files[path]);
    if parsed.None? {
      return Failure(InvalidJson(path));
    }
    return Success(parsed);
  }

  /** writeJsonFormatted: the formatted text as the whole file. */
  method WriteJson(fs: FileSystem, path: Path, data: Config, serialise: Config -> string) returns (r: Result<(), FsError>)
    modifies fs
    ensures r == if path in fs.readOnly then Failure(WriteFailed(path)) else Success(())
    ensures fs.files == if r.Success? then old(fs.files)[path := serialise(data)] else old(fs.files)
  {
    var ok := fs.Write(path, serialise(data));
    r := if ok then Success(()) else Failure(WriteFailed(path));
  }

  /** mergeAndBackupMcp. */
  method MergeAndBackupMcp(fs: FileSystem, path: Path, pkg: McpConfig, parse: string -> Option<Json>,
                           serialise: Config -> string, iso: string) returns (r: Result<McpSummary, FsError>)
    requires EntriesAreObjects(pkg)
    requires path in fs.files ==> UserShaped(parse(fs.files[path]))
    modifies fs
    ensures McpRun(r, fs.files) == McpStep(old(fs.files), fs.readOnly, path, pkg, parse, serialise, iso)
  {
    var backupCreated := false;
    if path !in fs.files {
      var w := WriteJson(fs, path, pkg, serialise);
      if w.Failure? {
        return Failure(w.error);
      }
      return Success(McpSummary(Created, |Registry(pkg).Keys|, backupCreated));
    }
    var read := ReadJson(fs, path, parse);
    if read.Failure? {
      return Failure(read.error);
    }
    var userConfig := read.value;
    if userConfig.None? || !Truthy(userConfig.value) {
      var w := WriteJson(fs, path, pkg, serialise);
      if w.Failure? {
        return Failure(w.error);
      }
      return Success(McpSummary(Created, |Registry(pkg).Keys|, backupCreated));
    }
    var user: McpConfig := userConfig.value.fields;
    var merged, entriesAdded := DeepMergeMcp(user, pkg);
    if entriesAdded == 0 {
      return Success(McpSummary(Skipped, 0, backupCreated));
    }
    var backup := fs.CreateBackupFile(path, iso);
    if backup.Failure? {
      return Failure(backup.error);
    }
    backupCreated := true;
    var w := WriteJson(fs, path, merged, serialise);
    if w.Failure? {
      return Failure(w.error);
    }
    return Success(McpSummary(Updated, entriesAdded, backupCreated));
  }

  // ---------------------------------------------------------------------
  // Properties of mergeAndBackupMcp

  /** The outcomes: a configuration file that is missing or parses to a
      falsy value is replaced by the package's; text that is not JSON is an
      error and nothing is written; nothing to add is `skipped` and nothing is
      written; otherwise the result is `updated` with a backup. No run reports
      a conflict. */
  lemma McpOutcomes(files: map<Path, string>, readOnly: set<Path>, path: Path, pkg: McpConfig,
                    parse: string -> Option<Json>, serialise: Config -> string, iso: string)
    requires path in files ==> UserShaped(parse(files[path]))
    ensures var run := McpStep(files, readOnly, path, pkg, parse, serialise, iso);
      && (path in files && parse(files[path]).None? ==> run == McpRun(Failure(InvalidJson(path)), files))
      && (run.result.Success? ==> run.result.value.action != Conflict)
      && (run.result.Success? && run.result.value.action == Created <==>
            (path !in files || (parse(files[path]).Some? && !Truthy(parse(files[path]).value))) && path !in readOnly)
      && (run.result.Success? && run.result.value.action == Created ==>
            run.files == files[path := serialise(pkg)] && run.result.value.entriesAdded == |Registry(pkg).Keys|
            && !run.result.value.backupCreated)
      && (run.result.Success? && run.result.value.action == Skipped ==> run.files == files && run.result.value.entriesAdded == 0)
      && (run.result.Success? && run.result.value.action == Updated ==>
            run.result.value.backupCreated && run.result.value.entriesAdded > 0)
      && (run.result.Success? && run.result.value.action in {Skipped, Updated} ==>
            path in files && parse(files[path]).Some? && Truthy(parse(files[path]).value))
      && (path in files && parse(files[path]).Some? && Truthy(parse(files[path]).value) ==>
            var user: McpConfig := parse(files[path]).value.fields;
            var added := AddedNames(Registry(user), Registry(pkg));
            && (run.result.Success? && run.result.value.action == Skipped <==> added == {})
            && (run.result.Success? && run.result.value.action == Updated ==>
                  run.files[path] == serialise(Merged(user, pkg)) && run.result.value.entriesAdded == |added|))
  {
  }

  /** The configuration file is never overwritten before its backup exists,
      unless it parsed to a falsy value; and no file other than the
      configuration and its backup is touched. */
  lemma McpBackupBeforeWrite(files: map<Path, string>, readOnly: set<Path>, path: Path, pkg: McpConfig,
                             parse: string -> Option<Json>, serialise: Config -> string, iso: string)
    requires path in files ==> UserShaped(parse(files[path]))
    ensures var run := McpStep(files, readOnly, path, pkg, parse, serialise, iso);
      var b := BackupPath(path, iso);
      && (path in files && run.files[path] != files[path] ==>
            (b in run.files && run.files[b] == files[path])
            || (parse(files[path]).Some? && !Truthy(parse(files[path]).value)))
      && (run.result.Success? && run.result.value.action == Updated ==> b in run.files && run.files[b] == files[path])
      && (forall q :: q != path && q != b ==> (q in run.files <==> q in files))
      && (forall q :: q in files && q != path && q != b ==> run.files[q] == files[q])
  {
    BackupPathShape(path, iso);
    BackupOutcome(files, readOnly, path, iso);
  }

  /** A failed backup stops the update of a configuration the merge reads:
      no file is written. */
  lemma McpBackupFailureKeepsConfig(files: map<Path, string>, readOnly: set<Path>, path: Path, pkg: McpConfig,
                                    parse: string -> Option<Json>, serialise: Config -> string, iso: string)
    requires path in files && UserShaped(parse(files[path]))
    requires parse(files[path]).Some? && Truthy(parse(files[path]).value)
    requires BackupPath(path, iso) in readOnly
    ensures var run := McpStep(files, readOnly, path, pkg, parse, serialise, iso);
      run.files == files && (run.result.Failure? || run.result.value.action != Updated)
  {
  }

  /** Running the merge again after it succeeded adds nothing, provided the
      configuration it wrote (the package's, or the merged one) parses back
      to itself: the second run is `skipped` and writes nothing. */
  lemma McpRerunSkips(files: map<Path, string>, readOnly: set<Path>, path: Path, pkg: McpConfig,
                      parse: string -> Option<Json>, serialise: Config -> string, iso: string, later: string)
    requires EntriesAreObjects(pkg)
    requires path in files ==> UserShaped(parse(files[path]))
    requires parse(serialise(pkg)) == Some(JObj(pkg))
    requires path in files && parse(files[path]).Some? && Truthy(parse(files[path]).value) ==>
      var user: McpConfig := parse(files[path]).value.fields;
      parse(serialise(Merged(user, pkg))) == Some(JObj(Merged(user, pkg)))
    requires McpStep(files, readOnly, path, pkg, parse, serialise, iso).result.Success?
    ensures var run := McpStep(files, readOnly, path, pkg, parse, serialise, iso);
      && path in run.files && UserShaped(parse(run.files[path]))
      && McpStep(run.files, readOnly, path, pkg, parse, serialise, later) == McpRun(Success(McpSummary(Skipped, 0, false)), run.files)
  {
    var run := McpStep(files, readOnly, path, pkg, parse, serialise, iso);
    BackupPathShape(path, iso);
    EntriesTruthy(pkg);
    var written: McpConfig;
    if run.result.value.action == Skipped {
      assert run.files == files;
      written := parse(files[path]).value.fields;
    } else if run.result.value.action == Created {
      written := pkg;
      assert run.files[path] == serialise(written);
    } else {
      var user: McpConfig := parse(files[path]).value.fields;
      written := Merged(user, pkg);
      MergeConverges(user, pkg);
      assert run.files[path] == serialise(written);
    }
    assert AddedNames(Registry(written), Registry(pkg)) == {};
    SkipsWhenNothingToAdd(run.files, readOnly, path, pkg, parse, serialise, later, written);
  }

  /** A configuration that parses to one holding every package server is
      left alone. */
  lemma SkipsWhenNothingToAdd(files: map<Path, string>, readOnly: set<Path>, path: Path, pkg: McpConfig,
                              parse: string -> Option<Json>, serialise: Config -> string, iso: string, c: McpConfig)
    requires path in files && parse(files[path]) == Some(JObj(c))
    requires AddedNames(Registry(c), Registry(pkg)) == {}
    ensures UserShaped(parse(files[path]))
    ensures McpStep(files, readOnly, path, pkg, parse, serialise, iso) == McpRun(Success(McpSummary(Skipped, 0, false)), files)
  {
  }
}
