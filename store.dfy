/**
 * The playground's file store (class `ReplStore` in src/store.ts): the files
 * of the REPL keyed by name, the active file, the import map kept in
 * `import-map.json`, the pinned versions, and the share-URL form of it all.
 *
 * JSON is abstracted as a `Json` codec of functions, the templates the
 * store seeds files with as `Config` text, and the compiler and reactivity
 * are not part of this model. An operation that throws in JavaScript returns
 * `Threw` here and leaves the state as it was when the exception was raised.
 */
module Store {
  import opened Wrappers
  import opened Unicode
  import opened Encode
  import opened Dependency

  // ------------------------------------------------------------ constants

  const DefaultHtmlFile := "index.html"
  const DefaultMainFile := "PlaygroundMain.vue"
  const DefaultAppFile := "App.vue"
  const ImportMapFile := "import-map.json"

  /**
   * `LIB_INSTALL_FILE`. It is computed when the module loads, while
   * `preferSFC` still holds its initial `true`, so a later switch to HTML
   * mode does not change it.
   */
  const LibInstallFile := "LibInstall.js"

  const ImportMapErrorPrefix := "Syntax error in import-map.json: "

  /** The messages of the TypeErrors the store's property accesses on `undefined` raise. */
  const ReadCodeOfMissing := "Cannot read properties of undefined (reading 'code')"
  const SetCodeOfMissing := "TypeError: Cannot set properties of undefined (setting 'code')"
  const ReadHiddenOfMissing := "TypeError: Cannot read properties of undefined (reading 'hidden')"
  const ReadFilenameOfMissing := "TypeError: Cannot read properties of undefined (reading 'filename')"
  const EntriesOfUndefined := "TypeError: Cannot convert undefined or null to object"

  // ------------------------------------------------------------ data

  /** A file of the REPL: `new File(filename, code, hidden)`. */
  datatype File = File(filename: string, code: string, hidden: bool)

  /** `addFile` takes a file, or a name for a new empty visible file. */
  datatype FileOrFilename = Name(name: string) | Given(file: File)

  /** The pinned versions; "" is the unpinned default. */
  datatype Versions = Versions(vue: string, uiLib: string)

  datatype VersionKey = VueKey | UILibKey

  /**
   * What the store is built with: the mode the page URL selects, the build
   * flag that hides internal files, and the text of the generated files.
   */
  datatype Config = Config(
    preferSfc: bool,                    // `preferSFC.value`: false for a `deps=layui` URL
    uiPackage: string,                  // `UIPackage.value`
    hideInternal: bool,                 // `isHidden`: true outside development builds
    appTemplate: string,                // `defaultAppFileTemplate`
    htmlCode: string,                   // `defaultHTMLFileCode.trim()`
    mainCode: string,                   // `mainCode`
    libInstallCode: string -> string)   // `LibInstallFileCode(version).trim()`

  /**
   * A parsed `import-map.json`: its `imports` member, when present, and the
   * text of its other members (such as `scopes`), which the store passes
   * through untouched.
   */
  datatype ImportMap = ImportMap(imports: Option<map<string, string>>, others: string)

  /** The `{}` that `getImportMap` falls back to: no `imports` at all. */
  const EmptyObject := ImportMap(None, "")

  /** `JSON.parse` and `JSON.stringify` as the store uses them. */
  datatype Json = Json(
    parseImportMap: string -> Result<ImportMap, string>,   // error: the SyntaxError's message
    stringify: ImportMap -> string,                        // `JSON.stringify(map)`
    stringifyPretty: ImportMap -> string,                  // `JSON.stringify(map, null, 2)`
    stringifyFiles: map<string, string> -> string,
    parseFiles: string -> Result<map<string, string>, string>)

  /** Parsing undoes pretty printing, as it does for real JSON. */
  ghost predicate ImportMapCodec(json: Json) {
    forall m :: json.parseImportMap(json.stringifyPretty(m)) == Ok(m)
  }

  /** Parsing undoes printing of a file table, whose JSON text is never empty. */
  ghost predicate FilesCodec(json: Json) {
    forall m :: json.stringifyFiles(m) != "" && json.parseFiles(json.stringifyFiles(m)) == Ok(m)
  }

  /** The outcome of an operation that may be refused, declined or throw. */
  datatype Outcome =
    | Completed
    | Refused(alert: string)   // the `alert` shown for a protected file
    | Declined                 // the user answered no to `confirm`
    | Threw(error: string)

  // ------------------------------------------------------------ specification functions

  /** Every file is stored under its own name. */
  predicate FilesKeyed(files: map<string, File>) {
    forall k :: k in files ==> files[k].filename == k
  }

  /** The files the constructor builds before the import map is added. */
  function Seeded(config: Config, saved: Option<map<string, string>>): map<string, File> {
    var base := match saved
      case Some(m) => map k | k in m :: File(k, m[k], false)
      case None =>
        if config.preferSfc then map[DefaultAppFile := File(DefaultAppFile, config.appTemplate, false)]
        else map[DefaultHtmlFile := File(DefaultHtmlFile, config.htmlCode, false)];
    if config.preferSfc then base[DefaultMainFile := File(DefaultMainFile, config.mainCode, config.hideInternal)]
    else base
  }

  /** The file `initImportMap` creates: `{ "imports": {} }`. */
  function DefaultImportMapFile(json: Json): File {
    File(ImportMapFile, json.stringifyPretty(ImportMap(Some(map[]), "")), false)
  }

  /** The files after `initImportMap`: an existing import map is kept as it is. */
  function WithImportMap(files: map<string, File>, json: Json): (r: map<string, File>)
    ensures ImportMapFile in r
    ensures ImportMapFile in files ==> r == files
    ensures ImportMapFile !in files ==> r == files[ImportMapFile := DefaultImportMapFile(json)]
  {
    if ImportMapFile in files then files else files[ImportMapFile := DefaultImportMapFile(json)]
  }

  /** The file the store starts with as active: `App.vue`, or `index.html` in HTML mode. */
  function EntryFile(config: Config): string {
    if config.preferSfc then DefaultAppFile else DefaultHtmlFile
  }

  /** What `getFiles` returns: the code of every visible file, by name. */
  function Visible(files: map<string, File>): (r: map<string, string>)
    ensures forall k :: k in r <==> k in files && !files[k].hidden
  {
    map k | k in files && !files[k].hidden :: files[k].code
  }

  /** What `JSON.parse(this.state.files['import-map.json'].code)` gives, or the message it throws. */
  function ReadImportMap(files: map<string, File>, json: Json): Result<ImportMap, string> {
    if ImportMapFile in files then json.parseImportMap(files[ImportMapFile].code)
    else Err(ReadCodeOfMissing)
  }

  /** The parsed import map, or the `{}` that `getImportMap` falls back to. */
  function ReadOrEmptyOf(files: map<string, File>, json: Json): ImportMap {
    match ReadImportMap(files, json) case Ok(m) => m case Err(_) => EmptyObject
  }

  /** `errors` after `getImportMap`: replaced by the one message of a failed read, else kept. */
  function ErrorsAfterRead(files: map<string, File>, json: Json, errors: seq<string>): seq<string> {
    match ReadImportMap(files, json)
    case Err(message) => [ImportMapErrorPrefix + message]
    case Ok(_) => errors
  }

  /** The imports with the generated specifiers removed, as `simplifyImportMaps` filters them. */
  function WithoutGenerated(imports: map<string, string>): (r: map<string, string>)
    ensures r.Keys == imports.Keys - GeneratedKeys
    ensures forall k :: k in r ==> r[k] == imports[k]
  {
    map k | k in imports && k !in GeneratedKeys :: imports[k]
  }

  /** The imports after `addDeps`: the old ones overridden by the generated entries. */
  function WithGenerated(imports: Option<map<string, string>>, versions: Versions): map<string, string> {
    (if imports.Some? then imports.value else map[]) + GenImportMap(versions.vue, "")
  }

  /** The file table after a completed `addDeps`: the import map file rewritten with the generated entries. */
  function Regenerated(files: map<string, File>, json: Json, versions: Versions): map<string, File>
    requires ImportMapFile in files
  {
    var importMap := ReadOrEmptyOf(files, json);
    files[ImportMapFile := files[ImportMapFile].(code :=
      json.stringifyPretty(importMap.(imports := Some(WithGenerated(importMap.imports, versions)))))]
  }

  /** The file table after `setUILibVersion` writes the installer for `version`. */
  function Reinstalled(files: map<string, File>, config: Config, version: string): map<string, File>
    requires LibInstallFile in files
  {
    files[LibInstallFile := files[LibInstallFile].(code := config.libInstallCode(version))]
  }

  /** What `simplifyImportMaps` returns, or the message it throws. */
  function Simplified(files: map<string, File>, json: Json): Result<string, string> {
    match ReadImportMap(files, json)
    case Err(_) => Err(EntriesOfUndefined)
    case Ok(m) =>
      match m.imports
      case None => Err(EntriesOfUndefined)
      case Some(imports) => Ok(json.stringify(m.(imports := Some(WithoutGenerated(imports)))))
  }

  /** The table `serialize` prints: the visible files, the import map simplified when that succeeds. */
  function Shared(files: map<string, File>, json: Json): map<string, string> {
    var exported := Visible(files);
    if ImportMapFile in exported && Simplified(files, json).Ok? then exported[ImportMapFile := Simplified(files, json).value]
    else exported
  }

  /** `#${utoa(text)}`: a URL fragment from which `atou` gives the text back. */
  function Hash(text: string): (r: JsString)
    ensures |r| >= 1 && r[0] == 35
    ensures Atou(r[1..]) == Ok(ToJs(text))
  {
    TextRoundTrip(text);
    var r: JsString := [35 as CodeUnit] + Utoa(ToJs(text)).value;
    assert r[1..] == Utoa(ToJs(text)).value;
    r
  }

  /**
   * `JSON.parse(atou(serializedState))` as the constructor reads a shared
   * state: nothing for an empty string, else the saved file table or the
   * error that aborts construction.
   */
  function Restore(serializedState: JsString, json: Json): (r: Result<Option<map<string, string>>, string>)
    ensures serializedState == [] <==> r == Ok(None)
    ensures Atou(serializedState).Err? && serializedState != [] ==> r.Err?
  {
    if serializedState == [] then Ok(None)
    else match Atou(serializedState)
      case Err(URIError) => Err("URIError: URI malformed")
      case Err(InvalidCharacterError) => Err("InvalidCharacterError: The string to be decoded is not correctly encoded.")
      case Ok(text) =>
        var s := FromJs(text).value;
        match json.parseFiles(s)
        case Err(message) => Err(message)
        case Ok(m) => Ok(Some(m))
  }

  // ------------------------------------------------------------ the store

  class ReplStore {
    var files: map<string, File>
    var activeFile: Option<string>
    var mainFile: string
    var errors: seq<string>
    var vueRuntimeURL: string
    var versions: Versions
    const config: Config
    const json: Json

    /** Every file sits under its own name. */
    predicate Valid()
      reads this
    {
      FilesKeyed(files)
    }

    /**
     * The constructor: the saved files (or the default entry file), the
     * hidden main file in SFC mode, and an import map if none was saved. The
     * active file is the entry file, which is undefined when the saved state
     * lacks it.
     */
    constructor(config: Config, json: Json, saved: Option<map<string, string>>, versions: Versions)
      ensures Valid()
      ensures this.config == config && this.json == json && this.versions == versions
      ensures files == WithImportMap(Seeded(config, saved), json)
      ensures activeFile == (if EntryFile(config) in Seeded(config, saved) then Some(EntryFile(config)) else None)
      ensures mainFile == (if config.preferSfc then DefaultMainFile else DefaultHtmlFile)
      ensures errors == [] && vueRuntimeURL == ""
    {
      var seeded: map<string, File> := map[];
      if saved.Some? {
        seeded := LoadSaved(saved.value);
      } else if config.preferSfc {
        seeded := seeded[DefaultAppFile := File(DefaultAppFile, config.appTemplate, false)];
      } else {
        seeded := seeded[DefaultHtmlFile := File(DefaultHtmlFile, config.htmlCode, false)];
      }
      if config.preferSfc {
        seeded := seeded[DefaultMainFile := File(DefaultMainFile, config.mainCode, config.hideInternal)];
      }
      assert seeded == Seeded(config, saved);
      this.config := config;
      this.json := json;
      files := seeded;
      mainFile := if config.preferSfc then DefaultMainFile else DefaultHtmlFile;
      var entry := if config.preferSfc then DefaultAppFile else DefaultHtmlFile;
      activeFile := if entry in seeded then Some(entry) else None;
      errors := [];
      vueRuntimeURL := "";
      this.versions := versions;
      new;
      InitImportMap();
    }

    /** The constructor's loop over the saved table: one visible file per saved name. */
    static method LoadSaved(saved: map<string, string>) returns (seeded: map<string, File>)
      ensures seeded == map k | k in saved :: File(k, saved[k], false)
    {
      seeded := map[];
      var keys := saved.Keys;
      while keys != {}
        invariant keys <= saved.Keys
        invariant seeded == map k | k in saved.Keys - keys :: File(k, saved[k], false)
        decreases |keys|
      {
        var filename :| filename in keys;
        seeded := seeded[filename := File(filename, saved[filename], false)];
        keys := keys - {filename};
      }
    }

    /** `initImportMap`: adds `{ "imports": {} }` when there is no import map, and keeps one that exists. */
    method InitImportMap()
      requires FilesKeyed(files)
      modifies this`files
      ensures FilesKeyed(files)
      ensures files == WithImportMap(old(files), json)
    {
      if ImportMapFile !in files {
        files := files[ImportMapFile := DefaultImportMapFile(json)];
      }
    }

    /**
     * `init`: pins the Vue version, then adds the hidden library installer,
     * generated for the unpinned library version whatever `versions.uiLib`
     * holds.
     */
    method Init() returns (outcome: Outcome)
      requires Valid()
      modifies this`files, this`errors, this`vueRuntimeURL, this`versions
      ensures Valid()
      ensures outcome == (if ImportMapFile in old(files) then Completed else Threw(SetCodeOfMissing))
      ensures versions == old(versions)
      ensures vueRuntimeURL == VueLink(old(versions).vue).runtimeDom
      ensures errors == ErrorsAfterRead(old(files), json, old(errors))
      ensures outcome.Completed? ==>
        files == old(files)[ImportMapFile := old(files)[ImportMapFile].(code := json.stringifyPretty(
          ReadOrEmptyOf(old(files), json).(imports := Some(WithGenerated(ReadOrEmptyOf(old(files), json).imports, old(versions))))))]
          [LibInstallFile := File(LibInstallFile, config.libInstallCode(""), config.hideInternal)]
    {
      outcome := SetVueVersion(versions.vue);
      if outcome.Threw? {
        return;
      }
      files := files[LibInstallFile := File(LibInstallFile, config.libInstallCode(""), config.hideInternal)];
    }

    /** `setActive`: a visible file becomes active, a hidden one is ignored, and a missing one throws. */
    method SetActive(filename: string) returns (outcome: Outcome)
      modifies this`activeFile
      ensures outcome == (if filename in files then Completed else Threw(ReadHiddenOfMissing))
      ensures activeFile == (if filename in files && !files[filename].hidden then Some(filename) else old(activeFile))
    {
      if filename !in files {
        return Threw(ReadHiddenOfMissing);
      }
      var file := files[filename];
      if file.hidden {
        return Completed;
      }
      activeFile := Some(filename);
      return Completed;
    }

    /**
     * `addFile`: stores the file under its name, replacing any file of that
     * name and no other, and makes it active unless it is hidden.
     */
    method AddFile(fileOrFilename: FileOrFilename)
      requires Valid()
      modifies this`files, this`activeFile
      ensures Valid()
      ensures var file := NewFile(fileOrFilename);
        && files == old(files)[file.filename := file]
        && activeFile == (if file.hidden then old(activeFile) else Some(file.filename))
    {
      var file := NewFile(fileOrFilename);
      files := files[file.filename := file];
      var _ := SetActive(file.filename);
    }

    /** The file `addFile` stores: a name gives a new empty visible file. */
    static function NewFile(fileOrFilename: FileOrFilename): File {
      match fileOrFilename
      case Name(n) => File(n, "", false)
      case Given(f) => f
    }

    /** The names `deleteFile` refuses to remove, in either mode. */
    static predicate IsProtected(filename: string) {
      filename == LibInstallFile || filename == DefaultMainFile || filename == DefaultHtmlFile
    }

    /**
     * `deleteFile`, with the user's answer to `confirm` as `confirmed`. A
     * protected file is refused; a declined deletion changes nothing; when
     * the file to delete is active, the entry file is made active first, and
     * deleting the active entry file itself leaves `activeFile` naming a file
     * that no longer exists. An undefined active file, or an entry file that
     * is gone, makes the deletion throw before anything is removed.
     */
    method DeleteFile(filename: string, confirmed: bool) returns (outcome: Outcome)
      requires Valid()
      modifies this`files, this`activeFile
      ensures Valid()
      ensures IsProtected(filename) ==> outcome == Refused("You cannot remove it, because " + config.uiPackage + " requires it.")
      ensures !IsProtected(filename) && !confirmed ==> outcome == Declined
      ensures !IsProtected(filename) && confirmed && old(activeFile).None? ==> outcome == Threw(ReadFilenameOfMissing)
      ensures !IsProtected(filename) && confirmed && old(activeFile) == Some(filename) && EntryFile(config) !in old(files)
        ==> outcome == Threw(ReadHiddenOfMissing)
      ensures outcome.Completed? <==>
        && !IsProtected(filename) && confirmed && old(activeFile).Some?
        && (old(activeFile) == Some(filename) ==> EntryFile(config) in old(files))
      ensures !outcome.Completed? ==> files == old(files) && activeFile == old(activeFile)
      ensures outcome.Completed? ==> files == old(files) - {filename}
      ensures outcome.Completed? ==>
        activeFile == (if old(activeFile) == Some(filename) && !old(files)[EntryFile(config)].hidden
                       then Some(EntryFile(config)) else old(activeFile))
      ensures outcome.Completed? && old(activeFile) == Some(filename) && filename == EntryFile(config)
        ==> activeFile == Some(filename) && filename !in files
    {
      if IsProtected(filename) {
        return Refused("You cannot remove it, because " + config.uiPackage + " requires it.");
      }
      if !confirmed {
        return Declined;
      }
      if activeFile.None? {
        return Threw(ReadFilenameOfMissing);
      }
      if activeFile.value == filename {
        if config.preferSfc {
          outcome := SetActive(DefaultAppFile);
        } else {
          outcome := SetActive(DefaultHtmlFile);
        }
        if outcome.Threw? {
          return;
        }
      }
      files := files - {filename};
      return Completed;
    }

    /** `getFiles`: the code of every visible file, keyed by the file's own name. */
    method GetFiles() returns (exported: map<string, string>)
      requires Valid()
      ensures exported == Visible(files)
    {
      exported := map[];
      var remaining := files.Keys;
      while remaining != {}
        invariant remaining <= files.Keys
        invariant exported == map k | k in files.Keys - remaining && !files[k].hidden :: files[k].code
        decreases |remaining|
      {
        var k :| k in remaining;
        var file := files[k];
        remaining := remaining - {k};
        if file.hidden {
          continue;
        }
        exported := exported[file.filename := file.code];
      }
    }

    /** `getImportMap`: the parsed import map; on failure the one error recorded and `{}` returned. */
    method GetImportMap() returns (importMap: ImportMap)
      requires Valid()
      modifies this`errors
      ensures Valid()
      ensures importMap == ReadOrEmptyOf(files, json)
      ensures errors == ErrorsAfterRead(files, json, old(errors))
      ensures ReadImportMap(files, json).Err? ==> |errors| == 1
    {
      if ImportMapFile !in files {
        errors := [ImportMapErrorPrefix + ReadCodeOfMissing];
        return EmptyObject;
      }
      var parsed := json.parseImportMap(files[ImportMapFile].code);
      match parsed {
        case Ok(m) =>
          return m;
        case Err(message) =>
          errors := [ImportMapErrorPrefix + message];
          return EmptyObject;
      }
    }

    /** `setImportMap`: pretty-prints the map into `import-map.json`; throws when that file is gone. */
    method SetImportMap(importMap: ImportMap) returns (outcome: Outcome)
      requires Valid()
      modifies this`files
      ensures Valid()
      ensures ImportMapFile in old(files) ==>
        && outcome == Completed
        && files == old(files)[ImportMapFile := old(files)[ImportMapFile].(code := json.stringifyPretty(importMap))]
      ensures ImportMapFile !in old(files) ==> outcome == Threw(SetCodeOfMissing) && files == old(files)
    {
      if ImportMapFile !in files {
        return Threw(SetCodeOfMissing);
      }
      files := files[ImportMapFile := files[ImportMapFile].(code := json.stringifyPretty(importMap))];
      return Completed;
    }

    /**
     * `addDeps`: the import map's own entries overridden by the generated
     * ones. The store passes `{vue, UILib}` but the generator reads `vue` and
     * `layuiVue`, so the library entry is never pinned.
     */
    method AddDeps() returns (outcome: Outcome)
      requires Valid()
      modifies this`files, this`errors
      ensures Valid()
      ensures errors == ErrorsAfterRead(old(files), json, old(errors))
      ensures outcome == (if ImportMapFile in old(files) then Completed else Threw(SetCodeOfMissing))
      ensures outcome.Threw? ==> files == old(files)
      ensures outcome.Completed? ==> files == Regenerated(old(files), json, versions)
    {
      var importMap := GetImportMap();
      var imports := (if importMap.imports.Some? then importMap.imports.value else map[]) + GenImportMap(versions.vue, "");
      outcome := SetImportMap(importMap.(imports := Some(imports)));
    }

    /**
     * `simplifyImportMaps`: the import map without the generated specifiers,
     * printed compactly; it throws when the map has no `imports`, including
     * when reading it failed.
     */
    method SimplifyImportMaps() returns (r: Result<string, string>)
      requires Valid()
      modifies this`errors
      ensures Valid()
      ensures r == Simplified(files, json)
      ensures errors == ErrorsAfterRead(files, json, old(errors))
    {
      var importMap := GetImportMap();
      var dependencies := GenImportMap("", "").Keys;
      if importMap.imports.None? {
        return Err(EntriesOfUndefined);
      }
      var imports := importMap.imports.value;
      var kept := map k | k in imports && k !in dependencies :: imports[k];
      assert kept == WithoutGenerated(imports);
      return Ok(json.stringify(importMap.(imports := Some(kept))));
    }

    /**
     * `serialize`: "#" and the Base64 share form of the visible files, the
     * import map simplified. A failed simplification keeps the file's text,
     * though a failed read of the map still records its error.
     */
    method Serialize() returns (r: JsString)
      requires Valid()
      modifies this`errors
      ensures Valid()
      ensures r == Hash(json.stringifyFiles(Shared(files, json)))
      ensures errors == (if ImportMapFile in Visible(files) then ErrorsAfterRead(files, json, old(errors)) else old(errors))
    {
      var exported := GetFiles();
      var data := exported;
      if ImportMapFile in exported {
        var simplified := SimplifyImportMaps();
        if simplified.Ok? {
          data := data[ImportMapFile := simplified.value];
        }
      }
      r := Hash(json.stringifyFiles(data));
    }

    /**
     * `setVueVersion`: the runtime URL and the Vue version follow `version`,
     * then the import map is regenerated. The guard on empty links never
     * fires: both links always hold the CDN root.
     */
    method SetVueVersion(version: string) returns (outcome: Outcome)
      requires Valid()
      modifies this`files, this`errors, this`vueRuntimeURL, this`versions
      ensures Valid()
      ensures vueRuntimeURL == VueLink(version).runtimeDom
      ensures versions == old(versions).(vue := version)
      ensures errors == ErrorsAfterRead(old(files), json, old(errors))
      ensures outcome == (if ImportMapFile in old(files) then Completed else Threw(SetCodeOfMissing))
      ensures outcome.Threw? ==> files == old(files)
      ensures outcome.Completed? ==> files == Regenerated(old(files), json, versions)
    {
      var links := VueLink(version);
      if links.compilerSfc == "" || links.runtimeDom == "" {
        assert false;
      }
      vueRuntimeURL := links.runtimeDom;
      versions := versions.(vue := version);
      outcome := AddDeps();
    }

    /**
     * `setUILibVersion`: regenerates the library installer for `version`,
     * records the version and regenerates the import map; it throws when the
     * installer file does not exist yet (before `init`).
     */
    method SetUILibVersion(version: string) returns (outcome: Outcome)
      requires Valid()
      modifies this`files, this`errors, this`versions
      ensures Valid()
      ensures LibInstallFile !in old(files) ==>
        outcome == Threw(SetCodeOfMissing) && files == old(files) && versions == old(versions) && errors == old(errors)
      ensures LibInstallFile in old(files) ==>
        && versions == old(versions).(uiLib := version)
        && errors == ErrorsAfterRead(old(files), json, old(errors))
        && outcome == (if ImportMapFile in old(files) then Completed else Threw(SetCodeOfMissing))
        && files == (if ImportMapFile in old(files)
                     then Regenerated(Reinstalled(old(files), config, version), json, versions)
                     else Reinstalled(old(files), config, version))
    {
      if LibInstallFile !in files {
        return Threw(SetCodeOfMissing);
      }
      files := files[LibInstallFile := files[LibInstallFile].(code := config.libInstallCode(version))];
      versions := versions.(uiLib := version);
      assert LibInstallFile != ImportMapFile && LibInstallFile[0] != ImportMapFile[0];
      outcome := AddDeps();
    }

    /** `setVersion`: dispatches on the key. */
    method SetVersion(key: VersionKey, version: string) returns (outcome: Outcome)
      requires Valid()
      modifies this`files, this`errors, this`vueRuntimeURL, this`versions
      ensures Valid()
      ensures key == VueKey ==>
        && vueRuntimeURL == VueLink(version).runtimeDom
        && versions == old(versions).(vue := version)
        && errors == ErrorsAfterRead(old(files), json, old(errors))
        && outcome == (if ImportMapFile in old(files) then Completed else Threw(SetCodeOfMissing))
        && files == (if ImportMapFile in old(files) then Regenerated(old(files), json, versions) else old(files))
      ensures key == UILibKey ==> vueRuntimeURL == old(vueRuntimeURL)
      ensures key == UILibKey && LibInstallFile !in old(files) ==>
        outcome == Threw(SetCodeOfMissing) && files == old(files) && versions == old(versions) && errors == old(errors)
      ensures key == UILibKey && LibInstallFile in old(files) ==>
        && versions == old(versions).(uiLib := version)
        && errors == ErrorsAfterRead(old(files), json, old(errors))
        && outcome == (if ImportMapFile in old(files) then Completed else Threw(SetCodeOfMissing))
        && files == (if ImportMapFile in old(files)
                     then Regenerated(Reinstalled(old(files), config, version), json, versions)
                     else Reinstalled(old(files), config, version))
    {
      match key {
        case UILibKey =>
          outcome := SetUILibVersion(version);
        case VueKey =>
          outcome := SetVueVersion(version);
      }
    }
  }

  // ------------------------------------------------------------ lemmas

  /**
   * The constructor always leaves an import map and every file under its own
   * name; an import map in the saved state is kept with its text.
   */
  lemma SeededFilesKeyed(config: Config, json: Json, saved: Option<map<string, string>>)
    ensures FilesKeyed(WithImportMap(Seeded(config, saved), json))
    ensures ImportMapFile in WithImportMap(Seeded(config, saved), json)
    ensures saved.Some? && ImportMapFile in saved.value ==>
      WithImportMap(Seeded(config, saved), json)[ImportMapFile] == File(ImportMapFile, saved.value[ImportMapFile], false)
  {
  }

  /**
   * After `addDeps`, a generated specifier maps to its generated URL, every
   * other specifier keeps its old URL, and the library entry stays unpinned
   * whatever library version is recorded.
   */
  lemma WithGeneratedEntries(imports: Option<map<string, string>>, versions: Versions)
    ensures var r := WithGenerated(imports, versions);
      && r.Keys == GeneratedKeys + (if imports.Some? then imports.value.Keys else {})
      && (forall k :: k in GeneratedKeys ==> r[k] == GenImportMap(versions.vue, "")[k])
      && (forall k :: k in r && k !in GeneratedKeys ==> imports.Some? && r[k] == imports.value[k])
      && r["@layui/layui-vue"] == Link(Jsdelivr, "@layui/layui-vue", "", "/lib/layui-vue.es.min.js")
  {
    GenImportMapEntries(versions.vue, "");
  }

  /** Simplifying after `addDeps` gives back the user's own entries: the two operations cancel. */
  lemma SimplifyUndoesAddDeps(imports: Option<map<string, string>>, versions: Versions)
    ensures WithoutGenerated(WithGenerated(imports, versions)) == WithoutGenerated(if imports.Some? then imports.value else map[])
  {
    WithGeneratedEntries(imports, versions);
  }

  /** Generating is idempotent: a second `addDeps` with the same versions adds nothing new. */
  lemma WithGeneratedIdempotent(imports: Option<map<string, string>>, versions: Versions)
    ensures WithGenerated(Some(WithGenerated(imports, versions)), versions) == WithGenerated(imports, versions)
  {
  }

  /** The import map written by `setImportMap` reads back as the map written, when parsing undoes printing. */
  lemma ReadAfterSetImportMap(files: map<string, File>, json: Json, m: ImportMap)
    requires ImportMapCodec(json)
    requires ImportMapFile in files
    ensures ReadImportMap(files[ImportMapFile := files[ImportMapFile].(code := json.stringifyPretty(m))], json) == Ok(m)
  {
  }

  /**
   * Sharing right after `addDeps` publishes only the user's own imports: the
   * generated entries it added are simplified away again.
   */
  lemma SimplifiedAfterAddDeps(files: map<string, File>, json: Json, versions: Versions)
    requires ImportMapCodec(json)
    requires ImportMapFile in files
    ensures var m := ReadOrEmptyOf(files, json);
      var own := if m.imports.Some? then m.imports.value else map[];
      var written := files[ImportMapFile := files[ImportMapFile].(code :=
        json.stringifyPretty(m.(imports := Some(WithGenerated(m.imports, versions)))))];
      Simplified(written, json) == Ok(json.stringify(m.(imports := Some(WithoutGenerated(own)))))
  {
    var m := ReadOrEmptyOf(files, json);
    var merged := m.(imports := Some(WithGenerated(m.imports, versions)));
    ReadAfterSetImportMap(files, json, merged);
    SimplifyUndoesAddDeps(m.imports, versions);
  }

  /**
   * A shared state restores: the text after "#" decodes, when file tables
   * print and parse faithfully, to the table that was shared.
   */
  lemma SerializeRestores(files: map<string, File>, json: Json)
    requires FilesCodec(json)
    ensures Restore(Hash(json.stringifyFiles(Shared(files, json)))[1..], json) == Ok(Some(Shared(files, json)))
  {
    var text := json.stringifyFiles(Shared(files, json));
    var h := Hash(text);
    FromJsToJs(text);
    assert text != "";
    assert Atou([]) == Ok([]) && DecodeUtf16([]) == Some([]);
    assert ToJs(text) != [];
    assert h[1..] != [];
  }

  /**
   * A store built from a restored table shows every restored file with its
   * code, except the main file, which SFC mode regenerates.
   */
  lemma RestoredFilesVisible(config: Config, json: Json, saved: map<string, string>)
    ensures var v := Visible(WithImportMap(Seeded(config, Some(saved)), json));
      forall k :: k in saved && !(config.preferSfc && k == DefaultMainFile) ==> k in v && v[k] == saved[k]
  {
  }

  /** Sharing never exposes a hidden file, and exposes every visible one but the import map as it is. */
  lemma SharedFiles(files: map<string, File>, json: Json)
    ensures Shared(files, json).Keys == Visible(files).Keys
    ensures forall k :: k in files && !files[k].hidden && k != ImportMapFile ==> Shared(files, json)[k] == files[k].code
  {
  }
}
