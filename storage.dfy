/**
 * The language file (LangFile): one YAML document per active language, kept
 * in memory as a map from module section to key to value. `load` lays the
 * values found in the file over the in-memory definitions; `save` copies
 * every in-memory definition into its section and writes the document back.
 *
 * The file system and the YAML library are not modelled: each call receives
 * what they answered (a Probe per path, the parsed document or None, whether
 * the write succeeded).
 */
module Storage {
  import opened Wrappers
  import opened Text
  import opened Definitions

  type Section = map<string, string>
  type Document = map<string, Section>

  /**
   * What a path looked like to mkdirs/createNewFile: whether it existed
   * before the call, and whether the call created it.
   */
  datatype Probe = Probe(existed: bool, created: bool)

  /** File.mkdirs() (and createNewFile()) answer true only when they created the path. */
  function CreateResult(p: Probe): bool {
    !p.existed && p.created
  }

  /** Whether the path exists after the call. */
  function ExistsAfter(p: Probe): bool {
    p.existed || p.created
  }

  /** The answers of the file system and the YAML parser during one `load`. */
  datatype LoadIo = LoadIo(dir: Probe, file: Probe, parsed: Option<Document>)

  /** The answers of the file system and the YAML writer during one `save`. */
  datatype SaveIo = SaveIo(dir: Probe, file: Probe, written: bool)

  /** The file of a language: its name followed by ".yml". */
  function FileName(language: string): string {
    language + ".yml"
  }

  /** Two file names match ignoring case exactly when their languages do. */
  lemma FileNameIgnoringCase(a: string, b: string)
    ensures EqualsIgnoreCase(FileName(a), FileName(b)) <==> EqualsIgnoreCase(a, b)
  {
    EqualsIgnoreCaseIffLowerEqual(FileName(a), FileName(b));
    EqualsIgnoreCaseIffLowerEqual(a, b);
    ToLowerAppend(a, ".yml");
    ToLowerAppend(b, ".yml");
    var la, lb := ToLower(a), ToLower(b);
    if ToLower(FileName(a)) == ToLower(FileName(b)) {
      assert |la| == |lb|;
      assert la == (la + ToLower(".yml"))[..|la|] == (lb + ToLower(".yml"))[..|lb|] == lb;
    }
  }

  /**
   * The file `ensureFile` settles on: the one resolved earlier when its name
   * matches the language's file name ignoring case, else a new one.
   */
  function ResolveFile(current: Option<string>, language: string): string {
    if current.Some? && EqualsIgnoreCase(current.value, FileName(language)) then current.value
    else FileName(language)
  }

  /**
   * With the file of language `previous` resolved, a switch to `language`
   * keeps that file exactly when the two languages are equal ignoring case.
   */
  lemma ResolveFileOnSwitch(previous: string, language: string)
    ensures ResolveFile(Some(FileName(previous)), language) == FileName(previous)
            <==> EqualsIgnoreCase(previous, language)
    ensures EqualsIgnoreCase(ResolveFile(Some(FileName(previous)), language), FileName(language))
  {
    FileNameIgnoringCase(previous, language);
    EqualsIgnoreCaseEquivalence(FileName(language), FileName(language), FileName(language));
    EqualsIgnoreCaseEquivalence(previous, previous, previous);
  }

  /** Once resolved for a language, the file is kept by the next ensureFile for the same language. */
  lemma ResolveFileStable(current: Option<string>, language: string)
    ensures ResolveFile(Some(ResolveFile(current, language)), language) == ResolveFile(current, language)
  {
    EqualsIgnoreCaseEquivalence(FileName(language), FileName(language), FileName(language));
  }

  /** ensureDirectory as written: the first call answers what mkdirs() answered. */
  function DirectoryReadyAsWritten(resolved: bool, dir: Probe): bool {
    resolved || CreateResult(dir)
  }

  /** ensureDirectory as intended: the first call answers whether the directory exists. */
  function DirectoryReady(resolved: bool, dir: Probe): bool {
    resolved || ExistsAfter(dir)
  }

  /** As written, a `lang` directory left by an earlier run makes the first call fail. */
  lemma DirectoryReadyAsWrittenRejectsExisting(dir: Probe)
    ensures dir.existed ==> ExistsAfter(dir) && !DirectoryReadyAsWritten(false, dir)
  {
  }

  /**
   * As intended, the first call succeeds exactly when the directory exists
   * afterwards, and agrees with the code as written whenever the directory
   * was not there before.
   */
  lemma DirectoryReadyMeansExists(dir: Probe)
    ensures DirectoryReady(false, dir) <==> ExistsAfter(dir)
    ensures !dir.existed ==> DirectoryReady(false, dir) == DirectoryReadyAsWritten(false, dir)
    ensures DirectoryReady(true, dir) && DirectoryReadyAsWritten(true, dir)
  {
  }

  /** Whether `load` gets past the directory, the file and the parser. */
  function LoadSucceeds(resolved: bool, io: LoadIo): bool {
    DirectoryReady(resolved, io.dir) && ExistsAfter(io.file) && io.parsed.Some?
  }

  /** Whether `load` as written, with ensureDirectory answering mkdirs(), gets past the directory, the file and the parser. */
  function LoadSucceedsAsWritten(resolved: bool, io: LoadIo): bool {
    DirectoryReadyAsWritten(resolved, io.dir) && ExistsAfter(io.file) && io.parsed.Some?
  }

  /**
   * The consequence for `load`: as written, the first load of a controller
   * fails whenever the `lang` directory already existed, even when the file
   * exists and parses; the corrected load then succeeds. When the directory
   * was absent, or once it is resolved, the two agree.
   */
  lemma FirstLoadAsWritten(io: LoadIo)
    ensures io.dir.existed ==> !LoadSucceedsAsWritten(false, io)
    ensures io.dir.existed ==> LoadSucceeds(false, io) == (ExistsAfter(io.file) && io.parsed.Some?)
    ensures !io.dir.existed ==> LoadSucceedsAsWritten(false, io) == LoadSucceeds(false, io)
    ensures LoadSucceedsAsWritten(true, io) == LoadSucceeds(true, io)
  {
  }

  /** Whether `save` gets past the directory and the file to the document. */
  function SaveReachesDocument(resolved: bool, io: SaveIo): bool {
    DirectoryReady(resolved, io.dir) && ExistsAfter(io.file)
  }

  /** The section of a module, or an empty one (createSection) when there is none. */
  function SectionOf(doc: Document, name: string): Section {
    if name in doc then doc[name] else map[]
  }

  /** section.getString(key, default). */
  function GetString(section: Section, key: string, default: string): string {
    if key in section then section[key] else default
  }

  /** A table after `loadDefinitions`: every key it had, with the section's value where there is one. */
  function Merged(defs: Section, section: Section): Section {
    map k | k in defs :: GetString(section, k, defs[k])
  }

  /** A section after `writeDefinitions`: every definition of the table set into it. */
  function Written(section: Section, defs: Section): Section {
    section + defs
  }

  /** Loading never adds or drops a key; on-disk values win, other keys keep their value. */
  lemma MergedKeepsKeys(defs: Section, section: Section, k: string)
    ensures Merged(defs, section).Keys == defs.Keys
    ensures k in defs && k in section ==> Merged(defs, section)[k] == section[k]
    ensures k in defs && k !in section ==> Merged(defs, section)[k] == defs[k]
  {
  }

  /** Round trip: loading the section that saving produced gives the table back unchanged. */
  lemma LoadAfterWrite(defs: Section, section: Section)
    ensures Merged(defs, Written(section, defs)) == defs
  {
  }

  /** Loading the same section twice is loading it once. */
  lemma LoadIdempotent(defs: Section, section: Section)
    ensures Merged(Merged(defs, section), section) == Merged(defs, section)
  {
  }

  /**
   * Saving right after loading never changes a value the section already
   * had: it only adds the keys the section lacked, with their in-memory value.
   */
  lemma WriteAfterLoad(defs: Section, section: Section)
    ensures Written(section, Merged(defs, section)).Keys == section.Keys + defs.Keys
    ensures forall k :: k in section ==> Written(section, Merged(defs, section))[k] == section[k]
    ensures forall k :: k in defs && k !in section ==> Written(section, Merged(defs, section))[k] == defs[k]
  {
  }

  /** The section names of a set of tables. */
  function Names(tables: set<LangDefinitions>): set<string> {
    set t | t in tables :: t.name
  }

  /** No two tables share a section name. */
  predicate DistinctNames(tables: set<LangDefinitions>) {
    forall t, u :: t in tables && u in tables && t.name == u.name ==> t == u
  }

  /** `after` is `before` with an empty section created for every name that had none. */
  ghost predicate SectionsCreated(before: Document, after: Document, names: set<string>) {
    (forall n :: n in after <==> n in before || n in names) &&
    (forall n :: n in after ==> after[n] == SectionOf(before, n))
  }

  /** Taking one more table out of `remaining` adds its name to the names done. */
  lemma NamesGrow(tables: set<LangDefinitions>, remaining: set<LangDefinitions>, t: LangDefinitions)
    requires t in remaining && remaining <= tables
    ensures Names(tables - (remaining - {t})) == Names(tables - remaining) + {t.name}
  {
    assert tables - (remaining - {t}) == (tables - remaining) + {t};
  }

  /** One round of the outer loop of writeDefinitions keeps its invariant. */
  lemma WrittenStep(before: Document, doc: Document, tables: set<LangDefinitions>,
                    remaining: set<LangDefinitions>, t: LangDefinitions, section: Section)
    requires t in remaining && remaining <= tables && DistinctNames(tables)
    requires section == Written(SectionOf(before, t.name), t.definitions)
    requires forall n :: n in doc <==> n in before || n in Names(tables - remaining)
    requires forall u :: u in tables - remaining ==> u.name in doc && doc[u.name] == Written(SectionOf(before, u.name), u.definitions)
    requires forall n :: n in before && n !in Names(tables - remaining) ==> doc[n] == before[n]
    ensures forall n :: n in doc[t.name := section] <==> n in before || n in Names(tables - (remaining - {t}))
    ensures forall u :: u in tables - (remaining - {t}) ==>
              u.name in doc[t.name := section] && doc[t.name := section][u.name] == Written(SectionOf(before, u.name), u.definitions)
    ensures forall n :: n in before && n !in Names(tables - (remaining - {t})) ==> doc[t.name := section][n] == before[n]
  {
    NamesGrow(tables, remaining, t);
  }

  /**
   * The inner loop of loadDefinitions: each key of a snapshot of the table
   * is defined again with the section's value for it, if any.
   */
  method MergeSection(t: LangDefinitions, section: Section)
    modifies t
    ensures t.definitions == Merged(old(t.definitions), section)
  {
    var snapshot := t.Definitions();
    var pending := snapshot.Keys;
    while pending != {}
      invariant pending <= snapshot.Keys
      invariant t.definitions.Keys == snapshot.Keys
      invariant forall k :: k in snapshot ==>
                  t.definitions[k] == if k in pending then snapshot[k] else GetString(section, k, snapshot[k])
      decreases pending
    {
      var key :| key in pending;
      t.Define(key, GetString(section, key, snapshot[key]));
      pending := pending - {key};
    }
  }

  /**
   * The inner loop of writeDefinitions: section.set(key, value) for every
   * definition of a snapshot of the table.
   */
  method SetAll(section: Section, defs: Section) returns (r: Section)
    ensures r == Written(section, defs)
  {
    r := section;
    var pending := defs.Keys;
    while pending != {}
      invariant pending <= defs.Keys
      invariant r.Keys == section.Keys + (defs.Keys - pending)
      invariant forall k :: k in r ==> r[k] == if k in defs && k !in pending then defs[k] else section[k]
      decreases pending
    {
      var key :| key in pending;
      r := r[key := defs[key]];
      pending := pending - {key};
    }
  }

  class LangFile {
    /** Whether the `lang` directory has been resolved (the field `directory` is set). */
    var directory: bool
    /** The name of the resolved language file (the field `file`), if any. */
    var file: Option<string>
    /** The in-memory YAML document (the field `config`), if created. */
    var config: Option<Document>

    constructor ()
      ensures !directory && file == None && config == None
    {
      directory := false;
      file := None;
      config := None;
    }

    /**
     * ensureDirectory as written: resolves the directory on the first call
     * and answers what mkdirs() answered; later calls answer true.
     */
    method EnsureDirectoryAsWritten(dir: Probe) returns (ok: bool)
      modifies this
      ensures directory && file == old(file) && config == old(config)
      ensures ok == DirectoryReadyAsWritten(old(directory), dir)
    {
      if !directory {
        directory := true;
        return CreateResult(dir);
      }
      return true;
    }

    /**
     * ensureDirectory as intended: resolves the directory on the first call
     * and answers whether it exists; later calls answer true.
     */
    method EnsureDirectory(dir: Probe) returns (ok: bool)
      modifies this
      ensures directory && file == old(file) && config == old(config)
      ensures ok == DirectoryReady(old(directory), dir)
    {
      if !directory {
        directory := true;
        return ExistsAfter(dir);
      }
      return true;
    }

    /**
     * ensureFile: re-resolves the file when none is resolved or its name
     * differs from the language's file name ignoring case, creates it when
     * absent, and answers whether it exists.
     */
    method EnsureFile(language: string, probe: Probe) returns (ok: bool)
      requires directory
      modifies this
      ensures directory && config == old(config)
      ensures file == Some(ResolveFile(old(file), language))
      ensures ok == ExistsAfter(probe)
    {
      if file.None? || !EqualsIgnoreCase(file.value, FileName(language)) {
        file := Some(FileName(language));
      }
      if !probe.existed {
        return probe.created;
      }
      return true;
    }

    /**
     * loadConfig: creates the document when there is none, then reads the
     * file into it; `parsed` is the document the YAML library produced, or
     * None when reading or parsing failed (the document is then left as it was).
     */
    method LoadConfig(parsed: Option<Document>) returns (ok: bool)
      requires file.Some?
      modifies this
      ensures directory == old(directory) && file == old(file)
      ensures ok == parsed.Some?
      ensures config == if ok then parsed else Some(old(config).GetOr(map[]))
    {
      if config.None? {
        config := Some(map[]);
      }
      if parsed.None? {
        return false;
      }
      config := parsed;
      return true;
    }

    /**
     * loadDefinitions: for every table, finds or creates its section and
     * redefines each key the table has with the section's value, if any.
     */
    method LoadDefinitions(tables: set<LangDefinitions>)
      requires config.Some?
      modifies this, tables
      ensures directory == old(directory) && file == old(file)
      ensures config.Some? && SectionsCreated(old(config.value), config.value, Names(tables))
      ensures forall t :: t in tables ==>
                t.definitions == Merged(old(t.definitions), SectionOf(old(config.value), t.name))
    {
      ghost var before := config.value;
      var doc := config.value;
      var remaining := tables;
      while remaining != {}
        invariant remaining <= tables
        invariant config == old(config) && directory == old(directory) && file == old(file)
        invariant SectionsCreated(before, doc, Names(tables - remaining))
        invariant forall t :: t in tables - remaining ==>
                    t.definitions == Merged(old(t.definitions), SectionOf(before, t.name))
        invariant forall t :: t in remaining ==> t.definitions == old(t.definitions)
        decreases remaining
      {
        var t :| t in remaining;
        var section := if t.name in doc then doc[t.name] else map[];
        if t.name !in doc {
          doc := doc[t.name := map[]];
        }
        assert section == SectionOf(before, t.name);
        MergeSection(t, section);
        NamesGrow(tables, remaining, t);
        remaining := remaining - {t};
      }
      assert tables - remaining == tables;
      config := Some(doc);
    }

    /**
     * writeDefinitions: for every table, finds or creates its section and
     * sets every key of the table in it.
     */
    method WriteDefinitions(tables: set<LangDefinitions>)
      requires config.Some? && DistinctNames(tables)
      modifies this
      ensures directory == old(directory) && file == old(file)
      ensures config.Some?
      ensures forall n :: n in config.value <==> n in old(config.value) || n in Names(tables)
      ensures forall t :: t in tables ==>
                t.name in config.value &&
                config.value[t.name] == Written(SectionOf(old(config.value), t.name), t.definitions)
      ensures forall n :: n in old(config.value) && n !in Names(tables) ==> config.value[n] == old(config.value)[n]
    {
      ghost var before := config.value;
      var doc := config.value;
      var remaining := tables;
      while remaining != {}
        invariant remaining <= tables
        invariant directory == old(directory) && file == old(file)
        invariant forall n :: n in doc <==> n in before || n in Names(tables - remaining)
        invariant forall t :: t in tables - remaining ==>
                    doc[t.name] == Written(SectionOf(before, t.name), t.definitions)
        invariant forall n :: n in before && n !in Names(tables - remaining) ==> doc[n] == before[n]
        decreases remaining
      {
        var t :| t in remaining;
        var section := if t.name in doc then doc[t.name] else map[];
        assert section == SectionOf(before, t.name);
        section := SetAll(section, t.Definitions());
        WrittenStep(before, doc, tables, remaining, t, section);
        doc := doc[t.name := section];
        remaining := remaining - {t};
      }
      assert tables - remaining == tables;
      config := Some(doc);
    }

    /**
     * load: ensures the directory and the file, reads the document and, if
     * all three succeeded, lays its values over the tables.
     */
    method Load(language: string, tables: set<LangDefinitions>, io: LoadIo) returns (ok: bool)
      modifies this, tables
      ensures directory
      ensures ok == LoadSucceeds(old(directory), io)
      ensures file == if DirectoryReady(old(directory), io.dir) then Some(ResolveFile(old(file), language)) else old(file)
      ensures ok ==> config.Some? && SectionsCreated(io.parsed.value, config.value, Names(tables))
      ensures ok ==> forall t :: t in tables ==>
                       t.definitions == Merged(old(t.definitions), SectionOf(io.parsed.value, t.name))
      ensures !ok ==> forall t :: t in tables ==> t.definitions == old(t.definitions)
      ensures !ok ==> config == if DirectoryReady(old(directory), io.dir) && ExistsAfter(io.file)
                                then Some(old(config).GetOr(map[])) else old(config)
    {
      var dirOk := EnsureDirectory(io.dir);
      if dirOk {
        var fileOk := EnsureFile(language, io.file);
        if fileOk {
          var configOk := LoadConfig(io.parsed);
          if configOk {
            LoadDefinitions(tables);
            return true;
          }
        }
      }
      return false;
    }

    /**
     * save: ensures the directory and the file, copies the tables into the
     * document and answers whether writing it succeeded. None stands for the
     * NullPointerException writeDefinitions throws when no document was
     * ever created (no earlier `load` reached loadConfig).
     */
    method Save(language: string, tables: set<LangDefinitions>, io: SaveIo) returns (r: Option<bool>)
      requires DistinctNames(tables)
      modifies this
      ensures directory
      ensures file == if DirectoryReady(old(directory), io.dir) then Some(ResolveFile(old(file), language)) else old(file)
      ensures r == if !SaveReachesDocument(old(directory), io) then Some(false)
                   else if old(config).None? then None
                   else Some(io.written)
      ensures !(SaveReachesDocument(old(directory), io) && old(config).Some?) ==> config == old(config)
      ensures SaveReachesDocument(old(directory), io) && old(config).Some? ==>
                config.Some? &&
                (forall n :: n in config.value <==> n in old(config.value) || n in Names(tables)) &&
                (forall t :: t in tables ==>
                   config.value[t.name] == Written(SectionOf(old(config.value), t.name), t.definitions)) &&
                (forall n :: n in old(config.value) && n !in Names(tables) ==> config.value[n] == old(config.value)[n])
    {
      var dirOk := EnsureDirectory(io.dir);
      if dirOk {
        var fileOk := EnsureFile(language, io.file);
        if fileOk {
          if config.None? {
            return None;
          }
          WriteDefinitions(tables);
          // saveConfig: the YAML library writes the document to the file.
          return Some(io.written);
        }
      }
      return Some(false);
    }
  }
}
