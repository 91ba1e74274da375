/**
 * The controller (Lang): the active language and the registry of definition
 * tables, one per lower-cased module name. Switching to a language that
 * differs ignoring case loads that language's file and then saves it.
 */
module Registry {
  import opened Wrappers
  import opened Text
  import opened Definitions
  import opened Storage

  /**
   * A LangModule: the module name it declares (`langModule()`) and what its
   * `define` callback does, given as the define(key, value) calls it makes,
   * in order.
   */
  datatype LangModule = LangModule(langModule: string, defines: seq<(string, string)>)

  /** A table after the define calls of a callback, applied in order. */
  function ApplyDefines(defs: map<string, string>, entries: seq<(string, string)>): map<string, string>
    decreases |entries|
  {
    if entries == [] then defs
    else ApplyDefines(defs, entries[..|entries| - 1])[entries[|entries| - 1].0 := entries[|entries| - 1].1]
  }

  /**
   * The value a key ends with is the one of its last define call, whatever
   * the table held before (a default re-defined over a loaded value wins).
   */
  lemma {:induction false} DefinesLastWins(defs: map<string, string>, entries: seq<(string, string)>, i: nat)
    requires i < |entries|
    requires forall j :: i < j < |entries| ==> entries[j].0 != entries[i].0
    ensures entries[i].0 in ApplyDefines(defs, entries)
    ensures ApplyDefines(defs, entries)[entries[i].0] == entries[i].1
    decreases |entries|
  {
    var n := |entries| - 1;
    if i < n {
      assert forall j :: i < j < n ==> entries[..n][j] == entries[j];
      DefinesLastWins(defs, entries[..n], i);
    }
  }

  /** A key the callback never defines keeps its presence and its value. */
  lemma {:induction false} DefinesKeepOthers(defs: map<string, string>, entries: seq<(string, string)>, k: string)
    requires forall j :: 0 <= j < |entries| ==> entries[j].0 != k
    ensures k in ApplyDefines(defs, entries) <==> k in defs
    ensures k in defs ==> ApplyDefines(defs, entries)[k] == defs[k]
    decreases |entries|
  {
    if entries != [] {
      var n := |entries| - 1;
      assert forall j :: 0 <= j < n ==> entries[..n][j] == entries[j];
      DefinesKeepOthers(defs, entries[..n], k);
    }
  }

  /** The callback's effect is its own definitions laid over the table. */
  lemma {:induction false} DefinesOverlay(defs: map<string, string>, entries: seq<(string, string)>)
    ensures ApplyDefines(defs, entries) == defs + ApplyDefines(map[], entries)
    decreases |entries|
  {
    if entries != [] {
      DefinesOverlay(defs, entries[..|entries| - 1]);
    }
  }

  /** Registering the same callback twice in a row leaves the table as registering it once. */
  lemma DefinesIdempotent(defs: map<string, string>, entries: seq<(string, string)>)
    ensures ApplyDefines(ApplyDefines(defs, entries), entries) == ApplyDefines(defs, entries)
  {
    DefinesOverlay(defs, entries);
    DefinesOverlay(ApplyDefines(defs, entries), entries);
  }

  /** Whether `language(name)` switches: the field is unset or differs from `name` ignoring case. */
  function Switches(current: Option<string>, name: string): bool {
    current.None? || !EqualsIgnoreCase(current.value, name)
  }

  /**
   * Once the language is `name`, asking for `name` again (in any case) does
   * not switch, and whether a switch happens does not depend on the order
   * of the two names.
   */
  lemma SwitchesIgnoringCase(current: string, name: string, other: string)
    ensures !Switches(Some(name), name)
    ensures EqualsIgnoreCase(name, other) ==> !Switches(Some(name), other)
    ensures Switches(Some(current), name) == Switches(Some(name), current)
  {
    EqualsIgnoreCaseEquivalence(name, other, name);
    EqualsIgnoreCaseEquivalence(current, name, current);
    EqualsIgnoreCaseEquivalence(name, current, name);
  }

  class Lang {
    /** The language file of this controller. */
    const file: LangFile
    /** The registry: lower-cased module name to its table. */
    var modules: map<string, LangDefinitions>
    /** The active language; unset (null) only until the constructor's first switch. */
    var language: Option<string>

    /** Every table is registered under its own name, and that name is lower-case. */
    predicate Registered()
      reads this
    {
      forall k :: k in modules ==> modules[k].name == k && ToLower(k) == k
    }

    ghost predicate Valid()
      reads this
    {
      Registered() && language.Some?
    }

    /**
     * Creates the controller with no tables and switches to "en"; since the
     * field starts unset, that switch always loads and saves. With no tables
     * registered, a good load leaves the parsed document exactly as read.
     */
    constructor (lio: LoadIo, sio: SaveIo)
      ensures Valid() && modules == map[] && fresh(file)
      ensures Language() == "en"
      ensures file.directory
      ensures file.file == if ExistsAfter(lio.dir) then Some(FileName("en")) else None
      ensures file.config == if LoadSucceeds(false, lio) then lio.parsed
                             else if ExistsAfter(lio.dir) && ExistsAfter(lio.file) then Some(map[])
                             else None
    {
      file := new LangFile();
      modules := map[];
      language := None;
      new;
      var _ := SetLanguage("en", lio, sio);
      if LoadSucceeds(false, lio) {
        assert Names(modules.Values) == {};
        assert file.config.value.Keys == lio.parsed.value.Keys;
        assert forall n :: n in file.config.value ==> file.config.value[n] == lio.parsed.value[n];
        assert file.config.value == lio.parsed.value;
      }
    }

    /** The active language. */
    function Language(): (r: string)
      reads this
      requires language.Some?
      ensures language == Some(r)
    {
      language.value
    }

    /**
     * What one call language(name) does, between the state before it and the
     * state after it, answering `ok`: when `name` equals the active language
     * ignoring case, nothing changes and the answer is true; otherwise `name`
     * becomes active and the answer is load() && save(). A failed load leaves
     * every table as it was and save is not attempted; after a good load
     * every table is merged with its section and written back into it, and
     * every other section read from the file is kept as it was. Either way
     * the file is resolved for `name` once the directory is.
     */
    twostate predicate SetLanguageEffect(name: string, lio: LoadIo, sio: SaveIo, ok: bool)
      reads this, file, modules.Values
    {
      Valid() && modules == old(modules) &&
      (!Switches(old(language), name) ==>
         ok && language == old(language) && unchanged(file) &&
         forall t :: t in modules.Values ==> unchanged(t)) &&
      (Switches(old(language), name) ==>
         language == Some(name) && file.directory &&
         file.file == (if DirectoryReady(old(file.directory), lio.dir)
                       then Some(ResolveFile(old(file.file), name)) else old(file.file)) &&
         ok == (LoadSucceeds(old(file.directory), lio) && ExistsAfter(sio.file) && sio.written)) &&
      (Switches(old(language), name) && !LoadSucceeds(old(file.directory), lio) ==>
         (forall t :: t in modules.Values ==> t.definitions == old(t.definitions)) &&
         file.config == if DirectoryReady(old(file.directory), lio.dir) && ExistsAfter(lio.file)
                        then Some(old(file.config).GetOr(map[])) else old(file.config)) &&
      (Switches(old(language), name) && LoadSucceeds(old(file.directory), lio) ==>
         file.config.Some? &&
         (forall n :: n in file.config.value <==> n in lio.parsed.value || n in Names(modules.Values)) &&
         (forall n :: n in lio.parsed.value && n !in Names(modules.Values) ==>
            file.config.value[n] == lio.parsed.value[n]) &&
         forall t :: t in modules.Values ==>
           t.definitions == Merged(old(t.definitions), SectionOf(lio.parsed.value, t.name)) &&
           t.name in file.config.value &&
           file.config.value[t.name] ==
             if ExistsAfter(sio.file) then Written(SectionOf(lio.parsed.value, t.name), t.definitions)
             else SectionOf(lio.parsed.value, t.name))
    }

    /** language(name), as SetLanguageEffect describes. */
    method SetLanguage(name: string, lio: LoadIo, sio: SaveIo) returns (ok: bool)
      requires Registered()
      modifies this, file, modules.Values
      ensures SetLanguageEffect(name, lio, sio, ok)
    {
      if language.None? || !EqualsIgnoreCase(language.value, name) {
        language := Some(name);
        ghost var saved;
        ok, saved := LoadThenSave(lio, sio);
        return;
      }
      return true;
    }

    /**
     * The expression `load() && save()`: save runs only when load succeeded,
     * and then always finds a document, so it answers and never throws.
     * `saved` is save's own result when it ran, None when it did not run.
     */
    method LoadThenSave(lio: LoadIo, sio: SaveIo) returns (ok: bool, ghost saved: Option<Option<bool>>)
      requires Valid()
      modifies file, modules.Values
      ensures Valid() && unchanged(this) && file.directory
      ensures ok == (LoadSucceeds(old(file.directory), lio) && ExistsAfter(sio.file) && sio.written)
      ensures file.file == if DirectoryReady(old(file.directory), lio.dir)
                           then Some(ResolveFile(old(file.file), language.value)) else old(file.file)
      ensures !LoadSucceeds(old(file.directory), lio) ==> saved == None
      ensures LoadSucceeds(old(file.directory), lio) ==> saved == Some(Some(ExistsAfter(sio.file) && sio.written))
      ensures !LoadSucceeds(old(file.directory), lio) ==>
                (forall t :: t in modules.Values ==> t.definitions == old(t.definitions)) &&
                file.config == if DirectoryReady(old(file.directory), lio.dir) && ExistsAfter(lio.file)
                               then Some(old(file.config).GetOr(map[])) else old(file.config)
      ensures LoadSucceeds(old(file.directory), lio) ==>
                file.config.Some? &&
                (forall n :: n in file.config.value <==> n in lio.parsed.value || n in Names(modules.Values)) &&
                (forall n :: n in lio.parsed.value && n !in Names(modules.Values) ==>
                   file.config.value[n] == lio.parsed.value[n]) &&
                forall t :: t in modules.Values ==>
                  t.definitions == Merged(old(t.definitions), SectionOf(lio.parsed.value, t.name)) &&
                  t.name in file.config.value &&
                  file.config.value[t.name] ==
                    if ExistsAfter(sio.file) then Written(SectionOf(lio.parsed.value, t.name), t.definitions)
                    else SectionOf(lio.parsed.value, t.name)
    {
      var loaded := Load(lio);
      if loaded {
        ghost var merged := file.config.value;
        assert forall t :: t in modules.Values ==> t in Modules() && t.name in Names(Modules());
        assert forall t :: t in modules.Values ==> SectionOf(merged, t.name) == SectionOf(lio.parsed.value, t.name);
        ResolveFileStable(old(file.file), language.value);
        label loadedState:
        var r := Save(sio);
        saved := Some(r);
        forall t | t in modules.Values
          ensures t.definitions == Merged(old(t.definitions), SectionOf(lio.parsed.value, t.name))
          ensures t.name in file.config.value
          ensures file.config.value[t.name] ==
                    if ExistsAfter(sio.file) then Written(SectionOf(lio.parsed.value, t.name), t.definitions)
                    else SectionOf(lio.parsed.value, t.name)
        {
          assert t.definitions == old@loadedState(t.definitions);
        }
        return r == Some(true), saved;
      }
      return false, None;
    }

    /**
     * Two switches to the same language in a row: the second one answers
     * true and changes nothing, so the pair has exactly the effect of the
     * first call alone.
     */
    method SetLanguageTwice(name: string, lio: LoadIo, sio: SaveIo, lio2: LoadIo, sio2: SaveIo)
      returns (first: bool, second: bool)
      requires Registered()
      modifies this, file, modules.Values
      ensures SetLanguageEffect(name, lio, sio, first)
      ensures second
    {
      first := SetLanguage(name, lio, sio);
      label afterFirst:
      SwitchesIgnoringCase(name, name, name);
      second := SetLanguage(name, lio2, sio2);
      assert unchanged@afterFirst(file);
    }

    /**
     * module(name): the table registered under the lower-cased name, created
     * empty and registered when there is none; nothing else changes.
     */
    method Module(name: string) returns (t: LangDefinitions)
      requires Registered()
      modifies this
      ensures Registered() && language == old(language)
      ensures t.name == ToLower(name)
      ensures modules == old(modules)[ToLower(name) := t]
      ensures ToLower(name) in old(modules) ==> t == old(modules)[ToLower(name)]
      ensures ToLower(name) !in old(modules) ==> fresh(t) && t.definitions == map[]
    {
      var key := ToLower(name);
      if key in modules {
        t := modules[key];
      } else {
        ToLowerIdempotent(name);
        t := new LangDefinitions(key);
        modules := modules[key := t];
      }
    }

    /**
     * register(module): runs the module's define callback on the table of
     * its lower-cased name, creating the table when needed. It runs on every
     * call, so defaults are written again over whatever the table held.
     */
    method Register(m: LangModule)
      requires Registered()
      modifies this, modules.Values
      ensures Registered() && language == old(language)
      ensures ToLower(m.langModule) in modules
      ensures modules == old(modules)[ToLower(m.langModule) := modules[ToLower(m.langModule)]]
      ensures ToLower(m.langModule) in old(modules) ==>
                modules[ToLower(m.langModule)] == old(modules)[ToLower(m.langModule)] &&
                modules[ToLower(m.langModule)].definitions ==
                  ApplyDefines(old(modules[ToLower(m.langModule)].definitions), m.defines)
      ensures ToLower(m.langModule) !in old(modules) ==>
                fresh(modules[ToLower(m.langModule)]) &&
                modules[ToLower(m.langModule)].definitions == ApplyDefines(map[], m.defines)
      ensures forall u :: u in old(modules).Values && u.name != ToLower(m.langModule) ==> unchanged(u)
    {
      var t := Module(m.langModule);
      ghost var start := t.definitions;
      // The callback: module.define(t) performs its define calls on t.
      for i := 0 to |m.defines|
        invariant t.definitions == ApplyDefines(start, m.defines[..i])
        modifies t
      {
        assert m.defines[..i + 1][..i] == m.defines[..i];
        t.Define(m.defines[i].0, m.defines[i].1);
      }
      assert m.defines[..|m.defines|] == m.defines;
    }

    /** modules(): a snapshot of the registered tables, one per name. */
    function Modules(): (r: set<LangDefinitions>)
      reads this
      requires Registered()
      ensures forall t :: t in r ==> t.name in modules && modules[t.name] == t
      ensures forall k :: k in modules ==> modules[k] in r
      ensures DistinctNames(r)
    {
      modules.Values
    }

    /** load(): the language file's load over every registered table. */
    method Load(lio: LoadIo) returns (ok: bool)
      requires Valid()
      modifies file, modules.Values
      ensures Valid() && unchanged(this)
      ensures ok == LoadSucceeds(old(file.directory), lio)
      ensures file.file == if DirectoryReady(old(file.directory), lio.dir)
                           then Some(ResolveFile(old(file.file), language.value)) else old(file.file)
      ensures ok ==> file.config.Some? && SectionsCreated(lio.parsed.value, file.config.value, Names(Modules()))
      ensures ok ==> forall t :: t in modules.Values ==>
                       t.definitions == Merged(old(t.definitions), SectionOf(lio.parsed.value, t.name))
      ensures !ok ==> forall t :: t in modules.Values ==> t.definitions == old(t.definitions)
      ensures !ok ==> file.config == if DirectoryReady(old(file.directory), lio.dir) && ExistsAfter(lio.file)
                                     then Some(old(file.config).GetOr(map[])) else old(file.config)
      ensures file.directory
    {
      ok := file.Load(language.value, Modules(), lio);
    }

    /** save(): the language file's save of every registered table; None is the exception it may throw. */
    method Save(sio: SaveIo) returns (r: Option<bool>)
      requires Valid()
      modifies file
      ensures Valid() && unchanged(this)
      ensures file.file == if DirectoryReady(old(file.directory), sio.dir)
                           then Some(ResolveFile(old(file.file), language.value)) else old(file.file)
      ensures r == if !SaveReachesDocument(old(file.directory), sio) then Some(false)
                   else if old(file.config).None? then None
                   else Some(sio.written)
      ensures SaveReachesDocument(old(file.directory), sio) && old(file.config).Some? ==>
                file.config.Some? &&
                (forall n :: n in file.config.value <==> n in old(file.config.value) || n in Names(Modules())) &&
                (forall t :: t in modules.Values ==>
                   t.name in file.config.value &&
                   file.config.value[t.name] == Written(SectionOf(old(file.config.value), t.name), t.definitions)) &&
                (forall n :: n in old(file.config.value) && n !in Names(Modules()) ==>
                   file.config.value[n] == old(file.config.value)[n])
      ensures !(SaveReachesDocument(old(file.directory), sio) && old(file.config).Some?) ==>
                file.config == old(file.config)
      ensures file.directory
    {
      r := file.Save(language.value, Modules(), sio);
    }
  }
}
