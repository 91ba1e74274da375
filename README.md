# Lang: localization tables for a game-server plugin, modelled in Dafny

The `com.jonahseguin.lang` library keeps the chat messages of a plugin.
Each *module* has its own definition table (`LangDefinitions`), which maps
keys to message templates. A template may contain the positional
placeholders `{0}`, `{1}`, .... The controller (`Lang`) holds the active
language and a registry of tables keyed by lower-cased module name.
Plugins register their default messages through a `LangModule` callback.
The language file (`LangFile`) keeps one YAML document per language. On a
switch of language it lays the values found on disk over the in-memory
tables (`load`), then writes every in-memory definition back (`save`).

The model has five modules, one per source file plus two helpers:

- `Wrappers`: `Option`, standing for Java's nullable references.
- `Text`: the `java.lang.String` operations the library relies on:
  `toLowerCase`, `equalsIgnoreCase`, `replace`, and the decimal form
  printed by `String.format("%d")`; plus `contains`, which the code does
  not call and which is used only to state what the diagnostic text for a
  missing key mentions.
- `Definitions` (`LangDefinitions.java`): the class `LangDefinitions` and
  the placeholder substitution that `format` performs.
- `Storage` (`LangFile.java`): the class `LangFile`, over a document of
  type `map<string, map<string, string>>` (section → key → value).
- `Registry` (`Lang.java`, `LangModule.java`): the class `Lang` and the
  datatype `LangModule`.

Some outside collaborators become inputs:

- File-system calls are `Probe(existed, created)` values, one per path.
- The YAML parser's answer is `parsed: Option<Document>`.
- The YAML writer's answer is `written: bool`.
- The chat-colour translation (`coloured`, which calls
  `ChatColor.translateAlternateColorCodes`) is the function parameter
  `colour` of `Format`.
- A `LangModule`'s `define` callback is the sequence of `define(key, value)`
  calls it makes.

`LangFile` reaches its controller's `language()` and `modules()` through a
back pointer. In the model, `Lang` passes them to `LangFile`'s methods as
arguments instead. `name()` of a table is its `const name` field.

What the code does, where one might expect otherwise:

- `define` overwrites unconditionally. It is not define-if-absent.
- There is no `set`, `extend` or `isDefined`.
- Definition keys are case-sensitive. Only module names are lower-cased.
- `register` runs the callback on every call. A second registration
  therefore writes the defaults again over values loaded from disk (see
  `Registry.DefinesLastWins`).
- `save()` called before any document exists throws a
  `NullPointerException` from `checkNotNull(config)`. The model returns
  `None` in that case.

There is one place where the model departs from the code:
`ensureDirectory`. It is modelled in two forms, as written and corrected
(see Findings). `LangFile`'s `load` and `save` use the corrected form, and
so do `Lang`'s `language`, constructor, `load` and `save`, which go through
them. `Storage.FirstLoadAsWritten` states separately what the code as
written does on the first load.

## Model

| member | source | states |
|---|---|---|
| `Definitions.LangDefinitions.GetDefinition` | src/main/java/com/jonahseguin/lang/LangDefinitions.java:23-25 | a stored key yields its template; an absent key yields exactly "Unknown lang definition for module '<name>': '<key>'", which contains both the module name and the key; the table is not changed |
| `Definitions.UnknownDefinitionMentions` | src/main/java/com/jonahseguin/lang/LangDefinitions.java:24 | the diagnostic text for a missing key contains the module name and the key as substrings |
| `Definitions.LangDefinitions.constructor` | src/main/java/com/jonahseguin/lang/LangDefinitions.java:17-20 | a new table carries the given module name and holds no definitions |
| `Definitions.LangDefinitions.Format` | src/main/java/com/jonahseguin/lang/LangDefinitions.java:28-42 | the placeholder loop leaves exactly `Substitute(template, argument texts)` (null argument = "", null or empty array = no step), and the result is that text coloured; it changes nothing |
| `Definitions.SubstituteWithoutPlaceholders` | src/main/java/com/jonahseguin/lang/LangDefinitions.java:32-39 | a template containing no `{i}` for any argument index comes out unchanged |
| `Definitions.SubstituteKeepsUnmatchedToken` | src/main/java/com/jonahseguin/lang/LangDefinitions.java:32-33 | a placeholder `{j}` with j >= number of arguments is never rewritten; the text on either side of it is substituted independently |
| `Definitions.SubstituteGreeting` | src/main/java/com/jonahseguin/lang/LangDefinitions.java:32-39 | "Hello, {0}!" with argument "Alice" becomes "Hello, Alice!" |
| `Definitions.SubstituteRescansArguments` | src/main/java/com/jonahseguin/lang/LangDefinitions.java:32-39 | replacements are sequential: an argument text "{1}" put in by step 0 is filled in by step 1 |
| `Definitions.SubstituteSelf` | src/main/java/com/jonahseguin/lang/LangDefinitions.java:32-39 | filling every placeholder `{i}` with its own text gives the template back |
| `Definitions.SubstituteSingle` | src/main/java/com/jonahseguin/lang/LangDefinitions.java:32-39 | one argument, and one `{0}` between texts without braces: the placeholder is filled with the argument and the texts around it are kept |
| `Definitions.ReplaceAroundToken` | src/main/java/com/jonahseguin/lang/LangDefinitions.java:38 | `replace` of one placeholder leaves every occurrence of a different placeholder in place |
| `Definitions.ReplaceFirstToken` | src/main/java/com/jonahseguin/lang/LangDefinitions.java:38 | `replace` rewrites the first placeholder occurrence after brace-free text into the argument |
| `Definitions.TokenInjective` | src/main/java/com/jonahseguin/lang/LangDefinitions.java:33 | `String.format("{%d}", i)` gives different placeholders for different indices |
| `Definitions.Token` | src/main/java/com/jonahseguin/lang/LangDefinitions.java:33 | `String.format("{%d}", i)` is a placeholder: `{`, then characters that are not braces, then `}` |
| `Definitions.LangDefinitions.Define` | src/main/java/com/jonahseguin/lang/LangDefinitions.java:54-58 | after define(k, v) the table is the old one with k mapped to v: the last write wins and every other key's lookup is unchanged |
| `Definitions.LangDefinitions.Definitions` | src/main/java/com/jonahseguin/lang/LangDefinitions.java:60-63 | the snapshot has exactly the table's keys, each with the table's template, so it answers every lookup as `getDefinition` does at the time of the call; being a value, later defines do not change it |
| `Text.Decimal` | src/main/java/com/jonahseguin/lang/LangDefinitions.java:33 | the `%d` form of an index is non-empty and consists of digits only |
| `Text.DecimalRoundTrip` | src/main/java/com/jonahseguin/lang/LangDefinitions.java:33 | reading the `%d` form of n back as a number gives n |
| `Text.ReplaceAbsent` | src/main/java/com/jonahseguin/lang/LangDefinitions.java:38 | `replace` of a target that does not occur leaves the string unchanged |
| `Text.ReplaceSelf` | src/main/java/com/jonahseguin/lang/LangDefinitions.java:38 | `replace` of a target by itself leaves the string unchanged |
| `Text.EqualsIgnoreCaseIffLowerEqual` | src/main/java/com/jonahseguin/lang/Lang.java:41 | `equalsIgnoreCase` holds exactly when the lower-cased forms are equal, in both directions |
| `Text.EqualsIgnoreCaseEquivalence` | src/main/java/com/jonahseguin/lang/Lang.java:41 | `equalsIgnoreCase` is reflexive, symmetric and transitive |
| `Text.ToLowerAppend` | src/main/java/com/jonahseguin/lang/LangFile.java:37 | lower-casing distributes over concatenation, so it commutes with appending ".yml" |
| `Registry.Lang.constructor` | src/main/java/com/jonahseguin/lang/Lang.java:28-32 | a new controller has no tables and its language is "en", because the field starts unset and the first switch always happens. The file `en.yml` is resolved exactly when the `lang` directory exists afterwards. The document is the parsed file, unchanged because no table is registered yet, when the load succeeds; an empty document when the directory and file exist but parsing fails; and none otherwise. The directory check used is the corrected one (see Findings) |
| `Registry.Lang.SetLanguage` | src/main/java/com/jonahseguin/lang/Lang.java:39-46 | its contract `SetLanguageEffect` gives the whole new state: a name equal to the active language ignoring case changes nothing and answers true; otherwise the language becomes the name, the file is resolved for it once the directory is, and the answer is load() && save(); a failed load leaves every table unchanged, save is not attempted and the document is as load left it; after a good load every table is merged with its section and written back, and the document holds exactly the sections read plus one per table, the others unchanged; load and save use the corrected directory check (see Findings) |
| `Registry.Lang.LoadThenSave` | src/main/java/com/jonahseguin/lang/Lang.java:43 | `load() && save()`: save runs only after a successful load (its result is None otherwise), and then always answers (`Some`), never throws, with the write result; the file is resolved for the active language once the directory is; after a good load the document holds exactly the sections read plus one per table, each table's written back and every other one unchanged; uses the corrected directory check (see Findings) |
| `Registry.Lang.SetLanguageTwice` | src/main/java/com/jonahseguin/lang/Lang.java:41-45 | a second `language(x)` right after the first answers true, and the pair satisfies `SetLanguageEffect` of the first call alone, which fixes language, directory, resolved file, document and every table: the second call changes nothing |
| `Registry.Lang.Language` | src/main/java/com/jonahseguin/lang/Lang.java:48-51 | the active language is the value of the `language` field |
| `Registry.SwitchesIgnoringCase` | src/main/java/com/jonahseguin/lang/Lang.java:41 | once the language is x, asking for x in any case does not switch; whether a switch happens does not depend on the order of the two names |
| `Registry.Lang.Module` | src/main/java/com/jonahseguin/lang/Lang.java:59-61 | names equal after lower-casing reach the same table; a created table is empty and named by the lower-cased name; the registry gains at most that one entry and keeps all the others |
| `Registry.Lang.Register` | src/main/java/com/jonahseguin/lang/Lang.java:67-69 | the callback's defines are applied to the table of the lower-cased module name, which is created when absent; this happens on every call, and other tables are unchanged |
| `Registry.DefinesLastWins` | src/main/java/com/jonahseguin/lang/Lang.java:68 | after the callback, a key holds the value of its last define call, whatever the table held before |
| `Registry.DefinesKeepOthers` | src/main/java/com/jonahseguin/lang/Lang.java:68 | a key the callback never defines keeps its presence and its value |
| `Registry.DefinesOverlay` | src/main/java/com/jonahseguin/lang/Lang.java:68 | the callback's effect is its own definitions laid over the table |
| `Registry.DefinesIdempotent` | src/main/java/com/jonahseguin/lang/Lang.java:67-69 | registering the same module twice in a row leaves the table as registering it once |
| `Registry.Lang.Modules` | src/main/java/com/jonahseguin/lang/Lang.java:77-79 | the snapshot holds exactly the registered tables, each registered under its own name, no two with the same name |
| `Registry.Lang.Load` | src/main/java/com/jonahseguin/lang/Lang.java:81-83 | the file's load over all registered tables and the active language: the answer, the resolved file, the merged tables and the created sections, with the corrected directory check (see Findings) |
| `Registry.Lang.Save` | src/main/java/com/jonahseguin/lang/Lang.java:85-87 | the file's save of all registered tables and the active language: the answer (None for the exception), the resolved file and the written document, with the corrected directory check (see Findings) |
| `Storage.FileNameIgnoringCase` | src/main/java/com/jonahseguin/lang/LangFile.java:23-25 | two file names `<language>.yml` match ignoring case exactly when their languages do |
| `Storage.ResolveFileOnSwitch` | src/main/java/com/jonahseguin/lang/LangFile.java:37-39 | with the previous language's file resolved, ensureFile keeps it exactly when the new language equals the old ignoring case; either way the file matches the new file name ignoring case |
| `Storage.LangFile.EnsureDirectory` | src/main/java/com/jonahseguin/lang/LangFile.java:27-33 | resolves the directory on the first call and answers whether it exists afterwards (corrected; see Findings); later calls answer true and touch nothing |
| `Storage.LangFile.EnsureDirectoryAsWritten` | src/main/java/com/jonahseguin/lang/LangFile.java:27-33 | the code as written: the first call answers what `mkdirs()` answered; later calls answer true |
| `Storage.LangFile.constructor` | src/main/java/com/jonahseguin/lang/LangFile.java:19-21 | a new language file has no directory, no file and no document resolved |
| `Storage.DirectoryReadyAsWrittenRejectsExisting` | src/main/java/com/jonahseguin/lang/LangFile.java:30 | as written, for every probe of a `lang` directory that already exists, the first call answers false although the directory exists |
| `Storage.DirectoryReadyMeansExists` | src/main/java/com/jonahseguin/lang/LangFile.java:27-33 | corrected, the first call answers true exactly when the directory exists; it agrees with the code as written whenever the directory was absent |
| `Storage.FirstLoadAsWritten` | src/main/java/com/jonahseguin/lang/LangFile.java:94-102 | as written, the first load fails whenever the `lang` directory already existed, even when the file exists and parses, where the corrected load succeeds; when the directory was absent, or once it is resolved, the two agree |
| `Storage.LangFile.EnsureFile` | src/main/java/com/jonahseguin/lang/LangFile.java:35-48 | re-resolves the file exactly when none is resolved or its name differs from `<language>.yml` ignoring case; answers whether the file exists after the creation attempt |
| `Storage.LangFile.LoadConfig` | src/main/java/com/jonahseguin/lang/LangFile.java:51-64 | creates the document when absent; on a parse failure answers false and leaves the document as it was |
| `Storage.LangFile.LoadDefinitions` | src/main/java/com/jonahseguin/lang/LangFile.java:78-84 | every table keeps exactly its keys, each with the section's value when the section has it, else its own; a section is created for every table that had none, and nothing else in the document changes |
| `Storage.MergeSection` | src/main/java/com/jonahseguin/lang/LangFile.java:82 | the per-key loop of loadDefinitions leaves the table equal to the merge of its old contents with the section |
| `Storage.MergedKeepsKeys` | src/main/java/com/jonahseguin/lang/LangFile.java:82 | loading never adds or drops a key; on-disk values win; other keys keep their in-memory value |
| `Storage.LangFile.WriteDefinitions` | src/main/java/com/jonahseguin/lang/LangFile.java:86-92 | every table's section becomes its old contents with every definition of the table set in it; other sections are unchanged |
| `Storage.SetAll` | src/main/java/com/jonahseguin/lang/LangFile.java:90 | the per-key loop of writeDefinitions leaves the section equal to its old contents overwritten by the table |
| `Storage.LoadAfterWrite` | src/main/java/com/jonahseguin/lang/LangFile.java:78-92 | round trip: loading the section that saving produced gives the table back unchanged |
| `Storage.LoadIdempotent` | src/main/java/com/jonahseguin/lang/LangFile.java:78-84 | loading the same section twice is loading it once |
| `Storage.WriteAfterLoad` | src/main/java/com/jonahseguin/lang/LangFile.java:78-92 | saving right after loading never changes a value the file already had; it only adds the missing keys with their in-memory default |
| `Storage.LangFile.Load` | src/main/java/com/jonahseguin/lang/LangFile.java:94-102 | answers true exactly when directory (corrected check, see Findings), file and parse all succeed, and then merges every table with its section; otherwise answers false and leaves every table unchanged |
| `Storage.LangFile.Save` | src/main/java/com/jonahseguin/lang/LangFile.java:104-110 | when directory (corrected check, see Findings) and file are ensured: throws (None) if no document exists, else writes every table into the document and answers the write result; otherwise answers false and leaves the document untouched |

## Left out

- File-system calls (`mkdirs`, `createNewFile`, `exists`) are I/O. Their answers are `Probe` inputs, and the model does not keep a disk.
- Logging of failures is I/O and has no effect on state.
- The data directory of the `Plugin` handle, and `plugin()` itself, are host objects.
- YAML parsing and writing are a foreign library. `parsed` is the document the configuration holds after a successful read, so whether `YamlConfiguration.load` clears earlier contents does not matter. A failed read is modelled as leaving the document as it was. Dots in keys or module names, which YAML treats as path separators, are treated as plain characters. A top-level value that is not a section, for which `getConfigurationSection` returns null, cannot occur in a `Document`. Values are strings: `getString(key, def)` of a non-string value (such as the number in `n: 5`) answers its `toString()` ("5"), and a `Document` holds that text directly.
- The file contents after a successful write are not modelled, only the in-memory document and the write result. `Storage.LoadAfterWrite` states the round trip on the document.
- `ChatColor.translateAlternateColorCodes` is a library whose body is not part of this model. `Format` takes it as the function `colour`, and its properties are stated on the text before colouring.
- Thread safety of the two `ConcurrentHashMap`s is a concurrency concern. The maps are sequential here.
- Null checks (`checkNotNull`, `@NotNull`) on arguments. Dafny values are never null. A null `values` array and null arguments of `format` are modelled with `Option`.
- `Definitions.Arguments`: arguments are given by the text their `toString()` returns.
- `Text.ToLower`: covers ASCII letters only, not Java's locale-sensitive Unicode case mapping. `Text.EqualsIgnoreCase` is limited the same way.
- `Text.Decimal`: prints ASCII digits. `String.format` uses the default locale's digits, which differ only in a few locales.
- `Text.Replace`: requires a non-empty target. Every caller passes a placeholder token, so Java's behaviour for an empty target is not modelled.
- `Registry.LangModule`: a `define` callback may only call `define`, in a fixed order. A callback that reads the table or has other effects is not modelled.

- Storage.LangFile.Load: uses the corrected `ensureDirectory`. As written, the first load fails when the `lang` directory already exists; that case is stated by `Storage.FirstLoadAsWritten`, not by this method.
- Storage.LangFile.Save: uses the corrected `ensureDirectory`. As written, a first save with an existing `lang` directory answers false without writing.
- Registry.Lang.SetLanguage: through `load` and `save`, uses the corrected `ensureDirectory`. As written, the first switch of a controller whose `lang` directory exists answers false and loads nothing.
- Registry.Lang.LoadThenSave: uses the corrected `ensureDirectory`, as `Registry.Lang.SetLanguage` does.
- Registry.Lang.constructor: uses the corrected `ensureDirectory`. As written, its `language("en")` fails after a restart, resolving no file and leaving no document until a later load. The model instead resolves `en.yml` and reads the document whenever the directory exists.
- Registry.Lang.Load: uses the corrected `ensureDirectory`, as `Storage.LangFile.Load` does.
- Registry.Lang.Save: uses the corrected `ensureDirectory`, as `Storage.LangFile.Save` does.

## Findings

| source | as written | input that shows it | evidently intended | confidence | as-written member | corrected member |
|---|---|---|---|---|---|---|
| src/main/java/com/jonahseguin/lang/LangFile.java:30 | `ensureDirectory` returns `mkdirs()` on its first call. `mkdirs()` is false when the directory already exists. | A `lang` directory left by an earlier run: `Probe(existed = true, created = false)`. The constructor's `language("en")` then answers false without loading the file, and later `language("en")` calls are no-ops. | Answer true when the directory exists after the call | not executed | `Storage.LangFile.EnsureDirectoryAsWritten`, `Storage.DirectoryReadyAsWrittenRejectsExisting`, `Storage.FirstLoadAsWritten` | `Storage.LangFile.EnsureDirectory`, `Storage.DirectoryReadyMeansExists` |
