# Add-on configuration manager, modelled in Dafny

This project models the configuration manager of the recuvaAccessEnhancement
add-on for NVDA (`addon/shared/rc_addonConfigManager.py`). It covers the
following parts:

- **Versioned configuration documents.** These are the version-probing Base
  schema and the version 1.0 schema. Each has `General.ConfigVersion`, and
  version 1.0 adds the two boolean update options.
- **The validation step.** Every document runs it when it is built: configobj's
  `validate(Validator(), copy=True, preserve_errors=True)`. The error listing
  built from its result is `getValidateErrorsText`.
- **The start-up workflow `loadSettings`:**
  - probe the file in the host's configuration directory (the *target*);
  - remove a file that does not parse or is of another version;
  - reset a same-version file that fails validation to factory defaults, with
    one "configuration reset" warning;
  - merge the add-on's bundled file (the *legacy* file) when a merge is still
    enabled;
  - remove the legacy file;
  - force a save when no target file is left.
- **`mergeSettings`.** This is the whitelist merge: every key of the current
  document takes the legacy value when the legacy file, read with its own
  schema, holds the same section and key. The stored version is the one
  exception.
- **`saveSettings`.** It is gated by secure mode, by `force` or the host's
  "save configuration on exit" preference, and by the write succeeding. It
  re-validates the document before writing it.
- **`toggleGeneralOption`** and its two wrappers. The stored value becomes its
  Python `not` and is then saved.

Files are seen after INI parsing. A file either fails to parse (`Malformed`)
or yields section → key → entry. An entry is a text, or a list of texts: the
documents are parsed with configobj's default `list_values=True`, so an
unquoted `a, b` is a list (only the two configspecs are parsed with
`list_values=False`). Values are taken literally, without configobj's
`%(name)s` interpolation. On such literal values, validation, saving and
reading back are functions of those maps:

- string checks accept text, and neither check accepts a list;
- boolean checks accept configobj's token table, ignoring case;
- a missing key takes its default;
- a key that fails its check keeps its value and is reported as
  `the value "X" is of the wrong type.`;
- undeclared sections and keys are kept.

The host's globals become a `Host` value: secure mode, the save-on-exit
preference, and whether the configuration directory is read-only. The two
files become an abstract file system, and the deferred warning message box
becomes a counter.

Some behaviour of the code is worth knowing. Each point is proved about the
model:

- **Unguarded legacy probe.** A bundled legacy file that does not parse, or
  whose version is a list, makes `loadSettings` raise whenever a merge is
  attempted. The legacy parse in `mergeSettings` is outside any `try`, and the
  registry lookup `version not in self._versionToConfiguration` raises a
  TypeError on a list, which cannot be hashed. The target file the first phase
  removed stays removed, its reset warning stands, and the legacy file is not
  removed. `ConfigManager.LoadSettings` characterises exactly when this
  happens and what is left.
- **Unchecked legacy errors.** `mergeSettings` never looks at the legacy
  document's `errors`. A legacy value that fails its boolean check is copied
  as text and written to the target file. The configuration is reset at the
  next start (`Scenarios.InvalidLegacyValueMerged`,
  `Scenarios.NextStartResets`).
- **Base probe and errors.** Among the files the model represents (sections
  holding keys and values), probing with the Base schema reports errors
  exactly when the stored version is a list, because its only check is a
  string check. Such a target file is removed with one reset warning
  (`Scenarios.ListVersionTargetResets`).
- **Failed checks.** A key that fails its check keeps its stored value, as
  configobj does with `preserve_errors=True`.

Modules:

- `wrappers.dfy`: `Option`, `Result`.
- `schemas.dfy` (`Schemas`): values, the two schemas, the version registry.
- `validation.dfy` (`Validation`): the configobj string and boolean checks,
  validation with `copy=True`, its result, and the properties of validation
  (fill, keep, pass-iff, fixed point, idempotence).
- `documents.dfy` (`Documents`): configuration objects, reading a file,
  defaults, `write()`, the error listing, and the write-then-read round trip.
- `merging.dfy` (`Merging`): `mergeSettings` and the whitelist merge.
- `manager.dfy` (`ConfigManager`): `loadSettings`, `saveSettings`, the
  toggles.
- `scenarios.dfy` (`Scenarios`): concrete start-ups stated as lemmas.

## Model

| member | source | states |
|---|---|---|
| Schemas.SchemaForVersion | addon/shared/rc_addonConfigManager.py:103-106 | a stored version has a registered schema exactly when it is the text "1.0", and that schema is the version 1.0 schema |
| Schemas.DefaultVersionRegistered | addon/shared/rc_addonConfigManager.py:87-90 | the version 1.0 schema's default ConfigVersion is the registered version, whose schema is the version 1.0 schema |
| Schemas.RegisteredSchemasWellFormed | addon/shared/rc_addonConfigManager.py:35-38 | both registered schemas have distinct section and key names and defaults of their keys' kinds |
| Validation.ParseBoolean | addon/shared/rc_addonConfigManager.py:85-86 | the boolean check reads true exactly for the tokens true/on/yes/1 and false exactly for false/off/no/0, ignoring ASCII case |
| Validation.Coerce | addon/shared/rc_addonConfigManager.py:36 | a check's result is always of its kind and a value already of the kind passes unchanged; the string check accepts exactly text; the boolean check accepts a text exactly when it is a boolean token and then yields that token's boolean; neither accepts a list |
| Validation.FindKey | addon/shared/rc_addonConfigManager.py:57 | lookup of a key declaration finds one exactly when the name is declared, and with unique names it is that declaration |
| Validation.Validate | addon/shared/rc_addonConfigManager.py:56-57 | validation yields every section of the input plus every declared one, and one result entry per declared section, naming it |
| Validation.ValidatedSection | addon/shared/rc_addonConfigManager.py:56-57 | each declared section of the result is that section's own validation, and its result entry is that section's report |
| Validation.ValidatedKey | addon/shared/rc_addonConfigManager.py:57 | each declared key of a validated section holds the outcome of that key's own check |
| Validation.ValidateFillsDefaults | addon/shared/rc_addonConfigManager.py:57 | a declared key missing from the input takes its default and does not fail |
| Validation.ValidateChecksPresentKey | addon/shared/rc_addonConfigManager.py:57-59 | a present declared key holds its converted value when the check accepts it; otherwise it keeps the stored value and its section fails with the wrong-type message for that key |
| Validation.UndeclaredKeyKept | addon/shared/rc_addonConfigManager.py:57 | a key a section does not declare keeps its value |
| Validation.ValidateKeepsUndeclared | addon/shared/rc_addonConfigManager.py:57 | a key the schema does not declare is kept with its value by validation |
| Validation.UndeclaredSectionKept | addon/shared/rc_addonConfigManager.py:57 | a section the schema does not declare is kept as it is |
| Validation.ValidateComplete | addon/shared/rc_addonConfigManager.py:57 | after validation every declared section and key is present |
| Validation.CheckKeyPassedIff | addon/shared/rc_addonConfigManager.py:57-58 | a key passes exactly when it is absent or its check accepts its value |
| Validation.SectionReportPassedIff | addon/shared/rc_addonConfigManager.py:57-58 | a section's result is True exactly when every declared key of it is acceptable |
| Validation.ValidatePassedIff | addon/shared/rc_addonConfigManager.py:57-61 | the result is True for every section (errors None) exactly when every declared key of the input is absent or acceptable |
| Validation.ValidatePassedWellTyped | addon/shared/rc_addonConfigManager.py:57-61 | when validation passes, every declared key holds a value of its declared kind |
| Validation.WellTypedIsSettled | addon/shared/rc_addonConfigManager.py:57 | a well-typed document is settled: nothing validation could change |
| Validation.ValidateSectionFixedPoint | addon/shared/rc_addonConfigManager.py:57 | validating a section whose declared keys are all present and settled leaves it unchanged |
| Validation.ValidateFixedPointAt | addon/shared/rc_addonConfigManager.py:57 | on a settled document validation leaves every section unchanged |
| Validation.ValidateSettledFixedPoint | addon/shared/rc_addonConfigManager.py:209-210 | validating a settled document returns it unchanged |
| Validation.ValidateFixedPoint | addon/shared/rc_addonConfigManager.py:209-210 | a well-typed document is unchanged by validation and passes it |
| Validation.ValidateSettles | addon/shared/rc_addonConfigManager.py:57 | every document validation returns is settled |
| Validation.ValidateIdempotent | addon/shared/rc_addonConfigManager.py:57 | validating twice gives the same document as validating once |
| Validation.ValidateKeepsBool | addon/shared/rc_addonConfigManager.py:209-210 | a boolean already stored in a document survives validation, whatever the key's kind |
| Validation.SectionKeepsBool | addon/shared/rc_addonConfigManager.py:209-210 | a boolean stored in a section survives that section's validation |
| Validation.ValidateEmptyPasses | addon/shared/rc_addonConfigManager.py:164-165 | validating no input passes and yields a well-typed document |
| Validation.ValidateEmptyDefaults | addon/shared/rc_addonConfigManager.py:164-165 | validating no input yields exactly the declared sections and keys, each holding its default |
| Documents.GetValidateErrorsText | addon/shared/rc_addonConfigManager.py:63-74 | the loop over the result computes the listing: each failed section's header, then its failed keys, joined by newlines |
| Documents.FailedKeyLines | addon/shared/rc_addonConfigManager.py:69-73 | the inner loop yields one line per failed key, in order |
| Documents.ErrorLinesNonEmpty | addon/shared/rc_addonConfigManager.py:68-73 | every line of the listing is non-empty |
| Documents.ErrorLinesMention | addon/shared/rc_addonConfigManager.py:65-73 | the listing names every failed section and every failed key with its reason |
| Documents.KeyLinesMention | addon/shared/rc_addonConfigManager.py:69-73 | every failed key's line is among a section's key lines |
| Documents.ErrorLinesOfPassed | addon/shared/rc_addonConfigManager.py:66-67 | a result where every section passed gives no lines |
| Documents.ErrorsTextEmptyIff | addon/shared/rc_addonConfigManager.py:58-74 | the listing is empty exactly when every section passed |
| Documents.OpenFile | addon/shared/rc_addonConfigManager.py:44-61 | reading a file fails exactly on a parse error; otherwise the document is bound to the file and holds the validated parsed content, complete; its errors are None exactly when every declared key read is acceptable (it is then well typed), and otherwise are the error listing of the validation result, which is non-empty |
| Documents.Defaults | addon/shared/rc_addonConfigManager.py:164-165 | a document built from no input is unbound, has no errors, holds exactly the declared sections and keys, and each holds its default |
| Documents.ParsedWritten | addon/shared/rc_addonConfigManager.py:211 | a text or a list written and parsed back is itself; a boolean comes back as text |
| Documents.CoerceRendered | addon/shared/rc_addonConfigManager.py:211 | a value of a key's kind, written and parsed back, is read by that key's check as the same value |
| Documents.SectionRoundTrip | addon/shared/rc_addonConfigManager.py:209-211 | a well-typed section written out and validated back is restored |
| Documents.KeyRoundTrip | addon/shared/rc_addonConfigManager.py:209-211 | each key of a written section reads back as its own value |
| Documents.WriteThenOpenAt | addon/shared/rc_addonConfigManager.py:209-211 | each section of a canonical document is restored by writing it and reading it back |
| Documents.WriteThenOpen | addon/shared/rc_addonConfigManager.py:44-61 | a canonical document written to a file reads back as the same sections with no errors |
| Documents.WriteThenOpenDoc | addon/shared/rc_addonConfigManager.py:209-211 | writing and reading back a canonical document restores it |
| Documents.WriteThenOpenPasses | addon/shared/rc_addonConfigManager.py:57-61 | a written canonical document passes validation when read back |
| Documents.RenderedAcceptable | addon/shared/rc_addonConfigManager.py:211 | every declared value of a canonical document, as written, is accepted by its check |
| Merging.Merge | addon/shared/rc_addonConfigManager.py:190-195 | the merge keeps the sections and keys of the current document and adds nothing |
| Merging.MergeCharacterised | addon/shared/rc_addonConfigManager.py:190-195 | each key takes the legacy value exactly when the legacy file holds the same section and key and it is not the stored version; otherwise it keeps its value |
| Merging.MergeIdempotent | addon/shared/rc_addonConfigManager.py:190-195 | merging the same legacy document a second time changes nothing |
| Merging.MergeDisjointIsIdentity | addon/shared/rc_addonConfigManager.py:194-195 | a legacy document sharing no key with the current one leaves it unchanged |
| Merging.CopyLegacyValues | addon/shared/rc_addonConfigManager.py:190-195 | the nested loops over sections and keys compute the whitelist merge |
| Merging.MergeSettings | addon/shared/rc_addonConfigManager.py:182-195 | merging raises exactly when the legacy file does not parse (a parse error) or stores its version as a list (the unhashable registry lookup); otherwise it keeps the configuration's schema, file, errors and shape, and an unknown legacy version leaves the configuration unchanged |
| Merging.BaseProbe | addon/shared/rc_addonConfigManager.py:184-185 | probing parsed content with the Base schema reads the stored version entry, or a single space when there is none, and reports errors exactly when that entry is a list |
| Merging.MergeSettingsUnknownVersion | addon/shared/rc_addonConfigManager.py:185-188 | a legacy file whose version is a text other than "1.0" leaves the configuration as it is |
| Merging.MergeSettingsKnownVersion | addon/shared/rc_addonConfigManager.py:189-195 | a version 1.0 legacy file has the values read with its own schema merged in, whether its validation passed or not |
| Merging.MergeKeepsSettled | addon/shared/rc_addonConfigManager.py:190-195 | merging two settled documents of one schema gives a settled document |
| ConfigManager.FactoryDefaults | addon/shared/rc_addonConfigManager.py:164-166 | the factory configuration is bound to the target file, has no errors, and holds exactly ConfigVersion "1.0", AutoUpdateCheck true and UpdateReleaseVersionsToDevVersions false |
| ConfigManager.DefaultValues10 | addon/shared/rc_addonConfigManager.py:83-86 | the version 1.0 defaults hold the General section only, with its three keys and their defaults |
| ConfigManager.SaveSettings | addon/shared/rc_addonConfigManager.py:197-214 | nothing changes in secure mode or when neither force nor the preference asks; otherwise the configuration holds its re-validated sections, and the file gets them exactly when the directory is writable and the document has a file; a settled configuration is not changed |
| ConfigManager.SaveThenOpen | addon/shared/rc_addonConfigManager.py:197-214 | after a save that writes, a canonical configuration (well typed, with no boolean under an undeclared key) reads back as the saved sections with no errors |
| ConfigManager.ProbeTarget | addon/shared/rc_addonConfigManager.py:129-152 | the target is kept (merge off) or removed (merge on) and nothing else changes; one reset warning is issued exactly when the target does not parse or its version is a list; a kept target parsed and cost no warning |
| ConfigManager.ProbeKeepsSameVersion | addon/shared/rc_addonConfigManager.py:137-145 | the target is kept and the merge switched off exactly when it parses and stores version "1.0" |
| ConfigManager.Activate | addon/shared/rc_addonConfigManager.py:154-172 | a kept target that validates becomes the configuration; one that fails is removed and replaced by the factory defaults with one more warning and the merge off; no target gives the factory defaults; the result is always version 1.0, bound to the target and settled |
| ConfigManager.ActivateSameVersion | addon/shared/rc_addonConfigManager.py:154-167 | a same-version target is kept when it validates, and is otherwise removed and replaced by the factory defaults with one warning |
| ConfigManager.OpenTarget | addon/shared/rc_addonConfigManager.py:155-157 | reading the target with the version 1.0 schema succeeds exactly on a parsed file, and reported errors are non-empty text |
| ConfigManager.MergeStep | addon/shared/rc_addonConfigManager.py:173-178 | a merge is attempted exactly when the legacy file exists and the merge is on, and then the configuration and outcome are those of `mergeSettings`; the step raises exactly when that file fails the Base probe, with the merge's error; otherwise the legacy file is removed, and without a merge the configuration is unchanged |
| ConfigManager.MergeStepSettled | addon/shared/rc_addonConfigManager.py:173-178 | the merge step keeps a settled configuration settled |
| ConfigManager.Persist | addon/shared/rc_addonConfigManager.py:179-180 | when no target file is left it is force-saved; a target can be missing afterwards only in secure mode or a read-only directory |
| ConfigManager.PersistFresh | addon/shared/rc_addonConfigManager.py:179-180 | with no target left, the configuration's text is written to it exactly when the host can write |
| ConfigManager.LoadSettings | addon/shared/rc_addonConfigManager.py:126-180 | loading raises exactly when the legacy file exists, fails the Base probe, and the target is not a parsed version 1.0 file; it then raises the parse error or the unhashable-version error, with the target removed, the legacy file still present, and the first phase's reset warning issued |
| ConfigManager.MergeAndPersist | addon/shared/rc_addonConfigManager.py:173-180 | the tail of loading raises exactly when a merge is on and the legacy file fails the Base probe, leaving the files and warnings of the earlier phases; otherwise the legacy file is gone and the configuration is a settled version 1.0 document |
| ConfigManager.LoadSettingsOutcome | addon/shared/rc_addonConfigManager.py:126-180 | after loading, the legacy file is gone, there is at most one warning, the configuration is version 1.0, bound to the target and settled, a merge ran exactly when it was on and a legacy file existed, and a missing target means secure mode or a read-only directory |
| ConfigManager.LoadKeepsValidFile | addon/shared/rc_addonConfigManager.py:137-178 | a valid same-version target becomes the configuration, the legacy file is removed unmerged, nothing is written and no warning is given |
| ConfigManager.LoadResetsInvalidFile | addon/shared/rc_addonConfigManager.py:154-180 | a same-version target that fails validation is replaced by the factory defaults with one warning, no merge, and the defaults are written back when the host can write |
| ConfigManager.LoadSameVersion | addon/shared/rc_addonConfigManager.py:137-145 | with a same-version target, loading continues from the unchanged files with the merge off |
| ConfigManager.KeepMergeStep | addon/shared/rc_addonConfigManager.py:173-180 | with the merge off, the tail of loading only removes the legacy file and persists |
| ConfigManager.LoadOtherVersion | addon/shared/rc_addonConfigManager.py:130-152 | any other target is removed, with one warning exactly when it does not parse or its version is a list, and loading continues with the merge on |
| ConfigManager.LoadFromFactoryDefaults | addon/shared/rc_addonConfigManager.py:130-180 | without a same-version target and with a legacy file that passes the Base probe, loading starts from the factory defaults, merges the legacy file into them, removes both files, writes the result when the host can write, and warns once exactly when the target does not parse or its version is a list |
| ConfigManager.Not | addon/shared/rc_addonConfigManager.py:225 | Python `not` gives a boolean: the negation of a boolean, and true exactly for the empty text or the empty list |
| ConfigManager.SettledAfterBoolUpdate | addon/shared/rc_addonConfigManager.py:225 | storing a boolean into General keeps a settled document settled |
| ConfigManager.ToggleGeneralOption | addon/shared/rc_addonConfigManager.py:222-227 | without toggle nothing changes and the stored value is returned; with toggle the stored value becomes its `not`, is returned, nothing else in a settled configuration changes, and the file is written exactly when a non-forced save writes |
| ConfigManager.ToggleAutoUpdateCheck | addon/shared/rc_addonConfigManager.py:229-230 | toggling the automatic update check returns its `not` (for a boolean, a text and a list), or reads it unchanged without toggle |
| ConfigManager.ToggleUpdateReleaseVersionsToDevVersions | addon/shared/rc_addonConfigManager.py:232-234 | toggling the release-to-dev option returns its `not` (for a boolean, a text and a list), or reads it unchanged without toggle |
| ConfigManager.ToggleSettled | addon/shared/rc_addonConfigManager.py:222-227 | toggling a boolean flips exactly that key, keeps the configuration settled, and writes the flipped sections when a save is allowed |
| ConfigManager.ToggleTwice | addon/shared/rc_addonConfigManager.py:222-227 | toggling a boolean option twice restores the value and the configuration, and the file then holds the original sections or is untouched |
| Scenarios.SerializeGeneral | addon/shared/rc_addonConfigManager.py:211 | a General-only document is written as the text of its three values |
| Scenarios.FactoryDefaultsWritten | addon/shared/rc_addonConfigManager.py:83-86 | the factory defaults are written as ConfigVersion "1.0", AutoUpdateCheck "True", UpdateReleaseVersionsToDevVersions "False" |
| Scenarios.FirstStart | addon/shared/rc_addonConfigManager.py:168-180 | a first start with no file at all writes the factory defaults, with no merge and no warning |
| Scenarios.FirstStartSecure | addon/shared/rc_addonConfigManager.py:199-200 | a first start in secure mode uses the factory defaults and writes nothing |
| Scenarios.ReadUpdateCheck | addon/shared/rc_addonConfigManager.py:83-86 | reading a version 1.0 file with one update option gives that option's checked value and the default for the other |
| Scenarios.FalseToken | addon/shared/rc_addonConfigManager.py:85 | the text "False" reads as the boolean false |
| Scenarios.MaybeIsNoToken | addon/shared/rc_addonConfigManager.py:85 | the text "maybe" is rejected by the boolean check |
| Scenarios.MergeIntoDefaults | addon/shared/rc_addonConfigManager.py:190-195 | merging a version 1.0 file with one update option into the defaults replaces exactly that option |
| Scenarios.MergeGeneral | addon/shared/rc_addonConfigManager.py:190-195 | merging into a General-only document takes both update options from the legacy file and keeps the version |
| Scenarios.MergeLegacyIntoDefaults | addon/shared/rc_addonConfigManager.py:182-195 | `mergeSettings` on the factory defaults with a version 1.0 legacy file gives the merged values |
| Scenarios.LoadWithLegacy | addon/shared/rc_addonConfigManager.py:126-180 | without a usable target, a version 1.0 legacy file's option ends up in the configuration and in the written file |
| Scenarios.UpgradeMergesLegacyValue | addon/shared/rc_addonConfigManager.py:137-180 | a version 0.9 target with a version 1.0 legacy file holding AutoUpdateCheck False ends with AutoUpdateCheck false, saved as "False", with no warning |
| Scenarios.UpgradeLoads | addon/shared/rc_addonConfigManager.py:126-180 | with a version 0.9 target and a version 1.0 legacy file, loading gives the factory defaults merged with the legacy values, writes them, and issues no warning |
| Scenarios.MergedFalse | addon/shared/rc_addonConfigManager.py:190-195 | the merged defaults with "False" hold false and are written as "False" |
| Scenarios.InvalidLegacyValueMerged | addon/shared/rc_addonConfigManager.py:182-195 | a legacy value "maybe" is merged as text: the configuration reports no errors, is not well typed, and the file stores "maybe" |
| Scenarios.MergedMaybe | addon/shared/rc_addonConfigManager.py:190-195 | the merged defaults with "maybe" hold the text and are not well typed |
| Scenarios.NextStartResets | addon/shared/rc_addonConfigManager.py:154-167 | the next start finds that file invalid, replaces it by the factory defaults and warns once |
| Scenarios.MaybeFileRejected | addon/shared/rc_addonConfigManager.py:155-157 | the written file holding "maybe" fails version 1.0 validation |
| Scenarios.ListVersionTargetResets | addon/shared/rc_addonConfigManager.py:129-152 | a target storing its version as a list is removed with one reset warning, and the factory defaults are written |
| Scenarios.ListVersionLegacyRaises | addon/shared/rc_addonConfigManager.py:182-186 | a legacy file storing its version as a list aborts loading with the unhashable-version error after the unparsable target was removed with one warning; the legacy file stays |

## Left out

- INI text: parsing, quoting, encodings and the `\r\n` line ends. A file is modelled after parsing, as `Malformed` or as section → key → text or list.
- The quoting `write()` applies. Every value is assumed to be written so that it parses back as itself; configobj raises on the few texts it cannot quote.
- Lists in the wrong-type message. It shows a list as Python's `repr` with every item in single quotes; items holding quotes or backslashes, which Python quotes differently, are not distinguished.
- The order of the validation result. The model gives its entries in the schema's section order, while configobj orders its result by the document's sections. Both schemas have one section, so the listing is the same.
- Validator checks other than `string` and `boolean`. Neither schema uses them.
- Files whose shape is not section → key → value. The model cannot represent them, and they behave in three different ways:
  - A top-level value named `General`: configobj's result holds an error object where `getValidateErrorsText` expects a section, and the listing raises. Such a file behaves as a `Malformed` one does: a target is removed with one warning, and a legacy file makes the merge raise.
  - A sub-section the schema does not declare: it is carried through unvalidated, and the file is accepted.
  - A sub-section named like a declared key, such as `[[AutoUpdateCheck]]` under `[General]`: the version 1.0 validation raises. For a target this happens at line 156, outside any `try`, so `loadSettings` raises and the target stays. For a legacy file it happens at line 189, so the merge raises.
- Interpolation. configobj reads values through its default `%(name)s` interpolation, substituting the named value or raising when the name is missing. The model reads every value literally. A target whose declared value names a missing option therefore raises at line 156 in the program, where the model resets the file. A `ConfigVersion` naming a missing option makes the probe raise inside its `try`, so the program removes the target with one warning, where the model removes it silently as another version.
- Logging, translation, the manifest lookup and the add-on name. They do not affect the outcome.
- The message box of `warnConfigurationReset`. It is deferred GUI output, so it is modelled as a warning counter.
- A failing `os.remove`. File removal is assumed to succeed.
- A failing write. It is modelled only as a read-only configuration directory.
- The module singleton, `__init__`, `handlePostConfigSave` and `terminate`. They only call `loadSettings` or `saveSettings(True)` and `saveSettings()`.
- The `addonConfig is None` guard in `saveSettings`. The configuration is always set once `loadSettings` has returned.
- ConfigManager.ToggleGeneralOption: requires the option to be present in General. The source raises a KeyError otherwise, and that case is not modelled.
- ConfigManager.ToggleAutoUpdateCheck: states the returned value only. The new state and the save follow from `ToggleGeneralOption`, which it calls.
- ConfigManager.ToggleUpdateReleaseVersionsToDevVersions: states the returned value only, for the same reason.
- Merging.Merge: its own contract gives the shape only. The values are stated by `Merging.MergeCharacterised`.
