/**
 * The configuration manager (addon/shared/rc_addonConfigManager.py lines
 * 102-234): the start-up decision of `loadSettings`, the gated `saveSettings`
 * and the option toggles. The host's globals become a `Host` value, the two
 * files an abstract file system, and the deferred "configuration reset"
 * message box a counter.
 */
module ConfigManager {
  import opened Wrappers
  import opened Schemas
  import opened Validation
  import opened Documents
  import opened Merging

  /** What the host decides: secure mode, the "save configuration on exit"
      preference, and whether the configuration directory is read-only (a
      write then raises). */
  datatype Host = Host(secure: bool, saveConfigurationOnExit: bool, readOnly: bool)

  /** The manager's configuration object together with the files on disk. */
  datatype ManagerState = ManagerState(config: ConfigDocument, fs: FileSystem)

  /** `AddonConfiguration10(None)` with its file name set to the target path. */
  function FactoryDefaults(): (c: ConfigDocument)
    ensures c.schema == Schema10 && c.filename == Some(Target) && c.errors.None?
    ensures WellTyped(Schema10, c.sections)
    ensures c.sections == map[General := map[
      ConfigVersion := Str("1.0"),
      AutoUpdateCheck := Bool(true),
      UpdateReleaseVersionsToDevVersions := Bool(false)]]
  {
    DefaultValues10();
    GeneralOnly(Defaults(Schema10).sections);
    Defaults(Schema10).(filename := Some(Target))
  }

  /** A document holding exactly the three General keys with these values is the literal map. */
  lemma GeneralOnly(d: Doc)
    requires d.Keys == {General}
    requires d[General].Keys == {ConfigVersion, AutoUpdateCheck, UpdateReleaseVersionsToDevVersions}
    requires d[General][ConfigVersion] == Str("1.0")
    requires d[General][AutoUpdateCheck] == Bool(true)
    requires d[General][UpdateReleaseVersionsToDevVersions] == Bool(false)
    ensures d == map[General := map[
      ConfigVersion := Str("1.0"),
      AutoUpdateCheck := Bool(true),
      UpdateReleaseVersionsToDevVersions := Bool(false)]]
  {
    var general := map[
      ConfigVersion := Str("1.0"),
      AutoUpdateCheck := Bool(true),
      UpdateReleaseVersionsToDevVersions := Bool(false)];
    assert d[General] == general;
  }

  /** The defaults the version 1.0 schema declares, key by key. */
  lemma DefaultValues10()
    ensures WellFormed(Schema10)
    ensures var d := Defaults(Schema10).sections;
      && d.Keys == {General}
      && d[General].Keys == {ConfigVersion, AutoUpdateCheck, UpdateReleaseVersionsToDevVersions}
      && d[General][ConfigVersion] == Str("1.0")
      && d[General][AutoUpdateCheck] == Bool(true)
      && d[General][UpdateReleaseVersionsToDevVersions] == Bool(false)
  {
    RegisteredSchemasWellFormed();
    var d := Defaults(Schema10).sections;
    var spec := Schema10.sections[0];
    assert spec.name == General;
    assert spec.keys[0].name == ConfigVersion && spec.keys[1].name == AutoUpdateCheck && spec.keys[2].name == UpdateReleaseVersionsToDevVersions;
    assert d[spec.name][spec.keys[0].name] == spec.keys[0].default;
    assert d[spec.name][spec.keys[1].name] == spec.keys[1].default;
    assert d[spec.name][spec.keys[2].name] == spec.keys[2].default;
  }

  // ---------------------------------------------------------------------------
  // saveSettings

  /** True iff the host lets a forced save write: not secure, not read-only. */
  predicate CanWrite(host: Host) {
    !host.secure && !host.readOnly
  }

  /** True iff `saveSettings(force)` writes the file: not in secure mode, saving
      asked for (by `force` or by the host preference), the directory writable,
      and the configuration bound to a file. */
  predicate Writes(st: ManagerState, host: Host, force: bool) {
    !host.secure && (force || host.saveConfigurationOnExit) && !host.readOnly && st.config.filename.Some?
  }

  /** `saveSettings`: nothing in secure mode, nothing when neither `force` nor
      the host preference asks for it; otherwise re-validate and write the
      configuration to its file, a failing write being swallowed. */
  function SaveSettings(st: ManagerState, host: Host, force: bool): (r: ManagerState)
    requires WellFormed(st.config.schema)
    ensures host.secure ==> r == st
    ensures !force && !host.saveConfigurationOnExit ==> r == st
    ensures r.config.schema == st.config.schema && r.config.filename == st.config.filename
    ensures r.config.errors == st.config.errors
    ensures !host.secure && (force || host.saveConfigurationOnExit) ==>
      r.config.sections == Validate(st.config.schema, st.config.sections).doc
    ensures Settled(st.config.schema, st.config.sections) ==> r.config == st.config
    ensures Writes(st, host, force) ==> r.fs == st.fs[st.config.filename.value := Ini(Serialize(r.config.sections))]
    ensures !Writes(st, host, force) ==> r.fs == st.fs
  {
    if host.secure then st
    else if !force && !host.saveConfigurationOnExit then st
    else
      ValidateSettledFixedPoint(st.config.schema, st.config.sections);
      var config := st.config.(sections := Validate(st.config.schema, st.config.sections).doc);
      if host.readOnly || config.filename.None? then ManagerState(config, st.fs)
      else ManagerState(config, st.fs[config.filename.value := Ini(Serialize(config.sections))])
  }

  /** What a save writes is read back unchanged and without errors. */
  lemma SaveThenOpen(st: ManagerState, host: Host, force: bool)
    requires WellFormed(st.config.schema)
    requires Canonical(st.config.schema, st.config.sections)
    requires Writes(st, host, force)
    ensures var r := SaveSettings(st, host, force);
      var p := st.config.filename.value;
      && p in r.fs
      && OpenFile(st.config.schema, p, r.fs[p]) == Success(ConfigDocument(st.config.schema, Some(p), st.config.sections, None))
  {
    WellTypedIsSettled(st.config.schema, st.config.sections);
    WriteThenOpen(st.config.schema, st.config.sections, st.config.filename.value);
  }

  // ---------------------------------------------------------------------------
  // loadSettings

  /** The state after the first phase of `loadSettings`. */
  datatype Probe = Probe(fs: FileSystem, doMerge: bool, resetWarnings: nat)

  /** Python truthiness of `errors`: None and the empty listing are false. */
  predicate ReportsErrors(c: ConfigDocument) {
    c.errors.Some? && |c.errors.value| > 0
  }

  /** First phase (lines 129-152): probe an existing target file with the Base
      schema. A file that fails to parse or reports errors (its version is a
      list) is removed with one reset warning; a file of another version is
      removed silently; a file of the current version is kept and the merge is
      switched off. */
  function ProbeTarget(fs: FileSystem): (p: Probe)
    ensures p.fs.Keys <= fs.Keys && (forall q :: q in p.fs ==> p.fs[q] == fs[q])
    ensures Legacy in fs ==> Legacy in p.fs
    ensures p.doMerge ==> p.fs == fs - {Target}
    ensures !p.doMerge ==> p.fs == fs
    ensures p.resetWarnings == (if Target in fs && FailsBaseProbe(fs[Target]) then 1 else 0)
    ensures Target in p.fs <==> !p.doMerge
    ensures Target in p.fs ==> p.resetWarnings == 0 && p.fs[Target].Ini?
  {
    RegisteredSchemasWellFormed();
    if Target !in fs then Probe(fs, true, 0)
    else if fs[Target].Malformed? then Probe(fs - {Target}, true, 1)
    else
      BaseProbe(Target, fs[Target].raw);
      var base := OpenFile(BaseSchema, Target, fs[Target]).value;
      if ReportsErrors(base) then Probe(fs - {Target}, true, 1)
      else if StoredVersion(base) != Str(CurrentVersion) then Probe(fs - {Target}, true, 0)
      else Probe(fs, false, 0)
  }

  /** Second phase (lines 154-172): a surviving target file is opened with the
      current schema; if it reports errors it is removed, one reset warning is
      issued and the configuration falls back to the factory defaults with the
      merge switched off. Without a target file the factory defaults are used.
      The first phase keeps only a file that parses, so this open cannot raise. */
  function Activate(p: Probe): (r: (ConfigDocument, Probe))
    requires Target in p.fs <==> !p.doMerge
    requires Target in p.fs ==> p.fs[Target].Ini?
    ensures r.0.schema == Schema10 && r.0.filename == Some(Target) && Settled(Schema10, r.0.sections)
    ensures Target !in p.fs ==> r == (FactoryDefaults(), p)
    ensures Target in p.fs && OpenTarget(p.fs[Target]).value.errors.None? ==>
      r == (OpenTarget(p.fs[Target]).value, p)
    ensures Target in p.fs && OpenTarget(p.fs[Target]).value.errors.Some? ==>
      r == (FactoryDefaults(), Probe(p.fs - {Target}, false, p.resetWarnings + 1))
  {
    RegisteredSchemasWellFormed();
    WellTypedIsSettled(Schema10, FactoryDefaults().sections);
    if Target in p.fs then
      var config := OpenTarget(p.fs[Target]).value;
      ValidateSettles(Schema10, Lift(p.fs[Target].raw));
      if ReportsErrors(config) then (FactoryDefaults(), Probe(p.fs - {Target}, false, p.resetWarnings + 1))
      else (config, p)
    else (FactoryDefaults(), p)
  }

  /** The target file opened with the current schema. */
  function OpenTarget(content: FileContent): (r: Result<ConfigDocument, Error>)
    ensures r.Success? <==> content.Ini?
    ensures r.Success? ==> r.value.errors.Some? ==> |r.value.errors.value| > 0
  {
    RegisteredSchemasWellFormed();
    OpenFile(Schema10, Target, content)
  }

  /** Third phase (lines 174-178): when the bundled legacy file exists it is
      merged if the merge is still on, and removed unless the merge raised. */
  function MergeStep(config: ConfigDocument, p: Probe): (r: Result<(ConfigDocument, FileSystem, Option<MergeOutcome>), Error>)
    ensures r.Failure? <==> Legacy in p.fs && p.doMerge && FailsBaseProbe(p.fs[Legacy])
    ensures r.Failure? ==> r.error == MergeSettings(config, p.fs[Legacy]).error
    ensures r.Success? ==>
      var (merged, fs, outcome) := r.value;
      && Legacy !in fs
      && fs == p.fs - {Legacy}
      && (outcome.Some? <==> Legacy in p.fs && p.doMerge)
      && (outcome.None? ==> merged == config)
      && merged.schema == config.schema && merged.filename == config.filename && merged.errors == config.errors
    ensures r.Success? && r.value.2.Some? ==>
      (r.value.0, r.value.2.value) == MergeSettings(config, p.fs[Legacy]).value
  {
    if Legacy in p.fs then
      if p.doMerge then
        match MergeSettings(config, p.fs[Legacy])
        case Failure(e) => Failure(e)
        case Success((merged, outcome)) => Success((merged, p.fs - {Legacy}, Some(outcome)))
      else Success((config, p.fs - {Legacy}, None))
    else Success((config, p.fs, None))
  }

  /** What `loadSettings` leaves behind: the manager's state, the final value of
      `doMerge`, whether `mergeSettings` ran (and how it ended), and the number
      of reset warnings issued. */
  datatype Loaded = Loaded(state: ManagerState, doMerge: bool, merge: Option<MergeOutcome>, resetWarnings: nat)

  /** True iff the target file exists, parses and stores the current version. */
  predicate SameVersionFile(fs: FileSystem) {
    Target in fs && fs[Target].Ini? && RawVersion(fs[Target].raw) == Text(CurrentVersion)
  }

  /** How a raising `loadSettings` leaves things: the exception, the files as
      the first phase left them (the legacy file is still there), and the reset
      warnings already issued. */
  datatype Aborted = Aborted(error: Error, fs: FileSystem, resetWarnings: nat)

  /** Last step (lines 179-180): a forced save when no target file exists. */
  function Persist(st: ManagerState, host: Host): (r: ManagerState)
    requires st.config.schema == Schema10 && Settled(Schema10, st.config.sections)
    requires st.config.filename == Some(Target)
    ensures r.config == st.config
    ensures Target in st.fs ==> r.fs == st.fs
    ensures Target !in st.fs ==> r.fs == SaveSettings(st, host, true).fs
    ensures Target !in r.fs ==> host.secure || host.readOnly
    ensures Legacy in r.fs <==> Legacy in st.fs
  {
    RegisteredSchemasWellFormed();
    if Target !in st.fs then SaveSettings(st, host, true) else st
  }

  /** `loadSettings`: the three phases, then a forced save when no target file
      exists any more. It raises only when the merge has to read a bundled
      legacy file that does not parse or whose version is a list; the first
      phase's removal of the target file and its reset warning stand. */
  function LoadSettings(fs: FileSystem, host: Host): (r: Result<Loaded, Aborted>)
    ensures r.Failure? <==> Legacy in fs && !SameVersionFile(fs) && FailsBaseProbe(fs[Legacy])
    ensures r.Failure? ==>
      && r.error.error == (if fs[Legacy].Malformed? then ParseError(Legacy) else UnhashableVersion(Legacy))
      && r.error.fs == fs - {Target}
      && Target !in r.error.fs && Legacy in r.error.fs
      && r.error.resetWarnings == (if Target in fs && FailsBaseProbe(fs[Target]) then 1 else 0)
  {
    ProbeKeepsSameVersion(fs);
    var (config, q) := Activate(ProbeTarget(fs));
    MergeAndPersist(config, q, host)
  }

  /** The merge step and the final save of `loadSettings`. A raising merge
      ends the load with the files and warnings as the earlier phases left
      them; otherwise the legacy file is gone and the warnings are those of the
      earlier phases. */
  function MergeAndPersist(config: ConfigDocument, q: Probe, host: Host): (r: Result<Loaded, Aborted>)
    requires config.schema == Schema10 && Settled(Schema10, config.sections) && config.filename == Some(Target)
    ensures r.Failure? <==> Legacy in q.fs && q.doMerge && FailsBaseProbe(q.fs[Legacy])
    ensures r.Failure? ==> r.error.fs == q.fs && r.error.resetWarnings == q.resetWarnings
    ensures r.Success? ==>
      && Legacy !in r.value.state.fs
      && r.value.doMerge == q.doMerge
      && r.value.resetWarnings == q.resetWarnings
      && r.value.state.config.schema == Schema10
      && Settled(Schema10, r.value.state.config.sections)
  {
    match MergeStep(config, q)
    case Failure(e) => Failure(Aborted(e, q.fs, q.resetWarnings))
    case Success((merged, fs', outcome)) =>
      MergeStepSettled(config, q);
      Success(Loaded(Persist(ManagerState(merged, fs'), host), q.doMerge, outcome, q.resetWarnings))
  }

  /** After a successful start the bundled legacy file is gone, at most one
      reset warning was issued, the configuration is a settled version 1.0
      document bound to the target file, `mergeSettings` ran exactly when the
      merge was on and a legacy file existed, and the target file exists
      unless saving was impossible. */
  lemma LoadSettingsOutcome(fs: FileSystem, host: Host)
    requires LoadSettings(fs, host).Success?
    ensures var l := LoadSettings(fs, host).value;
      && Legacy !in l.state.fs
      && l.resetWarnings <= 1
      && l.state.config.schema == Schema10
      && l.state.config.filename == Some(Target)
      && Settled(Schema10, l.state.config.sections)
      && (l.merge.Some? <==> l.doMerge && Legacy in fs)
      && (Target !in l.state.fs ==> host.secure || host.readOnly)
  {
    var p := ProbeTarget(fs);
    var (config, q) := Activate(p);
    var m := MergeStep(config, q);
    assert m.Success?;
    MergeStepSettled(config, q);
    var st := ManagerState(m.value.0, m.value.1);
    assert LoadSettings(fs, host).value == Loaded(Persist(st, host), q.doMerge, m.value.2, q.resetWarnings);
  }

  /** The forced save at the end of `loadSettings` when no target file is left:
      the file holds the configuration afterwards unless the host forbids writing. */
  lemma PersistFresh(config: ConfigDocument, rest: FileSystem, host: Host)
    requires config.schema == Schema10 && Settled(Schema10, config.sections) && config.filename == Some(Target)
    requires Target !in rest
    ensures Persist(ManagerState(config, rest), host) ==
      ManagerState(config, if CanWrite(host) then rest[Target := Ini(Serialize(config.sections))] else rest)
  {
    RegisteredSchemasWellFormed();
  }

  /** A parsable target file of the current version that validates is used as
      it is: no reset warning, no merge, and only the legacy file is removed. */
  lemma LoadKeepsValidFile(fs: FileSystem, host: Host)
    requires SameVersionFile(fs)
    requires OpenTarget(fs[Target]).value.errors.None?
    ensures LoadSettings(fs, host) == Success(Loaded(ManagerState(OpenTarget(fs[Target]).value, fs - {Legacy}), false, None, 0))
  {
    var p := Probe(fs, false, 0);
    LoadSameVersion(fs, host);
    ActivateSameVersion(fs, p);
    KeepMergeStep(OpenTarget(fs[Target]).value, p);
  }

  /** A parsable target file of the current version that fails validation is
      removed with one reset warning; the factory defaults are used without a
      merge and saved, forced, to the target file. */
  lemma LoadResetsInvalidFile(fs: FileSystem, host: Host)
    requires SameVersionFile(fs)
    requires OpenTarget(fs[Target]).value.errors.Some?
    ensures var rest := fs - {Target, Legacy};
      LoadSettings(fs, host) == Success(Loaded(
        ManagerState(FactoryDefaults(), if CanWrite(host) then rest[Target := Ini(Serialize(FactoryDefaults().sections))] else rest),
        false, None, 1))
  {
    var q := Probe(fs - {Target}, false, 1);
    LoadSameVersion(fs, host);
    ActivateSameVersion(fs, Probe(fs, false, 0));
    KeepMergeStep(FactoryDefaults(), q);
    RemoveBoth(fs);
    PersistFresh(FactoryDefaults(), fs - {Target, Legacy}, host);
  }


  lemma RemoveBoth(fs: FileSystem)
    ensures (fs - {Target}) - {Legacy} == fs - {Target, Legacy}
    ensures Legacy !in fs ==> fs - {Target} == fs - {Target, Legacy} && fs - {Legacy} == fs
  {
  }

  /** `loadSettings` once the first phase has kept a target file of the current version. */
  lemma LoadSameVersion(fs: FileSystem, host: Host)
    requires SameVersionFile(fs)
    ensures LoadSettings(fs, host) == MergeAndPersist(Activate(Probe(fs, false, 0)).0, Activate(Probe(fs, false, 0)).1, host)
  {
    ProbeKeepsSameVersion(fs);
  }

  /** The second phase on a kept target file of the current version. */
  lemma ActivateSameVersion(fs: FileSystem, p: Probe)
    requires SameVersionFile(fs) && p == Probe(fs, false, 0)
    ensures OpenTarget(fs[Target]).value.errors.None? ==> Activate(p) == (OpenTarget(fs[Target]).value, p)
    ensures OpenTarget(fs[Target]).value.errors.Some? ==> Activate(p) == (FactoryDefaults(), Probe(fs - {Target}, false, 1))
  {
  }

  /** With the merge off the third phase only removes the legacy file, and the
      final save leaves an existing target file alone. */
  lemma KeepMergeStep(config: ConfigDocument, q: Probe)
    requires config.schema == Schema10 && Settled(Schema10, config.sections) && config.filename == Some(Target)
    requires !q.doMerge
    ensures forall host: Host ::
      MergeAndPersist(config, q, host) == Success(Loaded(Persist(ManagerState(config, q.fs - {Legacy}), host), false, None, q.resetWarnings))
  {
    assert Legacy !in q.fs ==> q.fs - {Legacy} == q.fs;
  }

  /** Without a usable target file of the current version the factory defaults
      are used and the bundled legacy file, if any, is merged into them; a
      target file that does not parse costs one reset warning, one of another
      version none. The result is saved, forced, to the target file. */
  lemma LoadFromFactoryDefaults(fs: FileSystem, host: Host)
    requires !SameVersionFile(fs)
    requires Legacy in fs ==> !FailsBaseProbe(fs[Legacy])
    ensures var warnings := if Target in fs && FailsBaseProbe(fs[Target]) then 1 else 0;
      var merged := if Legacy in fs then Some(MergeSettings(FactoryDefaults(), fs[Legacy]).value) else None;
      var config := if merged.Some? then merged.value.0 else FactoryDefaults();
      var outcome := if merged.Some? then Some(merged.value.1) else None;
      var rest := fs - {Target, Legacy};
      LoadSettings(fs, host) == Success(Loaded(
        ManagerState(config, if CanWrite(host) then rest[Target := Ini(Serialize(config.sections))] else rest),
        true, outcome, warnings))
  {
    var p := Probe(fs - {Target}, true, if Target in fs && FailsBaseProbe(fs[Target]) then 1 else 0);
    LoadOtherVersion(fs, host);
    assert Activate(p) == (FactoryDefaults(), p);
    RemoveBoth(fs);
    var m := MergeStep(FactoryDefaults(), p);
    assert m.Success? && m.value.1 == fs - {Target, Legacy};
    MergeStepSettled(FactoryDefaults(), p);
    PersistFresh(m.value.0, fs - {Target, Legacy}, host);
  }

  /** `loadSettings` once the first phase has removed (or not found) the target file. */
  lemma LoadOtherVersion(fs: FileSystem, host: Host)
    requires !SameVersionFile(fs)
    ensures var p := Probe(fs - {Target}, true, if Target in fs && FailsBaseProbe(fs[Target]) then 1 else 0);
      && ProbeTarget(fs) == p
      && LoadSettings(fs, host) == MergeAndPersist(Activate(p).0, Activate(p).1, host)
  {
    ProbeKeepsSameVersion(fs);
    if Target in fs && fs[Target].Ini? {
      BaseProbe(Target, fs[Target].raw);
    }
    assert Target !in fs ==> fs - {Target} == fs;
  }

  /** The first phase keeps the target file exactly when it is a parsable file of the current version. */
  lemma ProbeKeepsSameVersion(fs: FileSystem)
    ensures !ProbeTarget(fs).doMerge <==> SameVersionFile(fs)
    ensures SameVersionFile(fs) ==> ProbeTarget(fs) == Probe(fs, false, 0)
  {
    if Target in fs && fs[Target].Ini? {
      BaseProbe(Target, fs[Target].raw);
    }
  }

  /** Merging in the legacy file keeps the document settled. */
  lemma MergeStepSettled(config: ConfigDocument, p: Probe)
    requires Settled(Schema10, config.sections)
    requires MergeStep(config, p).Success?
    ensures Settled(Schema10, MergeStep(config, p).value.0.sections)
  {
    RegisteredSchemasWellFormed();
    if Legacy in p.fs && p.doMerge {
      var legacy := p.fs[Legacy];
      var raw := legacy.raw;
      if RawVersion(raw) == Text(CurrentVersion) {
        MergeSettingsKnownVersion(config, raw);
        ValidateSettles(Schema10, Lift(raw));
        MergeKeepsSettled(Schema10, config.sections, Read10(raw));
      } else if RawVersion(raw).Text? {
        MergeSettingsUnknownVersion(config, raw);
      }
    }
  }

  // ---------------------------------------------------------------------------
  // Option toggles

  /** Python's `not` applied to a configuration value: a boolean is negated, a
      string or a list counts as true unless it is empty. */
  function Not(v: Value): (r: Value)
    ensures r.Bool?
    ensures v.Bool? ==> r.b != v.b
    ensures v.Str? ==> (r.b <==> v.s == "")
    ensures v.List? ==> (r.b <==> |v.items| == 0)
  {
    match v
    case Bool(b) => Bool(!b)
    case Str(s) => Bool(s == "")
    case List(items) => Bool(|items| == 0)
  }

  /** A boolean is settled whatever the key's kind: the boolean check accepts it
      and the string check rejects it without changing it. */
  lemma SettledAfterBoolUpdate(schema: Schema, doc: Doc, id: string, b: bool)
    requires General in doc && id in doc[General]
    ensures Settled(schema, doc) ==> Settled(schema, doc[General := doc[General][id := Bool(b)]])
  {
    if !Settled(schema, doc) { return; }
    var d := doc[General := doc[General][id := Bool(b)]];
    forall i, j | 0 <= i < |schema.sections| && 0 <= j < |schema.sections[i].keys|
      ensures schema.sections[i].name in d && schema.sections[i].keys[j].name in d[schema.sections[i].name]
      ensures SettledValue(d[schema.sections[i].name][schema.sections[i].keys[j].name], schema.sections[i].keys[j].kind)
    {
      var k := schema.sections[i].keys[j];
      if schema.sections[i].name == General && k.name == id {
        assert d[General][id] == Bool(b);
        if k.kind == StringKind {
          assert Coerce(StringKind, Bool(b)).None?;
        }
      }
    }
  }

  /** `toggleGeneralOption`: with `toggle`, replace the option of the General
      section by its negation and save (not forced); return the option's value
      afterwards. Without `toggle`, only read it. */
  function ToggleGeneralOption(st: ManagerState, host: Host, id: string, toggle: bool): (r: (ManagerState, Value))
    requires WellFormed(st.config.schema)
    requires General in st.config.sections && id in st.config.sections[General]
    ensures !toggle ==> r == (st, st.config.sections[General][id])
    ensures toggle ==> r.1 == Not(st.config.sections[General][id])
    ensures toggle ==>
      && General in r.0.config.sections && id in r.0.config.sections[General]
      && r.0.config.sections[General][id] == r.1
    ensures toggle && Settled(st.config.schema, st.config.sections) ==>
      r.0.config == st.config.(sections := st.config.sections[General := st.config.sections[General][id := r.1]])
    ensures toggle && Writes(st, host, false) ==>
      r.0.fs == st.fs[st.config.filename.value := Ini(Serialize(r.0.config.sections))]
    ensures !Writes(st, host, false) ==> r.0.fs == st.fs
  {
    if toggle then
      var sections := st.config.sections;
      var v := Not(sections[General][id]);
      var flipped := ManagerState(st.config.(sections := sections[General := sections[General][id := v]]), st.fs);
      ValidateKeepsBool(st.config.schema, flipped.config.sections, General, id);
      SettledAfterBoolUpdate(st.config.schema, sections, id, v.b);
      var saved := SaveSettings(flipped, host, false);
      (saved, saved.config.sections[General][id])
    else (st, st.config.sections[General][id])
  }

  /** `toggleAutoUpdateCheck`. */
  function ToggleAutoUpdateCheck(st: ManagerState, host: Host, toggle: bool): (r: (ManagerState, Value))
    requires WellFormed(st.config.schema)
    requires General in st.config.sections && AutoUpdateCheck in st.config.sections[General]
    ensures var v := st.config.sections[General][AutoUpdateCheck];
      && (!toggle ==> r == (st, v))
      && (toggle && v.Bool? ==> r.1 == Bool(!v.b))
      && (toggle && v.Str? ==> r.1 == Bool(v.s == ""))
      && (toggle && v.List? ==> r.1 == Bool(|v.items| == 0))
  {
    ToggleGeneralOption(st, host, AutoUpdateCheck, toggle)
  }

  /** `toggleUpdateReleaseVersionsToDevVersions`. */
  function ToggleUpdateReleaseVersionsToDevVersions(st: ManagerState, host: Host, toggle: bool): (r: (ManagerState, Value))
    requires WellFormed(st.config.schema)
    requires General in st.config.sections && UpdateReleaseVersionsToDevVersions in st.config.sections[General]
    ensures var v := st.config.sections[General][UpdateReleaseVersionsToDevVersions];
      && (!toggle ==> r == (st, v))
      && (toggle && v.Bool? ==> r.1 == Bool(!v.b))
      && (toggle && v.Str? ==> r.1 == Bool(v.s == ""))
      && (toggle && v.List? ==> r.1 == Bool(|v.items| == 0))
  {
    ToggleGeneralOption(st, host, UpdateReleaseVersionsToDevVersions, toggle)
  }

  /** One toggle of a boolean option of a settled configuration: the option is
      negated, nothing else in the configuration changes, the result is settled
      again, and the file (if the save writes) holds the new configuration. */
  lemma ToggleSettled(st: ManagerState, host: Host, id: string)
    requires WellFormed(st.config.schema) && Settled(st.config.schema, st.config.sections)
    requires General in st.config.sections && id in st.config.sections[General]
    requires st.config.sections[General][id].Bool?
    ensures var sections := st.config.sections;
      var flipped := sections[General := sections[General][id := Bool(!sections[General][id].b)]];
      var r := ToggleGeneralOption(st, host, id, true);
      && r.1 == Bool(!sections[General][id].b)
      && r.0.config == st.config.(sections := flipped)
      && Settled(st.config.schema, flipped)
      && (Writes(st, host, false) ==> r.0.fs == st.fs[st.config.filename.value := Ini(Serialize(flipped))])
      && (!Writes(st, host, false) ==> r.0.fs == st.fs)
  {
    var sections: Doc := st.config.sections;
    var v: Value := sections[General][id];
    SettledAfterBoolUpdate(st.config.schema, sections, id, !v.b);
  }

  /** Toggling a boolean option of a settled configuration twice gives back the
      configuration and the value it started with; the file, if written, then
      holds that configuration. */
  lemma ToggleTwice(st: ManagerState, host: Host, id: string)
    requires WellFormed(st.config.schema) && Settled(st.config.schema, st.config.sections)
    requires General in st.config.sections && id in st.config.sections[General]
    requires st.config.sections[General][id].Bool?
    ensures var once := ToggleGeneralOption(st, host, id, true);
      var twice := ToggleGeneralOption(once.0, host, id, true);
      && twice.1 == st.config.sections[General][id]
      && twice.0.config == st.config
      && (Writes(st, host, false) ==> twice.0.fs == st.fs[st.config.filename.value := Ini(Serialize(st.config.sections))])
      && (!Writes(st, host, false) ==> twice.0.fs == st.fs)
  {
    var sections := st.config.sections;
    var v: Value := sections[General][id];
    var back := sections[General := sections[General][id := Bool(!v.b)]];
    ToggleSettled(st, host, id);
    var once := ToggleGeneralOption(st, host, id, true);
    var mid := once.0;
    assert mid.config == st.config.(sections := back);
    assert mid.config.sections[General][id] == Bool(!v.b);
    ToggleSettled(mid, host, id);
    assert back[General := back[General][id := v]] == sections by {
      assert back[General][id := v] == sections[General];
    }
    assert Writes(mid, host, false) == Writes(st, host, false);
    if Writes(st, host, false) {
      Overwrite(st.fs, st.config.filename.value, Ini(Serialize(back)), Ini(Serialize(sections)));
    }
  }

  lemma Overwrite(fs: FileSystem, p: Path, a: FileContent, b: FileContent)
    ensures fs[p := a][p := b] == fs[p := b]
  {
  }
}
