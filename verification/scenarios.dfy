/**
 * Concrete start-ups of the configuration manager
 * (addon/shared/rc_addonConfigManager.py lines 124-180): a first start with
 * no file at all, an upgrade that merges the bundled legacy file, and a legacy
 * file whose invalid value is merged as it is and then resets the
 * configuration at the next start.
 */
module Scenarios {
  import opened Wrappers
  import opened Schemas
  import opened Validation
  import opened Documents
  import opened Merging
  import opened ConfigManager

  /** A host that saves on request and can write the configuration directory. */
  const Desktop := Host(false, false, false)

  /** The text the factory defaults are written as. */
  const FactoryFile: RawDoc := map[General := map[
    ConfigVersion := Text("1.0"),
    AutoUpdateCheck := Text("True"),
    UpdateReleaseVersionsToDevVersions := Text("False")]]

  /** A file with just a version and one update option. */
  function VersionAndUpdateCheck(version: string, autoUpdateCheck: string): RawDoc {
    map[General := map[ConfigVersion := Text(version), AutoUpdateCheck := Text(autoUpdateCheck)]]
  }

  /** Such a file stores its version as the given text. */
  lemma StoredVersionText(version: string, autoUpdateCheck: string)
    ensures RawVersion(VersionAndUpdateCheck(version, autoUpdateCheck)) == Text(version)
  {
    assert VersionAndUpdateCheck(version, autoUpdateCheck)[General][ConfigVersion] == Text(version);
  }

  /** A document holding the three General keys, as written to a file. */
  lemma SerializeGeneral(d: Doc, version: Value, check: Value, dev: Value)
    requires d == map[General := map[ConfigVersion := version, AutoUpdateCheck := check, UpdateReleaseVersionsToDevVersions := dev]]
    ensures Serialize(d) == map[General := map[
      ConfigVersion := Written(version),
      AutoUpdateCheck := Written(check),
      UpdateReleaseVersionsToDevVersions := Written(dev)]]
  {
    var s := Serialize(d);
    var g := map[ConfigVersion := Written(version), AutoUpdateCheck := Written(check), UpdateReleaseVersionsToDevVersions := Written(dev)];
    assert s[General] == g;
  }

  /** The factory defaults are written with booleans as `True` / `False`. */
  lemma FactoryDefaultsWritten()
    ensures Serialize(FactoryDefaults().sections) == FactoryFile
  {
    SerializeGeneral(FactoryDefaults().sections, Str("1.0"), Bool(true), Bool(false));
  }

  /** A first start writes the factory defaults to the target file, with no
      merge and no warning. */
  lemma FirstStart()
    ensures LoadSettings(map[], Desktop) ==
      Success(Loaded(ManagerState(FactoryDefaults(), map[Target := Ini(FactoryFile)]), true, None, 0))
  {
    LoadFromFactoryDefaults(map[], Desktop);
    FactoryDefaultsWritten();
    var empty: FileSystem := map[];
    assert empty - {Target, Legacy} == empty;
  }

  /** In secure mode a first start writes nothing. */
  lemma FirstStartSecure(saveOnExit: bool, readOnly: bool)
    ensures var r := LoadSettings(map[], Host(true, saveOnExit, readOnly));
      r == Success(Loaded(ManagerState(FactoryDefaults(), map[]), true, None, 0))
  {
    LoadFromFactoryDefaults(map[], Host(true, saveOnExit, readOnly));
    var empty: FileSystem := map[];
    assert empty - {Target, Legacy} == empty;
  }

  /** The version 1.0 reading of a file holding `AutoUpdateCheck`: the option
      is checked, the other one receives its default. */
  lemma ReadUpdateCheck(raw: RawDoc, v: string)
    requires raw == VersionAndUpdateCheck("1.0", v)
    ensures General in Read10(raw) && AutoUpdateCheck in Read10(raw)[General]
    ensures UpdateReleaseVersionsToDevVersions in Read10(raw)[General]
    ensures Read10(raw)[General][AutoUpdateCheck] == ReadValue(UpdateCheckSpec, v)
    ensures Read10(raw)[General][UpdateReleaseVersionsToDevVersions] == Bool(false)
  {
    RegisteredSchemasWellFormed();
    var l := Lift(raw);
    var spec := Schema10.sections[0];
    assert spec.name == General;
    assert spec.keys[1].name == AutoUpdateCheck && spec.keys[1].kind == BooleanKind;
    assert spec.keys[2].name == UpdateReleaseVersionsToDevVersions && spec.keys[2].default == Bool(false);
    assert SectionOf(l, General)[AutoUpdateCheck] == Str(v);
    assert UpdateReleaseVersionsToDevVersions !in SectionOf(l, General);
    ValidateChecksPresentKey(Schema10, l, 0, 1);
    ValidateFillsDefaults(Schema10, l, 0, 2);
  }

  lemma FalseToken()
    ensures Coerce(BooleanKind, Str("False")) == Some(Bool(false))
  {
    var l := Lower("False");
    assert l == "false" by {
      assert l[0] == 'f' && l[1] == 'a' && l[2] == 'l' && l[3] == 's' && l[4] == 'e';
    }
  }

  lemma MaybeIsNoToken()
    ensures Coerce(BooleanKind, Str("maybe")) == None
  {
    var l := Lower("maybe");
    assert l[0] == 'm' && l[1] == 'a';
    assert l !in {"true", "on", "yes", "1", "false", "off", "no", "0"};
  }

  /** The version 1.0 declaration of `AutoUpdateCheck`. */
  const UpdateCheckSpec := Schema10.sections[0].keys[1]

  /** The value a key's check reads for a stored text. */
  function ReadValue(ks: KeySpec, text: string): Value {
    CheckKey(ks, map[ks.name := Str(text)]).0
  }

  /** Merging a legacy version 1.0 file that holds `AutoUpdateCheck` into the
      factory defaults replaces exactly that option by the value read. */
  lemma MergeIntoDefaults(legacy: RawDoc, v: string)
    requires legacy == VersionAndUpdateCheck("1.0", v)
    ensures Merge(FactoryDefaults().sections, Read10(legacy)) == map[General := map[
      ConfigVersion := Str("1.0"),
      AutoUpdateCheck := ReadValue(UpdateCheckSpec, v),
      UpdateReleaseVersionsToDevVersions := Bool(false)]]
  {
    ReadUpdateCheck(legacy, v);
    MergeGeneral(FactoryDefaults().sections, Read10(legacy), Str("1.0"), Bool(true), Bool(false));
  }

  /** Merging into a document of the three General keys: the two options take
      the legacy values, the version stays. */
  lemma MergeGeneral(d: Doc, legacy: Doc, version: Value, check: Value, dev: Value)
    requires d == map[General := map[ConfigVersion := version, AutoUpdateCheck := check, UpdateReleaseVersionsToDevVersions := dev]]
    requires General in legacy && AutoUpdateCheck in legacy[General] && UpdateReleaseVersionsToDevVersions in legacy[General]
    ensures Merge(d, legacy) == map[General := map[
      ConfigVersion := version,
      AutoUpdateCheck := legacy[General][AutoUpdateCheck],
      UpdateReleaseVersionsToDevVersions := legacy[General][UpdateReleaseVersionsToDevVersions]]]
  {
    var m := Merge(d, legacy);
    assert m[General] == MergeSection(General, d[General], legacy);
    assert m[General] == map[
      ConfigVersion := version,
      AutoUpdateCheck := legacy[General][AutoUpdateCheck],
      UpdateReleaseVersionsToDevVersions := legacy[General][UpdateReleaseVersionsToDevVersions]];
  }

  /** The configuration after merging a legacy version 1.0 file that holds
      `AutoUpdateCheck` with text `v` into the factory defaults. */
  function MergedDefaults(v: string): Doc {
    map[General := map[
      ConfigVersion := Str("1.0"),
      AutoUpdateCheck := ReadValue(UpdateCheckSpec, v),
      UpdateReleaseVersionsToDevVersions := Bool(false)]]
  }

  lemma MergeLegacyIntoDefaults(v: string)
    ensures MergeSettings(FactoryDefaults(), Ini(VersionAndUpdateCheck("1.0", v))) ==
      Success((FactoryDefaults().(sections := MergedDefaults(v)), Merged))
  {
    var legacy := VersionAndUpdateCheck("1.0", v);
    assert RawVersion(legacy) == Text(CurrentVersion);
    MergeSettingsKnownVersion(FactoryDefaults(), legacy);
    MergeIntoDefaults(legacy, v);
  }

  /** A start with a bundled legacy file of version 1.0 and no usable target file. */
  lemma LoadWithLegacy(fs: FileSystem, v: string)
    requires !SameVersionFile(fs) && (Target in fs ==> !FailsBaseProbe(fs[Target]))
    requires Legacy in fs && fs[Legacy] == Ini(VersionAndUpdateCheck("1.0", v))
    requires fs.Keys <= {Target, Legacy}
    ensures LoadSettings(fs, Desktop) == Success(Loaded(
        ManagerState(FactoryDefaults().(sections := MergedDefaults(v)), map[Target := Ini(Serialize(MergedDefaults(v)))]),
        true, Some(Merged), 0))
  {
    MergeLegacyIntoDefaults(v);
    RemoveAll(fs);
    LoadFromFactoryDefaults(fs, Desktop);
  }

  lemma RemoveAll(fs: FileSystem)
    requires fs.Keys <= {Target, Legacy}
    ensures fs - {Target, Legacy} == map[]
  {
  }

  /** Upgrading from version 0.9: the old target file is removed without a
      warning, the bundled legacy file's `AutoUpdateCheck = False` is merged
      into the factory defaults as the boolean false, the legacy file is
      removed and the result is written to the target file. */
  lemma UpgradeMergesLegacyValue()
    ensures var fs := map[
        Target := Ini(VersionAndUpdateCheck("0.9", "True")),
        Legacy := Ini(VersionAndUpdateCheck("1.0", "False"))];
      var r := LoadSettings(fs, Desktop);
      && r.Success?
      && r.value.resetWarnings == 0
      && r.value.merge == Some(Merged)
      && r.value.state.config.sections == map[General := map[
           ConfigVersion := Str("1.0"),
           AutoUpdateCheck := Bool(false),
           UpdateReleaseVersionsToDevVersions := Bool(false)]]
      && r.value.state.fs == map[Target := Ini(map[General := map[
           ConfigVersion := Text("1.0"),
           AutoUpdateCheck := Text("False"),
           UpdateReleaseVersionsToDevVersions := Text("False")]])]
  {
    UpgradeLoads(map[Target := Ini(VersionAndUpdateCheck("0.9", "True")), Legacy := Ini(VersionAndUpdateCheck("1.0", "False"))]);
    MergedFalse();
  }

  /** The upgrade start in terms of the merged defaults. */
  lemma UpgradeLoads(fs: FileSystem)
    requires Target in fs && fs[Target] == Ini(VersionAndUpdateCheck("0.9", "True"))
    requires Legacy in fs && fs[Legacy] == Ini(VersionAndUpdateCheck("1.0", "False"))
    requires fs.Keys <= {Target, Legacy}
    ensures LoadSettings(fs, Desktop) == Success(Loaded(
        ManagerState(FactoryDefaults().(sections := MergedDefaults("False")), map[Target := Ini(Serialize(MergedDefaults("False")))]),
        true, Some(Merged), 0))
  {
    StoredVersionText("0.9", "True");
    LoadWithLegacy(fs, "False");
  }

  lemma MergedFalse()
    ensures MergedDefaults("False") == map[General := map[
      ConfigVersion := Str("1.0"),
      AutoUpdateCheck := Bool(false),
      UpdateReleaseVersionsToDevVersions := Bool(false)]]
    ensures Serialize(MergedDefaults("False")) == map[General := map[
      ConfigVersion := Text("1.0"),
      AutoUpdateCheck := Text("False"),
      UpdateReleaseVersionsToDevVersions := Text("False")]]
  {
    FalseToken();
    SerializeGeneral(MergedDefaults("False"), Str("1.0"), Bool(false), Bool(false));
  }

  /** The file a start writes after merging a legacy `AutoUpdateCheck = maybe`. */
  const MergedMaybeFile: RawDoc := map[General := map[
    ConfigVersion := Text("1.0"),
    AutoUpdateCheck := Text("maybe"),
    UpdateReleaseVersionsToDevVersions := Text("False")]]

  /** `mergeSettings` does not look at the legacy document's errors: an
      `AutoUpdateCheck = maybe`, which the boolean check rejects, is copied as
      the text "maybe". The configuration then reports no errors yet is not
      well typed, and the file written holds the text. */
  lemma InvalidLegacyValueMerged()
    ensures var r := LoadSettings(map[Legacy := Ini(VersionAndUpdateCheck("1.0", "maybe"))], Desktop);
      && r.Success?
      && r.value.resetWarnings == 0
      && r.value.merge == Some(Merged)
      && r.value.state.config.errors.None?
      && r.value.state.config.sections[General][AutoUpdateCheck] == Str("maybe")
      && !WellTyped(Schema10, r.value.state.config.sections)
      && r.value.state.fs == map[Target := Ini(MergedMaybeFile)]
  {
    var fs := map[Legacy := Ini(VersionAndUpdateCheck("1.0", "maybe"))];
    LoadWithLegacy(fs, "maybe");
    MergedMaybe();
  }

  /** The merged "maybe" configuration: the text is kept, so the document is
      not well typed, and it is written as `MergedMaybeFile`. */
  lemma MergedMaybe()
    ensures MergedDefaults("maybe")[General][AutoUpdateCheck] == Str("maybe")
    ensures !WellTyped(Schema10, MergedDefaults("maybe"))
    ensures Serialize(MergedDefaults("maybe")) == MergedMaybeFile
  {
    MaybeIsNoToken();
    var sections := MergedDefaults("maybe");
    assert !WellTyped(Schema10, sections) by {
      assert Schema10.sections[0].keys[1].name == AutoUpdateCheck;
      assert !HasKind(sections[General][AutoUpdateCheck], Schema10.sections[0].keys[1].kind);
    }
    SerializeGeneral(sections, Str("1.0"), Str("maybe"), Bool(false));
  }

  /** The start after that finds a target file of the current version that
      fails validation: it is removed with one reset warning and replaced by
      the factory defaults. */
  lemma NextStartResets()
    ensures LoadSettings(map[Target := Ini(MergedMaybeFile)], Desktop) ==
      Success(Loaded(ManagerState(FactoryDefaults(), map[Target := Ini(FactoryFile)]), false, None, 1))
  {
    var fs := map[Target := Ini(MergedMaybeFile)];
    assert SameVersionFile(fs) by {
      assert RawVersion(MergedMaybeFile) == Text("1.0");
    }
    MaybeFileRejected();
    LoadResetsInvalidFile(fs, Desktop);
    FactoryDefaultsWritten();
    RemoveAll(fs);
  }

  /** Opening the written "maybe" file reports errors. */
  lemma MaybeFileRejected()
    ensures OpenTarget(Ini(MergedMaybeFile)).value.errors.Some?
  {
    RegisteredSchemasWellFormed();
    MaybeIsNoToken();
    var l := Lift(MergedMaybeFile);
    assert Schema10.sections[0].name == General;
    assert Schema10.sections[0].keys[1].name == AutoUpdateCheck;
    assert SectionOf(l, General)[AutoUpdateCheck] == Str("maybe");
    assert !Acceptable(Schema10.sections[0].keys[1], SectionOf(l, General));
  }

  /** A file whose version is stored unquoted as `1.0, 2.0`: its version parses as a list. */
  const ListVersionFile: RawDoc := map[General := map[ConfigVersion := Items(["1.0", "2.0"])]]

  /** A target file storing its version as a list fails the Base check: it is
      removed with one reset warning and the factory defaults are written. */
  lemma ListVersionTargetResets()
    ensures LoadSettings(map[Target := Ini(ListVersionFile)], Desktop) ==
      Success(Loaded(ManagerState(FactoryDefaults(), map[Target := Ini(FactoryFile)]), true, None, 1))
  {
    var fs := map[Target := Ini(ListVersionFile)];
    assert RawVersion(ListVersionFile) == Items(["1.0", "2.0"]);
    LoadFromFactoryDefaults(fs, Desktop);
    FactoryDefaultsWritten();
    RemoveAll(fs);
  }

  /** A bundled legacy file storing its version as a list makes the registry
      lookup raise: the start aborts after the first phase removed the
      unparsable target file with one warning, and the legacy file stays. */
  lemma ListVersionLegacyRaises()
    ensures LoadSettings(map[Target := Malformed, Legacy := Ini(ListVersionFile)], Desktop) ==
      Failure(Aborted(UnhashableVersion(Legacy), map[Legacy := Ini(ListVersionFile)], 1))
  {
    var fs := map[Target := Malformed, Legacy := Ini(ListVersionFile)];
    assert RawVersion(ListVersionFile) == Items(["1.0", "2.0"]);
    assert fs - {Target} == map[Legacy := Ini(ListVersionFile)];
  }
}
