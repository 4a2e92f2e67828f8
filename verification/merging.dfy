/**
 * The whitelist merge of a legacy configuration into the current one
 * (addon/shared/rc_addonConfigManager.py lines 182-195).
 */
module Merging {
  import opened Wrappers
  import opened Schemas
  import opened Validation
  import opened Documents

  /** The one key a merge never copies: the stored version. */
  predicate Reserved(s: string, k: string) {
    s == General && k == ConfigVersion
  }

  /** True iff (s, k) takes the legacy value: it is not reserved and the legacy document holds it. */
  predicate TakesLegacy(s: string, k: string, legacy: Doc) {
    !Reserved(s, k) && s in legacy && k in legacy[s]
  }

  function MergeSection(s: string, cur: Section, legacy: Doc): Section {
    map k | k in cur :: if TakesLegacy(s, k, legacy) then legacy[s][k] else cur[k]
  }

  /** Every key of `current` takes the legacy value when the legacy document
      holds the same section and key, except the stored version; nothing is added. */
  function Merge(current: Doc, legacy: Doc): (r: Doc)
    ensures r.Keys == current.Keys
    ensures forall s :: s in current ==> r[s].Keys == current[s].Keys
  {
    map s | s in current :: MergeSection(s, current[s], legacy)
  }

  /** The merge keeps the shape of the current document, copies a legacy value
      exactly where the legacy document has the same section and key, and never
      touches the stored version. */
  lemma MergeCharacterised(current: Doc, legacy: Doc)
    ensures Merge(current, legacy).Keys == current.Keys
    ensures forall s, k :: s in current && k in current[s] ==>
      && k in Merge(current, legacy)[s]
      && (TakesLegacy(s, k, legacy) ==> Merge(current, legacy)[s][k] == legacy[s][k])
      && (!TakesLegacy(s, k, legacy) ==> Merge(current, legacy)[s][k] == current[s][k])
    ensures forall s, k :: s in Merge(current, legacy) && k in Merge(current, legacy)[s] ==> s in current && k in current[s]
    ensures General in current && ConfigVersion in current[General] ==>
      Merge(current, legacy)[General][ConfigVersion] == current[General][ConfigVersion]
  {
  }

  /** Merging the same legacy document twice changes nothing more. */
  lemma MergeIdempotent(current: Doc, legacy: Doc)
    ensures Merge(Merge(current, legacy), legacy) == Merge(current, legacy)
  {
    var m := Merge(current, legacy);
    var mm := Merge(m, legacy);
    forall s | s in m ensures mm[s] == m[s] {
      assert mm[s] == MergeSection(s, m[s], legacy);
      forall k | k in m[s] ensures mm[s][k] == m[s][k] {
      }
    }
  }

  /** A legacy document that holds none of the current keys leaves the current one as it is. */
  lemma MergeDisjointIsIdentity(current: Doc, legacy: Doc)
    requires forall s, k :: s in current && k in current[s] ==> !(s in legacy && k in legacy[s])
    ensures Merge(current, legacy) == current
  {
    var m := Merge(current, legacy);
    forall s | s in current ensures m[s] == current[s] {
      assert m[s] == MergeSection(s, current[s], legacy);
    }
  }

  /** The nested loops of `mergeSettings`, over the sections of the current
      document and then each section's keys, skipping the stored version. */
  method CopyLegacyValues(current: Doc, legacy: Doc) returns (merged: Doc)
    ensures merged == Merge(current, legacy)
  {
    merged := current;
    var sections := current.Keys;
    while sections != {}
      invariant sections <= current.Keys
      invariant merged.Keys == current.Keys
      invariant forall s :: s in current && s !in sections ==> merged[s] == MergeSection(s, current[s], legacy)
      invariant forall s :: s in sections ==> merged[s] == current[s]
      decreases sections
    {
      var s :| s in sections;
      var sec := current[s];
      var keys := current[s].Keys;
      while keys != {}
        invariant keys <= current[s].Keys
        invariant sec.Keys == current[s].Keys
        invariant forall k :: k in current[s] && k !in keys ==> sec[k] == MergeSection(s, current[s], legacy)[k]
        invariant forall k :: k in keys ==> sec[k] == current[s][k]
        decreases keys
      {
        var k :| k in keys;
        if !Reserved(s, k) && s in legacy && k in legacy[s] {
          sec := sec[k := legacy[s][k]];
        }
        keys := keys - {k};
      }
      assert sec == MergeSection(s, current[s], legacy);
      merged := merged[s := sec];
      sections := sections - {s};
    }
    assert merged == Merge(current, legacy);
  }

  datatype MergeOutcome = Merged | UnknownVersion

  /** The version entry the Base schema reads from parsed content: the stored
      entry, or a single space when the file has none. */
  function RawVersion(raw: RawDoc): Entry {
    if General in raw && ConfigVersion in raw[General] then raw[General][ConfigVersion] else Text(" ")
  }

  /** True iff probing the file with the Base schema fails: it does not parse,
      or it stores its version as a list, which the string check rejects and
      the schema registry cannot look up. */
  predicate FailsBaseProbe(c: FileContent) {
    c.Malformed? || RawVersion(c.raw).Items?
  }

  /** `mergeSettings`: probe the legacy file's version with the Base schema
      (the parse is not guarded, so a malformed file raises, and so does the
      registry lookup of a list-valued version), give up when the version has
      no registered schema, otherwise open the file with its own schema and
      merge its values. The legacy document's own errors are not looked at. */
  function MergeSettings(config: ConfigDocument, legacy: FileContent): (r: Result<(ConfigDocument, MergeOutcome), Error>)
    ensures r.Failure? <==> FailsBaseProbe(legacy)
    ensures r.Failure? ==> r.error == (if legacy.Malformed? then ParseError(Legacy) else UnhashableVersion(Legacy))
    ensures r.Success? ==>
      && r.value.0.schema == config.schema
      && r.value.0.filename == config.filename
      && r.value.0.errors == config.errors
      && r.value.0.sections.Keys == config.sections.Keys
      && (forall s :: s in config.sections ==> r.value.0.sections[s].Keys == config.sections[s].Keys)
    ensures r.Success? && r.value.1 == UnknownVersion ==> r.value.0 == config
  {
    RegisteredSchemasWellFormed();
    if legacy.Malformed? then Failure(ParseError(Legacy))
    else
      BaseProbe(Legacy, legacy.raw);
      var base := OpenFile(BaseSchema, Legacy, legacy).value;
      var version := StoredVersion(base);
      if version.List? then Failure(UnhashableVersion(Legacy))
      else
        match SchemaForVersion(version)
        case None => Success((config, UnknownVersion))
        case Some(schema) =>
          var legacyConfig := OpenFile(schema, Legacy, legacy).value;
          Success((config.(sections := Merge(config.sections, legacyConfig.sections)), Merged))
  }

  /** Probing with the Base schema reads the stored version entry as it was
      parsed, and reports errors exactly when that entry is a list. */
  lemma BaseProbe(p: Path, raw: RawDoc)
    ensures OpenFile(BaseSchema, p, Ini(raw)).Success?
    ensures var b := OpenFile(BaseSchema, p, Ini(raw)).value;
      && (b.errors.None? <==> RawVersion(raw).Text?)
      && General in b.sections && ConfigVersion in b.sections[General]
      && StoredVersion(b) == Parsed(RawVersion(raw))
  {
    RegisteredSchemasWellFormed();
    var l := Lift(raw);
    var ks := BaseSchema.sections[0].keys[0];
    assert ks.name == ConfigVersion && ks.kind == StringKind;
    assert BaseSchema.sections[0].name == General;
    assert |BaseSchema.sections| == 1 && |BaseSchema.sections[0].keys| == 1;
    if ConfigVersion in SectionOf(l, General) {
      ValidateChecksPresentKey(BaseSchema, l, 0, 0);
    } else {
      ValidateFillsDefaults(BaseSchema, l, 0, 0);
    }
  }

  /** The sections a version 1.0 configuration object holds for parsed content. */
  function Read10(raw: RawDoc): Doc {
    RegisteredSchemasWellFormed();
    Validate(Schema10, Lift(raw)).doc
  }

  /** A legacy file stored under an unregistered version text leaves the current document as it is. */
  lemma MergeSettingsUnknownVersion(config: ConfigDocument, raw: RawDoc)
    requires RawVersion(raw).Text? && RawVersion(raw).text != CurrentVersion
    ensures MergeSettings(config, Ini(raw)) == Success((config, UnknownVersion))
  {
    BaseProbe(Legacy, raw);
  }

  /** A legacy file stored under the current version has its validated values
      merged into the current document, whether or not its validation passed. */
  lemma MergeSettingsKnownVersion(config: ConfigDocument, raw: RawDoc)
    requires RawVersion(raw) == Text(CurrentVersion)
    ensures MergeSettings(config, Ini(raw)) == Success((config.(sections := Merge(config.sections, Read10(raw))), Merged))
  {
    BaseProbe(Legacy, raw);
    RegisteredSchemasWellFormed();
  }

  /** Merging settled documents of one schema yields a settled document. */
  lemma MergeKeepsSettled(schema: Schema, current: Doc, legacy: Doc)
    requires Settled(schema, current) && Settled(schema, legacy)
    ensures Settled(schema, Merge(current, legacy))
  {
    var m := Merge(current, legacy);
    forall i, j | 0 <= i < |schema.sections| && 0 <= j < |schema.sections[i].keys|
      ensures schema.sections[i].name in m && schema.sections[i].keys[j].name in m[schema.sections[i].name]
      ensures SettledValue(m[schema.sections[i].name][schema.sections[i].keys[j].name], schema.sections[i].keys[j].kind)
    {
      var s := schema.sections[i].name;
      assert m[s] == MergeSection(s, current[s], legacy);
    }
  }
}
