/**
 * Values, schemas and the version registry of the add-on configuration
 * (addon/shared/rc_addonConfigManager.py lines 20-106).
 */
module Schemas {
  import opened Wrappers

  /** A value held in a configuration section. A freshly parsed file holds
      strings and lists: the documents are parsed with configobj's default
      `list_values=True`, so an unquoted `a, b` is the list of its items. The
      boolean check of the validator turns accepted strings into booleans. */
  datatype Value = Str(s: string) | Bool(b: bool) | List(items: seq<string>)

  /** The two value checks the schemas use: `string(...)` and `boolean(...)`. */
  datatype Kind = StringKind | BooleanKind

  datatype KeySpec = KeySpec(name: string, kind: Kind, default: Value)

  datatype SectionSpec = SectionSpec(name: string, keys: seq<KeySpec>)

  /** A schema lists its sections, and each section its keys, in declaration order. */
  datatype Schema = Schema(sections: seq<SectionSpec>)

  /** One section of a document: key -> value. */
  type Section = map<string, Value>

  /** A document: section name -> section. */
  type Doc = map<string, Section>

  const General := "General"
  const ConfigVersion := "ConfigVersion"
  const AutoUpdateCheck := "AutoUpdateCheck"
  const UpdateReleaseVersionsToDevVersions := "UpdateReleaseVersionsToDevVersions"

  /** The version the running add-on writes. */
  const CurrentVersion := "1.0"

  /** The version-only schema used to probe a file's stored version; its default is a single space. */
  const BaseSchema := Schema([SectionSpec(General, [KeySpec(ConfigVersion, StringKind, Str(" "))])])

  /** The schema of configuration version 1.0. */
  const Schema10 := Schema([SectionSpec(General, [
    KeySpec(ConfigVersion, StringKind, Str("1.0")),
    KeySpec(AutoUpdateCheck, BooleanKind, Bool(true)),
    KeySpec(UpdateReleaseVersionsToDevVersions, BooleanKind, Bool(false))
  ])])

  /** True iff `v` is of the kind a check accepts. */
  predicate HasKind(v: Value, kind: Kind) {
    match kind
    case StringKind => v.Str?
    case BooleanKind => v.Bool?
  }

  predicate UniqueKeyNames(keys: seq<KeySpec>) {
    forall i, j :: 0 <= i < j < |keys| ==> keys[i].name != keys[j].name
  }

  /** A schema is well formed when its section names, and each section's key
      names, are distinct, and every default is of its key's kind. */
  predicate WellFormed(schema: Schema) {
    && (forall i, j :: 0 <= i < j < |schema.sections| ==> schema.sections[i].name != schema.sections[j].name)
    && (forall i :: 0 <= i < |schema.sections| ==> UniqueKeyNames(schema.sections[i].keys))
    && (forall i, j :: 0 <= i < |schema.sections| && 0 <= j < |schema.sections[i].keys| ==>
          HasKind(schema.sections[i].keys[j].default, schema.sections[i].keys[j].kind))
  }

  /** Every section and key the schema declares is present in `doc`. */
  predicate Complete(schema: Schema, doc: Doc) {
    && (forall i :: 0 <= i < |schema.sections| ==> schema.sections[i].name in doc)
    && (forall i, j :: 0 <= i < |schema.sections| && 0 <= j < |schema.sections[i].keys| ==>
          schema.sections[i].name in doc && schema.sections[i].keys[j].name in doc[schema.sections[i].name])
  }

  /** Complete, and every declared key holds a value of its declared kind. */
  predicate WellTyped(schema: Schema, doc: Doc) {
    && Complete(schema, doc)
    && forall i, j :: 0 <= i < |schema.sections| && 0 <= j < |schema.sections[i].keys| ==>
         && schema.sections[i].name in doc
         && schema.sections[i].keys[j].name in doc[schema.sections[i].name]
         && HasKind(doc[schema.sections[i].name][schema.sections[i].keys[j].name], schema.sections[i].keys[j].kind)
  }

  /** A value Python can look up in a dict: a list is unhashable, so
      `version in _versionToConfiguration` raises a TypeError on it. */
  predicate Hashable(v: Value) {
    !v.List?
  }

  /** `_versionToConfiguration`: the schema registered for a stored version, if any. */
  function SchemaForVersion(version: Value): (r: Option<Schema>)
    requires Hashable(version)
    ensures r.Some? <==> version == Str(CurrentVersion)
    ensures r.Some? ==> r.value == Schema10
  {
    if version == Str("1.0") then Some(Schema10) else None
  }

  /** The registry and the schemas agree: the version a version 1.0 document
      stores by default is the one the version 1.0 schema is registered under. */
  lemma DefaultVersionRegistered()
    ensures Schema10.sections[0].name == General && Schema10.sections[0].keys[0].name == ConfigVersion
    ensures SchemaForVersion(Schema10.sections[0].keys[0].default) == Some(Schema10)
  {
    assert Schema10.sections[0].keys[0].default == Str(CurrentVersion);
  }

  lemma RegisteredSchemasWellFormed()
    ensures WellFormed(BaseSchema) && WellFormed(Schema10)
  {
    var ks := Schema10.sections[0].keys;
    assert ks[0].name[0] == 'C' && ks[1].name[0] == 'A' && ks[2].name[0] == 'U';
  }
}
