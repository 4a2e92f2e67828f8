/**
 * Configuration documents and the two files they live in
 * (addon/shared/rc_addonConfigManager.py lines 32-99: `BaseAddonConfiguration`
 * and `AddonConfiguration10`). A file is seen after INI parsing: it either
 * fails to parse or yields section -> key -> entry, an entry being a text or,
 * for an unquoted comma-separated value, a list of texts.
 */
module Documents {
  import opened Wrappers
  import opened Schemas
  import opened Validation

  /** The two files the manager touches: the one in the host's configuration
      directory, and the one bundled in the add-on's installation directory. */
  datatype Path = Target | Legacy

  /** One parsed value: a text, or the items of a comma-separated list. */
  datatype Entry = Text(text: string) | Items(items: seq<string>)

  /** Parsed INI content: section -> key -> entry. */
  type RawDoc = map<string, map<string, Entry>>

  /** What reading a file yields: a parse error, or its sections. */
  datatype FileContent = Malformed | Ini(raw: RawDoc)

  /** The existing files and their content; a path outside the map does not exist. */
  type FileSystem = map<Path, FileContent>

  /** The exceptions the core lets escape: a file that does not parse, and the
      TypeError of looking up a list-valued version in the registry. */
  datatype Error = ParseError(path: Path) | UnhashableVersion(path: Path)

  /** A configuration object: the schema it was validated against, the file it
      is bound to, its sections, and its `errors` (None when validation passed). */
  datatype ConfigDocument = ConfigDocument(schema: Schema, filename: Option<Path>, sections: Doc, errors: Option<string>)

  // ---------------------------------------------------------------------------
  // The error listing (getValidateErrorsText)

  function SectionLine(name: string): string {
    "section [" + name + "]"
  }

  function KeyLine(key: string, reason: string): string {
    "key \"" + key + "\": " + reason
  }

  /** One line per failed key, in order. */
  function KeyLines(keys: seq<(string, KeyCheck)>): seq<string>
    decreases |keys|
  {
    if |keys| == 0 then []
    else
      var last := keys[|keys| - 1];
      KeyLines(keys[..|keys| - 1]) + (if last.1.Failed? then [KeyLine(last.0, last.1.reason)] else [])
  }

  function SectionLines(c: SectionCheck): seq<string> {
    match c
    case SectionPassed(_) => []
    case SectionFailed(name, keys) => [SectionLine(name)] + KeyLines(keys)
  }

  /** The lines of the listing: for each failed section its header and then its failed keys. */
  function ErrorLines(report: seq<SectionCheck>): seq<string>
    decreases |report|
  {
    if |report| == 0 then []
    else ErrorLines(report[..|report| - 1]) + SectionLines(report[|report| - 1])
  }

  /** Python's `sep.join(lines)`. */
  function Join(lines: seq<string>, sep: string): string
    decreases |lines|
  {
    if |lines| == 0 then ""
    else if |lines| == 1 then lines[0]
    else lines[0] + sep + Join(lines[1..], sep)
  }

  function ErrorsText(report: seq<SectionCheck>): string {
    Join(ErrorLines(report), "\n")
  }

  /** `getValidateErrorsText`: walks configobj's result section by section,
      collecting each failed section's header and its failed keys, and joins the lines. */
  method GetValidateErrorsText(result: seq<SectionCheck>) returns (text: string)
    ensures text == ErrorsText(result)
  {
    var textList: seq<string> := [];
    var i := 0;
    while i < |result|
      invariant 0 <= i <= |result|
      invariant textList == ErrorLines(result[..i])
    {
      var section := result[i];
      assert result[..i + 1][..i] == result[..i];
      if section.SectionFailed? {
        var keyLines := FailedKeyLines(section.keys);
        textList := textList + [SectionLine(section.name)] + keyLines;
      }
      assert ErrorLines(result[..i + 1]) == ErrorLines(result[..i]) + SectionLines(section);
      i := i + 1;
    }
    assert result[..i] == result;
    text := Join(textList, "\n");
  }

  /** The inner loop of `getValidateErrorsText`: one line per key whose check raised. */
  method FailedKeyLines(keys: seq<(string, KeyCheck)>) returns (lines: seq<string>)
    ensures lines == KeyLines(keys)
  {
    lines := [];
    var j := 0;
    while j < |keys|
      invariant 0 <= j <= |keys|
      invariant lines == KeyLines(keys[..j])
    {
      assert keys[..j + 1][..j] == keys[..j];
      if keys[j].1.Failed? {
        lines := lines + [KeyLine(keys[j].0, keys[j].1.reason)];
      }
      j := j + 1;
    }
    assert keys[..j] == keys;
  }

  /** Every line of the listing is non-empty. */
  lemma {:induction false} ErrorLinesNonEmpty(report: seq<SectionCheck>)
    ensures forall n :: 0 <= n < |ErrorLines(report)| ==> |ErrorLines(report)[n]| > 0
    decreases |report|
  {
    if |report| > 0 {
      ErrorLinesNonEmpty(report[..|report| - 1]);
      var c := report[|report| - 1];
      if c.SectionFailed? {
        KeyLinesNonEmpty(c.keys);
      }
    }
  }

  lemma {:induction false} KeyLinesNonEmpty(keys: seq<(string, KeyCheck)>)
    ensures forall n :: 0 <= n < |KeyLines(keys)| ==> |KeyLines(keys)[n]| > 0
    decreases |keys|
  {
    if |keys| > 0 {
      KeyLinesNonEmpty(keys[..|keys| - 1]);
    }
  }

  lemma JoinNonEmpty(lines: seq<string>, sep: string)
    requires |lines| > 0 && |lines[0]| > 0
    ensures |Join(lines, sep)| > 0
  {
    if |lines| > 1 {
      assert Join(lines, sep) == lines[0] + sep + Join(lines[1..], sep);
    }
  }

  /** The listing names every failed section and, under it, every failed key. */
  lemma {:induction false} ErrorLinesMention(report: seq<SectionCheck>, i: int)
    requires 0 <= i < |report| && report[i].SectionFailed?
    ensures SectionLine(report[i].name) in ErrorLines(report)
    ensures forall j :: 0 <= j < |report[i].keys| && report[i].keys[j].1.Failed? ==>
      KeyLine(report[i].keys[j].0, report[i].keys[j].1.reason) in ErrorLines(report)
    decreases |report|
  {
    var front := report[..|report| - 1];
    if i < |report| - 1 {
      assert front[i] == report[i];
      ErrorLinesMention(front, i);
    } else {
      forall j | 0 <= j < |report[i].keys| && report[i].keys[j].1.Failed?
        ensures KeyLine(report[i].keys[j].0, report[i].keys[j].1.reason) in KeyLines(report[i].keys)
      {
        KeyLinesMention(report[i].keys, j);
      }
    }
  }

  lemma {:induction false} KeyLinesMention(keys: seq<(string, KeyCheck)>, j: int)
    requires 0 <= j < |keys| && keys[j].1.Failed?
    ensures KeyLine(keys[j].0, keys[j].1.reason) in KeyLines(keys)
    decreases |keys|
  {
    if j < |keys| - 1 {
      assert keys[..|keys| - 1][j] == keys[j];
      KeyLinesMention(keys[..|keys| - 1], j);
    }
  }

  /** A report in which every section passed lists nothing. */
  lemma {:induction false} ErrorLinesOfPassed(report: seq<SectionCheck>)
    requires AllPassed(report)
    ensures ErrorLines(report) == []
    decreases |report|
  {
    if |report| > 0 {
      ErrorLinesOfPassed(report[..|report| - 1]);
    }
  }

  /** The listing is empty exactly when every section passed. */
  lemma ErrorsTextEmptyIff(report: seq<SectionCheck>)
    ensures ErrorsText(report) == "" <==> AllPassed(report)
  {
    if AllPassed(report) {
      ErrorLinesOfPassed(report);
    } else {
      var i :| 0 <= i < |report| && report[i].SectionFailed?;
      ErrorLinesMention(report, i);
      ErrorLinesNonEmpty(report);
      JoinNonEmpty(ErrorLines(report), "\n");
    }
  }

  // ---------------------------------------------------------------------------
  // Opening and writing

  /** A parsed entry as a document value: a text is a string, a list a list. */
  function Parsed(e: Entry): Value {
    match e
    case Text(t) => Str(t)
    case Items(l) => List(l)
  }

  /** How `write()` stores a value: booleans as the texts `True` / `False`,
      lists as comma-separated items (quoted so that they parse back). */
  function Written(v: Value): Entry {
    match v
    case Str(t) => Text(t)
    case Bool(b) => Text(if b then "True" else "False")
    case List(l) => Items(l)
  }

  /** Reading back what was written gives the value itself, except for a
      boolean, which comes back as its text. */
  lemma ParsedWritten(v: Value)
    ensures !v.Bool? ==> Parsed(Written(v)) == v
    ensures v.Bool? ==> Parsed(Written(v)).Str?
  {
  }

  /** A value of a key's kind, written and read back, passes that key's check
      as the same value. */
  lemma CoerceRendered(v: Value, kind: Kind)
    requires HasKind(v, kind)
    ensures Coerce(kind, Parsed(Written(v))) == Some(v)
  {
    if v.Bool? {
      var t := Parsed(Written(v)).s;
      var l := Lower(t);
      if v.b {
        assert l == "true" by {
          assert t == ['T', 'r', 'u', 'e'];
          assert l[0] == 't' && l[1] == 'r' && l[2] == 'u' && l[3] == 'e';
        }
      } else {
        assert l == "false" by {
          assert t == ['F', 'a', 'l', 's', 'e'];
          assert l[0] == 'f' && l[1] == 'a' && l[2] == 'l' && l[3] == 's' && l[4] == 'e';
        }
      }
    }
  }

  function LiftSection(raw: map<string, Entry>): Section {
    map k | k in raw :: Parsed(raw[k])
  }

  /** Parsed content as document values: every value starts out as a string or a list. */
  function Lift(raw: RawDoc): Doc {
    map s | s in raw :: LiftSection(raw[s])
  }

  function SerializeSection(sec: Section): map<string, Entry> {
    map k | k in sec :: Written(sec[k])
  }

  /** What `write()` puts in the file for each value. */
  function Serialize(doc: Doc): RawDoc {
    map s | s in doc :: SerializeSection(doc[s])
  }

  /** The constructor: validation runs at once; `errors` is None when it
      passed and the listing of the failures otherwise. */
  function FromValidated(schema: Schema, filename: Option<Path>, v: Validated): ConfigDocument {
    ConfigDocument(schema, filename, v.doc, if AllPassed(v.report) then None else Some(ErrorsText(v.report)))
  }

  /** A configuration object read from an existing file (`AddonConfiguration(path)`). */
  function OpenFile(schema: Schema, path: Path, content: FileContent): (r: Result<ConfigDocument, Error>)
    requires WellFormed(schema)
    ensures r.Failure? <==> content.Malformed?
    ensures r.Failure? ==> r.error == ParseError(path)
    ensures r.Success? ==>
      && r.value.schema == schema
      && r.value.filename == Some(path)
      && Complete(schema, r.value.sections)
      && (r.value.errors.Some? ==> |r.value.errors.value| > 0)
      && (r.value.errors.None? <==>
            forall i, j :: 0 <= i < |schema.sections| && 0 <= j < |schema.sections[i].keys| ==>
              Acceptable(schema.sections[i].keys[j], SectionOf(Lift(content.raw), schema.sections[i].name)))
      && (r.value.errors.None? ==> WellTyped(schema, r.value.sections))
    ensures r.Success? ==> r.value.sections == Validate(schema, Lift(content.raw)).doc
    ensures r.Success? && r.value.errors.Some? ==>
      r.value.errors.value == ErrorsText(Validate(schema, Lift(content.raw)).report)
  {
    match content
    case Malformed => Failure(ParseError(path))
    case Ini(raw) =>
      var v := Validate(schema, Lift(raw));
      ValidateComplete(schema, Lift(raw));
      ValidatePassedIff(schema, Lift(raw));
      ErrorsTextEmptyIff(v.report);
      ValidatePassedWellTyped(schema, Lift(raw));
      Success(FromValidated(schema, Some(path), v))
  }

  /** A configuration object built from no input (`AddonConfiguration(None)`):
      the schema's defaults, no errors, not bound to a file. */
  function Defaults(schema: Schema): (r: ConfigDocument)
    requires WellFormed(schema)
    ensures r.schema == schema && r.filename.None? && r.errors.None?
    ensures WellTyped(schema, r.sections)
    ensures r.sections.Keys == SectionNames(schema)
    ensures forall i, j :: 0 <= i < |schema.sections| && 0 <= j < |schema.sections[i].keys| ==>
      r.sections[schema.sections[i].name][schema.sections[i].keys[j].name] == schema.sections[i].keys[j].default
    ensures forall i :: 0 <= i < |schema.sections| ==>
      r.sections[schema.sections[i].name].Keys == KeyNames(schema.sections[i].keys)
  {
    ValidateEmptyPasses(schema);
    ValidateEmptyDefaults(schema);
    FromValidated(schema, None, Validate(schema, map[]))
  }

  /** The version a document stores. */
  function StoredVersion(c: ConfigDocument): Value
    requires General in c.sections && ConfigVersion in c.sections[General]
  {
    c.sections[General][ConfigVersion]
  }

  /** True iff (s, k) is a key the schema declares. */
  predicate Declared(schema: Schema, s: string, k: string) {
    exists i :: 0 <= i < |schema.sections| && schema.sections[i].name == s && k in KeyNames(schema.sections[i].keys)
  }

  /** A document `write()` can store and reading back restores: well typed,
      and no key the schema does not declare holds a boolean (which would come
      back as text). */
  predicate Canonical(schema: Schema, doc: Doc) {
    && WellTyped(schema, doc)
    && forall s, k :: s in doc && k in doc[s] && !Declared(schema, s, k) ==> !doc[s][k].Bool?
  }

  /** A section written out and read back through its declaration is restored. */
  lemma SectionRoundTrip(spec: SectionSpec, sec: Section)
    requires UniqueKeyNames(spec.keys)
    requires forall j :: 0 <= j < |spec.keys| ==> spec.keys[j].name in sec && HasKind(sec[spec.keys[j].name], spec.keys[j].kind)
    requires forall k :: k in sec && k !in KeyNames(spec.keys) ==> !sec[k].Bool?
    ensures ValidateSection(spec, LiftSection(SerializeSection(sec))) == sec
  {
    var v := ValidateSection(spec, LiftSection(SerializeSection(sec)));
    assert KeyNames(spec.keys) <= sec.Keys;
    forall k | k in sec ensures v[k] == sec[k] {
      KeyRoundTrip(spec, sec, k);
    }
  }

  lemma KeyRoundTrip(spec: SectionSpec, sec: Section, k: string)
    requires UniqueKeyNames(spec.keys)
    requires forall j :: 0 <= j < |spec.keys| ==> spec.keys[j].name in sec && HasKind(sec[spec.keys[j].name], spec.keys[j].kind)
    requires forall k :: k in sec && k !in KeyNames(spec.keys) ==> !sec[k].Bool?
    requires k in sec
    ensures k in ValidateSection(spec, LiftSection(SerializeSection(sec)))
    ensures ValidateSection(spec, LiftSection(SerializeSection(sec)))[k] == sec[k]
  {
    var l := LiftSection(SerializeSection(sec));
    if k in KeyNames(spec.keys) {
      var j :| 0 <= j < |spec.keys| && spec.keys[j].name == k;
      ValidatedKey(spec, l, j);
      CoerceRendered(sec[k], spec.keys[j].kind);
    } else {
      ParsedWritten(sec[k]);
      UndeclaredKeyKept(spec, l, k);
    }
  }

  lemma WriteThenOpenAt(schema: Schema, doc: Doc, s: string)
    requires WellFormed(schema)
    requires Canonical(schema, doc)
    requires s in doc
    ensures s in Validate(schema, Lift(Serialize(doc))).doc
    ensures Validate(schema, Lift(Serialize(doc))).doc[s] == doc[s]
  {
    var l := Lift(Serialize(doc));
    var f := FindSection(schema.sections, s);
    if f.Some? {
      var i :| 0 <= i < |schema.sections| && schema.sections[i] == f.value;
      ValidatedSection(schema, l, i);
      forall k | k in doc[s] && k !in KeyNames(f.value.keys) ensures !doc[s][k].Bool? {
        assert !Declared(schema, s, k);
      }
      SectionRoundTrip(f.value, doc[s]);
    } else {
      forall k | k in doc[s] ensures l[s][k] == doc[s][k] {
        assert !Declared(schema, s, k);
        ParsedWritten(doc[s][k]);
      }
      assert l[s] == doc[s];
      UndeclaredSectionKept(schema, l, s);
    }
  }

  /** Writing a document and opening the file again gives back the same
      sections with no errors. */
  lemma WriteThenOpen(schema: Schema, doc: Doc, p: Path)
    requires WellFormed(schema)
    requires Canonical(schema, doc)
    ensures OpenFile(schema, p, Ini(Serialize(doc))) == Success(ConfigDocument(schema, Some(p), doc, None))
  {
    var v := Validate(schema, Lift(Serialize(doc)));
    WriteThenOpenDoc(schema, doc);
    WriteThenOpenPasses(schema, doc);
    assert FromValidated(schema, Some(p), v) == ConfigDocument(schema, Some(p), doc, None);
  }

  lemma WriteThenOpenDoc(schema: Schema, doc: Doc)
    requires WellFormed(schema)
    requires Canonical(schema, doc)
    ensures Validate(schema, Lift(Serialize(doc))).doc == doc
  {
    var v := Validate(schema, Lift(Serialize(doc)));
    assert v.doc.Keys == doc.Keys by {
      assert SectionNames(schema) <= doc.Keys;
    }
    forall s | s in doc ensures v.doc[s] == doc[s] {
      WriteThenOpenAt(schema, doc, s);
    }
  }

  lemma WriteThenOpenPasses(schema: Schema, doc: Doc)
    requires WellFormed(schema)
    requires Canonical(schema, doc)
    ensures AllPassed(Validate(schema, Lift(Serialize(doc))).report)
  {
    var l := Lift(Serialize(doc));
    forall i, j | 0 <= i < |schema.sections| && 0 <= j < |schema.sections[i].keys|
      ensures Acceptable(schema.sections[i].keys[j], SectionOf(l, schema.sections[i].name))
    {
      RenderedAcceptable(schema, doc, i, j);
    }
    ValidatePassedIff(schema, l);
  }

  lemma RenderedAcceptable(schema: Schema, doc: Doc, i: int, j: int)
    requires Canonical(schema, doc)
    requires 0 <= i < |schema.sections| && 0 <= j < |schema.sections[i].keys|
    ensures Acceptable(schema.sections[i].keys[j], SectionOf(Lift(Serialize(doc)), schema.sections[i].name))
  {
    var name := schema.sections[i].name;
    var ks := schema.sections[i].keys[j];
    var sec := SectionOf(Lift(Serialize(doc)), name);
    assert sec == LiftSection(SerializeSection(doc[name]));
    assert sec[ks.name] == Parsed(Written(doc[name][ks.name]));
    CoerceRendered(doc[name][ks.name], ks.kind);
  }
}
