/**
 * The validator that `ConfigObj.validate(Validator(), copy=True, preserve_errors=True)`
 * runs on every configuration document (addon/shared/rc_addonConfigManager.py
 * lines 49-61 and 209-210). The checks are configobj's `string` and `boolean`
 * checks; with `copy=True` a missing key receives its default, a key that fails
 * its check keeps the value it had and is reported, and keys the schema does not
 * declare are kept untouched.
 */
module Validation {
  import opened Wrappers
  import opened Schemas

  function LowerChar(c: char): char {
    if 'A' <= c <= 'Z' then (c as int + 32) as char else c
  }

  /** ASCII lower-casing; it decides membership in the boolean token table
      exactly as Unicode lower-casing would, since every token is ASCII. */
  function Lower(s: string): (r: string)
    ensures |r| == |s|
    ensures forall i :: 0 <= i < |s| ==> r[i] == LowerChar(s[i])
  {
    seq(|s|, i requires 0 <= i < |s| => LowerChar(s[i]))
  }

  /** configobj's `is_boolean` on a string: a case-insensitive token table. */
  function ParseBoolean(s: string): (r: Option<bool>)
    ensures r == Some(true) <==> Lower(s) in {"true", "on", "yes", "1"}
    ensures r == Some(false) <==> Lower(s) in {"false", "off", "no", "0"}
  {
    var l := Lower(s);
    if l in {"true", "on", "yes", "1"} then Some(true)
    else if l in {"false", "off", "no", "0"} then Some(false)
    else None
  }

  /** The check of one kind applied to one value: the coerced value, or None when
      the check raises. A string check accepts only strings; a boolean check
      accepts booleans and the boolean tokens. Both reject a list. */
  function Coerce(kind: Kind, v: Value): (r: Option<Value>)
    ensures r.Some? ==> HasKind(r.value, kind)
    ensures HasKind(v, kind) ==> r == Some(v)
    ensures kind == StringKind ==> (r.Some? <==> v.Str?)
    ensures kind == BooleanKind && v.Str? ==>
      && (r.Some? <==> ParseBoolean(v.s).Some?)
      && (r.Some? ==> r.value == Bool(ParseBoolean(v.s).value))
    ensures v.List? ==> r.None?
  {
    match kind
    case StringKind => if v.Str? then Some(v) else None
    case BooleanKind =>
      match v
      case Bool(_) => Some(v)
      case Str(s) => (match ParseBoolean(s) case Some(b) => Some(Bool(b)) case None => None)
      case List(_) => None
  }

  /** Python's `str()` of a value, as configobj's type error quotes it: a list
      shows as its items in single quotes between brackets. */
  function Shown(v: Value): string {
    match v
    case Str(s) => s
    case Bool(b) => if b then "True" else "False"
    case List(items) => "[" + ShownItems(items) + "]"
  }

  function ShownItems(items: seq<string>): string
    decreases |items|
  {
    if |items| == 0 then ""
    else if |items| == 1 then "'" + items[0] + "'"
    else "'" + items[0] + "', " + ShownItems(items[1..])
  }

  /** The outcome of one key's check: `True` in configobj's result, or the error it raised. */
  datatype KeyCheck = Passed | Failed(reason: string)

  /** One entry of configobj's result: `True` for a section whose keys all
      passed, otherwise the per-key outcomes in declaration order. */
  datatype SectionCheck =
    | SectionPassed(name: string)
    | SectionFailed(name: string, keys: seq<(string, KeyCheck)>)

  /** The text of configobj's `VdtTypeError`. */
  function WrongType(v: Value): string {
    "the value \"" + Shown(v) + "\" is of the wrong type."
  }

  /** One key: its value after validation and the outcome of its check. */
  function CheckKey(spec: KeySpec, sec: Section): (Value, KeyCheck) {
    if spec.name !in sec then (spec.default, Passed)
    else match Coerce(spec.kind, sec[spec.name])
      case Some(v) => (v, Passed)
      case None => (sec[spec.name], Failed(WrongType(sec[spec.name])))
  }

  function KeyNames(keys: seq<KeySpec>): set<string> {
    set i | 0 <= i < |keys| :: keys[i].name
  }

  function SectionNames(schema: Schema): set<string> {
    set i | 0 <= i < |schema.sections| :: schema.sections[i].name
  }

  function FindKey(keys: seq<KeySpec>, k: string): (r: Option<KeySpec>)
    ensures r.None? <==> k !in KeyNames(keys)
    ensures r.Some? ==> r.value.name == k && r.value in keys
    ensures r.Some? && UniqueKeyNames(keys) ==>
      forall j :: 0 <= j < |keys| && keys[j].name == k ==> keys[j] == r.value
  {
    if |keys| == 0 then None
    else if keys[0].name == k then Some(keys[0])
    else
      var r := FindKey(keys[1..], k);
      assert KeyNames(keys) == {keys[0].name} + KeyNames(keys[1..]) by {
        forall x | x in KeyNames(keys) ensures x in {keys[0].name} + KeyNames(keys[1..]) {
          var i :| 0 <= i < |keys| && keys[i].name == x;
          if i > 0 { assert keys[1..][i - 1] == keys[i]; }
        }
      }
      assert r.Some? ==> forall j :: 1 <= j < |keys| ==> keys[j] == keys[1..][j - 1];
      r
  }

  function FindSection(sections: seq<SectionSpec>, s: string): (r: Option<SectionSpec>)
    ensures r.None? <==> forall i :: 0 <= i < |sections| ==> sections[i].name != s
    ensures r.Some? ==> r.value.name == s && r.value in sections
    ensures r.Some? ==> exists i :: 0 <= i < |sections| && sections[i] == r.value
  {
    if |sections| == 0 then None
    else if sections[0].name == s then Some(sections[0])
    else
      var r := FindSection(sections[1..], s);
      assert forall i :: 1 <= i < |sections| ==> sections[i] == sections[1..][i - 1];
      r
  }

  /** The section a document holds under `name`, or an empty one (`copy=True` creates it). */
  function SectionOf(doc: Doc, name: string): Section {
    if name in doc then doc[name] else map[]
  }

  function ValidateSection(spec: SectionSpec, sec: Section): Section {
    map k | k in sec.Keys + KeyNames(spec.keys) ::
      match FindKey(spec.keys, k)
      case Some(ks) => CheckKey(ks, sec).0
      case None => sec[k]
  }

  /** The outcome of every declared key of a section, in declaration order. */
  function KeyChecks(spec: SectionSpec, sec: Section): (checks: seq<(string, KeyCheck)>)
    ensures |checks| == |spec.keys|
    ensures forall j :: 0 <= j < |spec.keys| ==> checks[j] == (spec.keys[j].name, CheckKey(spec.keys[j], sec).1)
  {
    seq(|spec.keys|, j requires 0 <= j < |spec.keys| => (spec.keys[j].name, CheckKey(spec.keys[j], sec).1))
  }

  function SectionReport(spec: SectionSpec, sec: Section): SectionCheck {
    var checks := KeyChecks(spec, sec);
    if forall j :: 0 <= j < |checks| ==> checks[j].1.Passed? then SectionPassed(spec.name)
    else SectionFailed(spec.name, checks)
  }

  datatype Validated = Validated(doc: Doc, report: seq<SectionCheck>)

  /** configobj's result is `True` exactly when every section passed. */
  predicate AllPassed(report: seq<SectionCheck>) {
    forall i :: 0 <= i < |report| ==> report[i].SectionPassed?
  }

  /** `validate(Validator(), copy=True, preserve_errors=True)` on `doc` against `schema`. */
  function Validate(schema: Schema, doc: Doc): (r: Validated)
    requires WellFormed(schema)
    ensures r.doc.Keys == doc.Keys + SectionNames(schema)
    ensures |r.report| == |schema.sections|
    ensures forall i :: 0 <= i < |schema.sections| ==> r.report[i].name == schema.sections[i].name
  {
    Validated(ValidatedDoc(schema, doc), Report(schema, doc))
  }

  /** The document after validation: declared sections checked key by key,
      undeclared ones carried over. */
  function ValidatedDoc(schema: Schema, doc: Doc): (r: Doc)
    ensures r.Keys == doc.Keys + SectionNames(schema)
  {
    map s | s in doc.Keys + SectionNames(schema) :: ValidatedAt(schema, doc, s)
  }

  function ValidatedAt(schema: Schema, doc: Doc, s: string): Section
    requires s in doc || s in SectionNames(schema)
  {
    match FindSection(schema.sections, s)
    case Some(ss) => ValidateSection(ss, SectionOf(doc, s))
    case None => SectionOf(doc, s)
  }

  /** The report of validation: one entry per declared section, in order. */
  function Report(schema: Schema, doc: Doc): (r: seq<SectionCheck>)
    ensures |r| == |schema.sections|
    ensures forall i :: 0 <= i < |schema.sections| ==> r[i].name == schema.sections[i].name
  {
    seq(|schema.sections|, i requires 0 <= i < |schema.sections| =>
      SectionReport(schema.sections[i], SectionOf(doc, schema.sections[i].name)))
  }

  /** The validated section `i` and its entry in the result, as computed section by section. */
  lemma ValidatedSection(schema: Schema, doc: Doc, i: int)
    requires WellFormed(schema)
    requires 0 <= i < |schema.sections|
    ensures schema.sections[i].name in Validate(schema, doc).doc
    ensures Validate(schema, doc).doc[schema.sections[i].name]
         == ValidateSection(schema.sections[i], SectionOf(doc, schema.sections[i].name))
    ensures Validate(schema, doc).report[i]
         == SectionReport(schema.sections[i], SectionOf(doc, schema.sections[i].name))
  {
    var name := schema.sections[i].name;
    assert name in SectionNames(schema);
    var f := FindSection(schema.sections, name);
    var k :| 0 <= k < |schema.sections| && schema.sections[k] == f.value;
    assert k == i;
  }

  /** A declared key of a validated section holds the value its check produced. */
  lemma ValidatedKey(spec: SectionSpec, sec: Section, j: int)
    requires UniqueKeyNames(spec.keys)
    requires 0 <= j < |spec.keys|
    ensures spec.keys[j].name in ValidateSection(spec, sec)
    ensures ValidateSection(spec, sec)[spec.keys[j].name] == CheckKey(spec.keys[j], sec).0
  {
    assert spec.keys[j].name in KeyNames(spec.keys);
  }

  /** Keys a section's declaration does not list keep their value. */
  lemma UndeclaredKeyKept(spec: SectionSpec, sec: Section, k: string)
    requires k in sec && k !in KeyNames(spec.keys)
    ensures k in ValidateSection(spec, sec) && ValidateSection(spec, sec)[k] == sec[k]
  {
  }

  /** After validation every declared key is present, and a key the document
      did not hold receives its default without being reported. */
  lemma ValidateFillsDefaults(schema: Schema, doc: Doc, i: int, j: int)
    requires WellFormed(schema)
    requires 0 <= i < |schema.sections| && 0 <= j < |schema.sections[i].keys|
    requires schema.sections[i].keys[j].name !in SectionOf(doc, schema.sections[i].name)
    ensures var r := Validate(schema, doc);
      && schema.sections[i].name in r.doc
      && schema.sections[i].keys[j].name in r.doc[schema.sections[i].name]
      && r.doc[schema.sections[i].name][schema.sections[i].keys[j].name] == schema.sections[i].keys[j].default
      && (r.report[i].SectionFailed? ==> r.report[i].keys[j] == (schema.sections[i].keys[j].name, Passed))
  {
    ValidatedSection(schema, doc, i);
    ValidatedKey(schema.sections[i], SectionOf(doc, schema.sections[i].name), j);
  }

  /** A declared key the document holds is coerced when its check accepts it;
      otherwise it keeps its value and the section's entry reports exactly that
      key with the type error. */
  lemma ValidateChecksPresentKey(schema: Schema, doc: Doc, i: int, j: int)
    requires WellFormed(schema)
    requires 0 <= i < |schema.sections| && 0 <= j < |schema.sections[i].keys|
    requires schema.sections[i].keys[j].name in SectionOf(doc, schema.sections[i].name)
    ensures var r := Validate(schema, doc);
      var ks := schema.sections[i].keys[j];
      var v := SectionOf(doc, schema.sections[i].name)[ks.name];
      && schema.sections[i].name in r.doc
      && ks.name in r.doc[schema.sections[i].name]
      && (Coerce(ks.kind, v).Some? ==>
            && r.doc[schema.sections[i].name][ks.name] == Coerce(ks.kind, v).value
            && (r.report[i].SectionFailed? ==> r.report[i].keys[j] == (ks.name, Passed)))
      && (Coerce(ks.kind, v).None? ==>
            && r.doc[schema.sections[i].name][ks.name] == v
            && r.report[i].SectionFailed?
            && r.report[i].keys[j] == (ks.name, Failed(WrongType(v))))
  {
    var sec := SectionOf(doc, schema.sections[i].name);
    ValidatedSection(schema, doc, i);
    ValidatedKey(schema.sections[i], sec, j);
    var ks := schema.sections[i].keys[j];
    var checks := KeyChecks(schema.sections[i], sec);
    assert checks[j] == (ks.name, CheckKey(ks, sec).1);
    if Coerce(ks.kind, sec[ks.name]).None? {
      assert !checks[j].1.Passed?;
    }
  }

  /** Sections the schema does not declare, and undeclared keys of declared
      sections, are carried over unchanged. */
  lemma ValidateKeepsUndeclared(schema: Schema, doc: Doc, s: string, k: string)
    requires WellFormed(schema)
    requires s in doc && k in doc[s]
    requires forall i :: 0 <= i < |schema.sections| && schema.sections[i].name == s ==>
               k !in KeyNames(schema.sections[i].keys)
    ensures s in Validate(schema, doc).doc && k in Validate(schema, doc).doc[s]
    ensures Validate(schema, doc).doc[s][k] == doc[s][k]
  {
    var f := FindSection(schema.sections, s);
    if f.Some? {
      var i :| 0 <= i < |schema.sections| && schema.sections[i] == f.value;
      ValidatedSection(schema, doc, i);
      UndeclaredKeyKept(schema.sections[i], doc[s], k);
    }
  }

  /** Every declared section and key is present after validation. */
  lemma ValidateComplete(schema: Schema, doc: Doc)
    requires WellFormed(schema)
    ensures Complete(schema, Validate(schema, doc).doc)
  {
    forall i, j | 0 <= i < |schema.sections| && 0 <= j < |schema.sections[i].keys|
      ensures schema.sections[i].name in Validate(schema, doc).doc
      ensures schema.sections[i].keys[j].name in Validate(schema, doc).doc[schema.sections[i].name]
    {
      ValidatedSection(schema, doc, i);
      ValidatedKey(schema.sections[i], SectionOf(doc, schema.sections[i].name), j);
    }
  }

  /** The value a declared key holds before validation is accepted by its check. */
  predicate Acceptable(ks: KeySpec, sec: Section) {
    ks.name in sec ==> Coerce(ks.kind, sec[ks.name]).Some?
  }

  /** A key passes its check exactly when its value, if present, is acceptable. */
  lemma CheckKeyPassedIff(ks: KeySpec, sec: Section)
    ensures CheckKey(ks, sec).1.Passed? <==> Acceptable(ks, sec)
  {
  }

  lemma SectionReportPassedIff(spec: SectionSpec, sec: Section)
    ensures SectionReport(spec, sec).SectionPassed? <==>
      forall j :: 0 <= j < |spec.keys| ==> Acceptable(spec.keys[j], sec)
  {
    var checks := KeyChecks(spec, sec);
    forall j | 0 <= j < |spec.keys| ensures checks[j].1.Passed? <==> Acceptable(spec.keys[j], sec) {
      CheckKeyPassedIff(spec.keys[j], sec);
    }
  }

  /** The result is `True` exactly when every declared key the document holds passes its check. */
  lemma ValidatePassedIff(schema: Schema, doc: Doc)
    requires WellFormed(schema)
    ensures AllPassed(Validate(schema, doc).report) <==>
      forall i, j :: 0 <= i < |schema.sections| && 0 <= j < |schema.sections[i].keys| ==>
        Acceptable(schema.sections[i].keys[j], SectionOf(doc, schema.sections[i].name))
  {
    var r := Validate(schema, doc);
    forall i | 0 <= i < |schema.sections|
      ensures r.report[i].SectionPassed? <==>
        forall j :: 0 <= j < |schema.sections[i].keys| ==>
          Acceptable(schema.sections[i].keys[j], SectionOf(doc, schema.sections[i].name))
    {
      ValidatedSection(schema, doc, i);
      SectionReportPassedIff(schema.sections[i], SectionOf(doc, schema.sections[i].name));
    }
  }

  /** A document whose validation passed holds a value of the declared kind under every declared key. */
  lemma ValidatePassedWellTyped(schema: Schema, doc: Doc)
    requires WellFormed(schema)
    ensures AllPassed(Validate(schema, doc).report) ==> WellTyped(schema, Validate(schema, doc).doc)
  {
    ValidateComplete(schema, doc);
    ValidatePassedIff(schema, doc);
    if AllPassed(Validate(schema, doc).report) {
      forall i, j | 0 <= i < |schema.sections| && 0 <= j < |schema.sections[i].keys|
        ensures schema.sections[i].name in Validate(schema, doc).doc
        ensures schema.sections[i].keys[j].name in Validate(schema, doc).doc[schema.sections[i].name]
        ensures HasKind(Validate(schema, doc).doc[schema.sections[i].name][schema.sections[i].keys[j].name],
                        schema.sections[i].keys[j].kind)
      {
        ValidatedSection(schema, doc, i);
        ValidatedKey(schema.sections[i], SectionOf(doc, schema.sections[i].name), j);
      }
    }
  }

  /** A value a check leaves as it is: either of the declared kind, or rejected
      (and then kept unchanged). */
  predicate SettledValue(v: Value, kind: Kind) {
    HasKind(v, kind) || Coerce(kind, v).None?
  }

  /** Complete, and every declared key holds a settled value. */
  predicate Settled(schema: Schema, doc: Doc) {
    && Complete(schema, doc)
    && forall i, j :: 0 <= i < |schema.sections| && 0 <= j < |schema.sections[i].keys| ==>
         && schema.sections[i].name in doc
         && schema.sections[i].keys[j].name in doc[schema.sections[i].name]
         && SettledValue(doc[schema.sections[i].name][schema.sections[i].keys[j].name], schema.sections[i].keys[j].kind)
  }

  lemma WellTypedIsSettled(schema: Schema, doc: Doc)
    requires WellTyped(schema, doc)
    ensures Settled(schema, doc)
  {
  }

  /** A section whose declared keys all hold settled values is left as it is. */
  lemma ValidateSectionFixedPoint(spec: SectionSpec, sec: Section)
    requires UniqueKeyNames(spec.keys)
    requires forall j :: 0 <= j < |spec.keys| ==> spec.keys[j].name in sec && SettledValue(sec[spec.keys[j].name], spec.keys[j].kind)
    ensures ValidateSection(spec, sec) == sec
  {
    var v := ValidateSection(spec, sec);
    assert KeyNames(spec.keys) <= sec.Keys;
    forall k | k in sec ensures v[k] == sec[k] {
      if k in KeyNames(spec.keys) {
        var j :| 0 <= j < |spec.keys| && spec.keys[j].name == k;
        ValidatedKey(spec, sec, j);
      }
    }
  }

  /** A section the schema does not declare is carried over as it is. */
  lemma UndeclaredSectionKept(schema: Schema, doc: Doc, s: string)
    requires WellFormed(schema)
    requires s in doc && s !in SectionNames(schema)
    ensures s in Validate(schema, doc).doc && Validate(schema, doc).doc[s] == doc[s]
  {
    assert FindSection(schema.sections, s).None?;
  }

  lemma ValidateFixedPointAt(schema: Schema, doc: Doc, s: string)
    requires WellFormed(schema)
    requires Settled(schema, doc)
    requires s in doc
    ensures s in Validate(schema, doc).doc && Validate(schema, doc).doc[s] == doc[s]
  {
    var f := FindSection(schema.sections, s);
    if f.Some? {
      var i :| 0 <= i < |schema.sections| && schema.sections[i] == f.value;
      ValidatedSection(schema, doc, i);
      ValidateSectionFixedPoint(schema.sections[i], doc[s]);
    } else {
      UndeclaredSectionKept(schema, doc, s);
    }
  }

  /** Validation leaves a settled document as it is: re-validating before a
      save changes nothing in a document that was validated before. */
  lemma ValidateSettledFixedPoint(schema: Schema, doc: Doc)
    requires WellFormed(schema)
    ensures Settled(schema, doc) ==> Validate(schema, doc).doc == doc
  {
    if !Settled(schema, doc) { return; }
    var r := Validate(schema, doc);
    assert r.doc.Keys == doc.Keys by {
      assert SectionNames(schema) <= doc.Keys;
    }
    forall s | s in doc ensures r.doc[s] == doc[s] {
      ValidateFixedPointAt(schema, doc, s);
    }
  }

  /** Validating a well-typed document changes nothing and reports nothing. */
  lemma ValidateFixedPoint(schema: Schema, doc: Doc)
    requires WellFormed(schema)
    requires WellTyped(schema, doc)
    ensures Validate(schema, doc).doc == doc
    ensures AllPassed(Validate(schema, doc).report)
  {
    WellTypedIsSettled(schema, doc);
    ValidateSettledFixedPoint(schema, doc);
    ValidatePassedIff(schema, doc);
  }

  /** Every validated document is settled. */
  lemma ValidateSettles(schema: Schema, doc: Doc)
    requires WellFormed(schema)
    ensures Settled(schema, Validate(schema, doc).doc)
  {
    var r := Validate(schema, doc);
    ValidateComplete(schema, doc);
    forall i, j | 0 <= i < |schema.sections| && 0 <= j < |schema.sections[i].keys|
      ensures SettledValue(r.doc[schema.sections[i].name][schema.sections[i].keys[j].name], schema.sections[i].keys[j].kind)
    {
      ValidatedSection(schema, doc, i);
      ValidatedKey(schema.sections[i], SectionOf(doc, schema.sections[i].name), j);
    }
  }

  /** Validation is idempotent. */
  lemma ValidateIdempotent(schema: Schema, doc: Doc)
    requires WellFormed(schema)
    ensures Validate(schema, Validate(schema, doc).doc).doc == Validate(schema, doc).doc
  {
    ValidateSettles(schema, doc);
    ValidateSettledFixedPoint(schema, Validate(schema, doc).doc);
  }

  /** A boolean value survives validation whatever its key is declared as:
      a boolean check accepts it, a string check rejects it and keeps it. */
  lemma ValidateKeepsBool(schema: Schema, doc: Doc, s: string, k: string)
    requires WellFormed(schema)
    requires s in doc && k in doc[s] && doc[s][k].Bool?
    ensures s in Validate(schema, doc).doc && k in Validate(schema, doc).doc[s]
    ensures Validate(schema, doc).doc[s][k] == doc[s][k]
  {
    var f := FindSection(schema.sections, s);
    assert Validate(schema, doc).doc[s] == ValidatedAt(schema, doc, s);
    if f.Some? {
      SectionKeepsBool(f.value, doc[s], k);
    }
  }

  /** Within one section: a boolean survives its key's check, or is kept as an undeclared key. */
  lemma SectionKeepsBool(spec: SectionSpec, sec: Section, k: string)
    requires UniqueKeyNames(spec.keys)
    requires k in sec && sec[k].Bool?
    ensures k in ValidateSection(spec, sec) && ValidateSection(spec, sec)[k] == sec[k]
  {
    var f := FindKey(spec.keys, k);
    if f.Some? {
      assert ValidateSection(spec, sec)[k] == CheckKey(f.value, sec).0;
    }
  }

  /** Validating an empty document passes and yields a well-typed document. */
  lemma ValidateEmptyPasses(schema: Schema)
    requires WellFormed(schema)
    ensures AllPassed(Validate(schema, map[]).report)
    ensures WellTyped(schema, Validate(schema, map[]).doc)
  {
    ValidatePassedIff(schema, map[]);
    ValidatePassedWellTyped(schema, map[]);
  }

  /** Validating an empty document yields exactly the declared sections and
      keys, each key holding its default. */
  lemma ValidateEmptyDefaults(schema: Schema)
    requires WellFormed(schema)
    ensures var r := Validate(schema, map[]);
      && r.doc.Keys == SectionNames(schema)
      && (forall i :: 0 <= i < |schema.sections| ==>
            r.doc[schema.sections[i].name].Keys == KeyNames(schema.sections[i].keys))
      && (forall i, j :: 0 <= i < |schema.sections| && 0 <= j < |schema.sections[i].keys| ==>
            r.doc[schema.sections[i].name][schema.sections[i].keys[j].name] == schema.sections[i].keys[j].default)
  {
    var empty: Doc := map[];
    var r := Validate(schema, empty);
    forall i | 0 <= i < |schema.sections|
      ensures schema.sections[i].name in r.doc
      ensures r.doc[schema.sections[i].name].Keys == KeyNames(schema.sections[i].keys)
    {
      ValidatedSection(schema, empty, i);
    }
    forall i, j | 0 <= i < |schema.sections| && 0 <= j < |schema.sections[i].keys|
      ensures schema.sections[i].keys[j].name in r.doc[schema.sections[i].name]
      ensures r.doc[schema.sections[i].name][schema.sections[i].keys[j].name] == schema.sections[i].keys[j].default
    {
      ValidateFillsDefaults(schema, empty, i, j);
    }
  }
}
