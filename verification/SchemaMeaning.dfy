/** What schemas mean: the JSON that a schema accepts, beside the JSON that its type calls for and the JSON that
    package encoding/json prints for values of the type. */
module SchemaMeaning {
  import opened Wrappers
  import opened Schema
  import Text

  datatype Json =
    | Null
    | Bool(b: bool)
    | Number(n: real)
    | String(s: string)
    | List(items: seq<Json>)
    | Object(members: map<string, Json>)

  /** The strings that are date-times by RFC 3339; the theorems hold for any such notion. */
  type TimeFormat = string -> bool

  predicate Integral(j: Json) { j.Number? && j.n.Floor as real == j.n }

  // ---- what a schema accepts ----

  predicate HasKind(kind: string, j: Json) {
    || (kind == "string" && j.String?)
    || (kind == "boolean" && j.Bool?)
    || (kind == "integer" && Integral(j))
    || (kind == "number" && j.Number?)
    || (kind == "array" && j.List?)
    || (kind == "object" && j.Object?)
  }

  /** JSON Schema, as far as these schemas use it: a reference stands for the component it names, and an absent
      keyword asks for nothing. */
  ghost predicate Conforms(components: Components, isTime: TimeFormat, s: Schema, j: Json)
    decreases j, if s.ref != "" then 1 else 0
  {
    if s.ref != "" then
      exists name ::
        name in components && s.ref == "#/components/schemas/" + name && components[name].ref == ""
        && Conforms(components, isTime, components[name], j)
    else
      && (s.kind != "" ==> HasKind(s.kind, j))
      && (s.format == "date-time" && j.String? ==> isTime(j.s))
      && (s.items.Some? && j.List? ==> forall k :: 0 <= k < |j.items| ==> Conforms(components, isTime, s.items.value, j.items[k]))
      && (j.Object? ==> forall name :: name in s.required ==> name in j.members)
      && (j.Object? ==> forall name :: name in j.members && name in s.properties ==>
            Conforms(components, isTime, s.properties[name], j.members[name]))
      && (s.additionalProperties.Some? && j.Object? ==> forall name :: name in j.members && name !in s.properties ==>
            Conforms(components, isTime, s.additionalProperties.value, j.members[name]))
  }

  // ---- tags ----

  /** The text before the first comma. */
  function Head(s: string): string {
    if s == "" || s[0] == ',' then "" else [s[0]] + Head(s[1..])
  }

  /** The member name of a field: what its tag begins with, or its own name. */
  function Key(f: Field): string { if Head(f.jsonTag) == "" then f.name else Head(f.jsonTag) }

  /** One of the tag's comma-separated options is `opt`. */
  ghost predicate HasOption(tag: string, opt: string) {
    exists i :: 0 <= i < |tag| && OptionAt(tag, opt, i)
  }

  predicate OptionAt(tag: string, opt: string, i: nat)
    requires i < |tag|
  {
    tag[i] == ',' && Head(tag[i + 1..]) == opt
  }

  lemma {:induction false} PartsOfTag(tag: string, opt: string)
    ensures Text.Split(tag, ',')[0] == Head(tag)
    ensures opt in Text.Split(tag, ',')[1..] <==> HasOption(tag, opt)
  {
    if tag != "" {
      var rest := Text.Split(tag[1..], ',');
      PartsOfTag(tag[1..], opt);
      OptionBehind(tag, opt);
      if tag[0] == ',' {
        assert ([""] + rest)[1..] == rest;
        assert opt in rest <==> opt == rest[0] || opt in rest[1..] by { assert rest == [rest[0]] + rest[1..]; }
      } else {
        assert ([[tag[0]] + rest[0]] + rest[1..])[1..] == rest[1..];
      }
    }
  }

  lemma OptionBehind(tag: string, opt: string)
    requires tag != ""
    ensures HasOption(tag, opt) <==> OptionAt(tag, opt, 0) || HasOption(tag[1..], opt)
  {
    if i :| 0 <= i < |tag[1..]| && OptionAt(tag[1..], opt, i) {
      assert tag[1..][i + 1..] == tag[i + 2..];
      assert OptionAt(tag, opt, i + 1);
    }
    if i :| 0 <= i < |tag| && OptionAt(tag, opt, i) {
      if i > 0 {
        assert tag[1..][i - 1 + 1..] == tag[i + 1..];
        assert OptionAt(tag[1..], opt, i - 1);
      }
    }
  }

  /** The generator reads the member name and the omitempty option off the tag. */
  lemma TagIsRead(f: Field)
    ensures JsonField(f).0 == Key(f)
    ensures JsonField(f).1 <==> HasOption(f.jsonTag, "omitempty")
  {
    PartsOfTag(f.jsonTag, "omitempty");
  }

  // ---- what a type calls for ----

  /** A field that the schema shows. */
  predicate Shown(f: Field) { f.exported && Key(f) != "-" }

  ghost predicate Needed(f: Field) { Shown(f) && !HasOption(f.jsonTag, "omitempty") && !f.fieldType.Pointer? }

  /** The last field that is shown under its name. */
  predicate LastShown(fields: seq<Field>, k: nat) {
    k < |fields| && Shown(fields[k])
    && forall later :: k < later < |fields| ==> !(Shown(fields[later]) && Key(fields[later]) == Key(fields[k]))
  }

  /** JSON of the form that type `t` calls for. */
  ghost predicate Fits(env: Env, isTime: TimeFormat, t: Type, j: Json)
    decreases j, 1, t
  {
    match t
    case StringType => j.String?
    case BoolType => j.Bool?
    case ByteType => Integral(j)
    case IntegerType => Integral(j)
    case NumberType => j.Number?
    case TimeType => j.String? && isTime(j.s)
    case OtherType => true
    case Pointer(elem) => Fits(env, isTime, elem, j)
    case Slice(elem) => j.List? && forall k :: 0 <= k < |j.items| ==> Fits(env, isTime, elem, j.items[k])
    case Array(elem) => j.List? && forall k :: 0 <= k < |j.items| ==> Fits(env, isTime, elem, j.items[k])
    case MapOf(elem) => j.Object? && forall name :: name in j.members ==> Fits(env, isTime, elem, j.members[name])
    case Struct(fields) => MembersFit(env, isTime, fields, j)
    case Named(name) => name in env && MembersFit(env, isTime, env[name], j)
  }

  /** An object with all needed members, and every member that a field is shown under of that field's type. */
  ghost predicate MembersFit(env: Env, isTime: TimeFormat, fields: seq<Field>, j: Json)
    decreases j, 0
  {
    && j.Object?
    && (forall k :: 0 <= k < |fields| && Needed(fields[k]) ==> Key(fields[k]) in j.members)
    && (forall k :: 0 <= k < |fields| && LastShown(fields, k) && Key(fields[k]) in j.members ==>
         Fits(env, isTime, fields[k].fieldType, j.members[Key(fields[k])]))
  }

  // ---- the schema accepts exactly what the type calls for ----

  /** The schema of a type, with its components, accepts exactly the JSON of the form the type calls for. */
  lemma {:induction false} AcceptsExactly(env: Env, components: Components, isTime: TimeFormat, t: Type, j: Json)
    requires Closed(env, components) && Mentions(t) <= components.Keys
    ensures Conforms(components, isTime, Describe(t), j) <==> Fits(env, isTime, t, j)
    decreases j, 1, t
  {
    hide Closed, HasKind;
    match t
    case StringType => Kinds(j);
    case BoolType => Kinds(j);
    case ByteType => Kinds(j);
    case IntegerType => Kinds(j);
    case NumberType => Kinds(j);
    case TimeType => Kinds(j);
    case OtherType =>
    case Pointer(elem) => AcceptsExactly(env, components, isTime, elem, j);
    case Slice(elem) => Kinds(j); if j.List? { ItemsAccepted(env, components, isTime, elem, j); }
    case Array(elem) => Kinds(j); if j.List? { ItemsAccepted(env, components, isTime, elem, j); }
    case MapOf(elem) => Kinds(j); if j.Object? { ValuesAccepted(env, components, isTime, elem, j); }
    case Struct(fields) => MembersAccepted(env, components, isTime, fields, j);
    case Named(name) =>
      ComponentOf(env, components, name);
      MembersAccepted(env, components, isTime, env[name], j);
      ResolvesTo(components, isTime, name, j);
  }

  lemma Kinds(j: Json)
    ensures HasKind("string", j) == j.String? && HasKind("boolean", j) == j.Bool?
    ensures HasKind("integer", j) == Integral(j) && HasKind("number", j) == j.Number?
    ensures HasKind("array", j) == j.List? && HasKind("object", j) == j.Object?
  {}

  lemma ComponentOf(env: Env, components: Components, name: string)
    requires Closed(env, components) && name in components
    ensures name in env && components[name] == DescribeStruct(env[name]) && FieldMentions(env[name]) <= components.Keys
  {
    assert Described(env, components, name);
  }

  /** A reference to a described struct is accepted as its component is. */
  lemma ResolvesTo(components: Components, isTime: TimeFormat, name: string, j: Json)
    requires name in components && components[name].ref == ""
    ensures Conforms(components, isTime, RefTo(name), j) <==> Conforms(components, isTime, components[name], j)
  {
    var ref := RefTo(name).ref;
    assert ref != "";
    forall other | ref == "#/components/schemas/" + other
      ensures other == name
    {
      assert ref[|REF_PREFIX|..] == other && ref[|REF_PREFIX|..] == name;
    }
  }

  lemma {:induction false} ItemsAccepted(env: Env, components: Components, isTime: TimeFormat, elem: Type, j: Json)
    requires Closed(env, components) && Mentions(elem) <= components.Keys && j.List?
    ensures forall k :: 0 <= k < |j.items| ==>
      (Conforms(components, isTime, Describe(elem), j.items[k]) <==> Fits(env, isTime, elem, j.items[k]))
    decreases j, 0
  {
    hide Closed, Conforms, Fits, Describe;
    forall k | 0 <= k < |j.items|
      ensures Conforms(components, isTime, Describe(elem), j.items[k]) <==> Fits(env, isTime, elem, j.items[k])
    {
      AcceptsExactly(env, components, isTime, elem, j.items[k]);
    }
  }

  lemma {:induction false} ValuesAccepted(env: Env, components: Components, isTime: TimeFormat, elem: Type, j: Json)
    requires Closed(env, components) && Mentions(elem) <= components.Keys && j.Object?
    ensures forall name :: name in j.members ==>
      (Conforms(components, isTime, Describe(elem), j.members[name]) <==> Fits(env, isTime, elem, j.members[name]))
    decreases j, 0
  {
    hide Closed, Conforms, Fits, Describe;
    forall name | name in j.members
      ensures Conforms(components, isTime, Describe(elem), j.members[name]) <==> Fits(env, isTime, elem, j.members[name])
    {
      AcceptsExactly(env, components, isTime, elem, j.members[name]);
    }
  }

  lemma {:induction false} MembersAccepted(env: Env, components: Components, isTime: TimeFormat, fields: seq<Field>, j: Json)
    requires Closed(env, components) && FieldMentions(fields) <= components.Keys
    ensures Conforms(components, isTime, DescribeStruct(fields), j) <==> MembersFit(env, isTime, fields, j)
    decreases j, 0
  {
    hide Closed, HasKind, Conforms, Fits, Describe, DescribeStruct, Properties, Required;
    Kinds(j);
    StructConforms(components, isTime, fields, j);
    if j.Object? {
      RequiredAreNeeded(fields, j.members.Keys);
      forall k | 0 <= k < |fields| && LastShown(fields, k) && Key(fields[k]) in j.members
        ensures Conforms(components, isTime, Describe(fields[k].fieldType), j.members[Key(fields[k])])
          <==> Fits(env, isTime, fields[k].fieldType, j.members[Key(fields[k])])
      {
        MentionedByField(fields, k);
        AcceptsExactly(env, components, isTime, fields[k].fieldType, j.members[Key(fields[k])]);
      }
      PropertiesAccepted(components, isTime, fields, j);
    }
  }

  /** The schema of a struct, keyword by keyword. */
  lemma StructConforms(components: Components, isTime: TimeFormat, fields: seq<Field>, j: Json)
    ensures Conforms(components, isTime, DescribeStruct(fields), j) <==>
      && HasKind("object", j)
      && (j.Object? ==> forall name :: name in Required(fields) ==> name in j.members)
      && (j.Object? ==> PropertiesConform(components, isTime, fields, j))
  {
    hide HasKind, Properties, Required;
  }

  ghost predicate PropertiesConform(components: Components, isTime: TimeFormat, fields: seq<Field>, j: Json)
    requires j.Object?
  {
    forall name :: name in j.members && name in Properties(fields) ==>
      Conforms(components, isTime, Properties(fields)[name], j.members[name])
  }

  lemma RequiredAreNeeded(fields: seq<Field>, names: set<string>)
    ensures (forall name :: name in Required(fields) ==> name in names) <==>
      forall k :: 0 <= k < |fields| && Needed(fields[k]) ==> Key(fields[k]) in names
  {
    hide Required, JsonField, HasOption;
    forall k | 0 <= k < |fields|
      ensures IsRequired(fields[k]) <==> Needed(fields[k])
      ensures JsonField(fields[k]).0 == Key(fields[k])
    {
      TagIsRead(fields[k]);
    }
    forall name
      ensures name in Required(fields) <==> exists k :: 0 <= k < |fields| && IsRequired(fields[k]) && JsonField(fields[k]).0 == name
    {
      RequiredFieldsAreProperties(fields, name);
    }
  }

  /** The properties are those of the fields that are shown last under their names. */
  lemma PropertiesAccepted(components: Components, isTime: TimeFormat, fields: seq<Field>, j: Json)
    requires j.Object?
    ensures PropertiesConform(components, isTime, fields, j) <==>
      forall k :: 0 <= k < |fields| && LastShown(fields, k) && Key(fields[k]) in j.members ==>
        Conforms(components, isTime, Describe(fields[k].fieldType), j.members[Key(fields[k])])
  {
    hide Conforms, Properties, Describe;
    forall k | 0 <= k < |fields| && LastShown(fields, k)
      ensures Key(fields[k]) in Properties(fields) && Properties(fields)[Key(fields[k])] == Describe(fields[k].fieldType)
    {
      LastIsProperty(fields, k);
    }
    forall name | name in Properties(fields)
      ensures exists k :: 0 <= k < |fields| && LastShown(fields, k) && Key(fields[k]) == name
    {
      var k := SomeLast(fields, name);
    }
  }

  lemma LastIsProperty(fields: seq<Field>, k: nat)
    requires LastShown(fields, k)
    ensures Key(fields[k]) in Properties(fields) && Properties(fields)[Key(fields[k])] == Describe(fields[k].fieldType)
  {
    hide Properties, Describe, JsonField;
    forall i | 0 <= i < |fields|
      ensures IsProperty(fields[i], Key(fields[k])) <==> Shown(fields[i]) && Key(fields[i]) == Key(fields[k])
    {
      TagIsRead(fields[i]);
    }
    PropertiesAreTheVisibleFields(fields, Key(fields[k]));
    assert IsLastProperty(fields, k, Key(fields[k]));
  }

  lemma SomeLast(fields: seq<Field>, name: string) returns (k: nat)
    requires name in Properties(fields)
    ensures LastShown(fields, k) && Key(fields[k]) == name
  {
    hide Properties, JsonField;
    PropertiesAreTheVisibleFields(fields, name);
    var i :| 0 <= i < |fields| && IsProperty(fields[i], name);
    TagIsRead(fields[i]);
    k := LastFrom(fields, i);
  }

  lemma {:induction false} LastFrom(fields: seq<Field>, i: nat) returns (k: nat)
    requires i < |fields| && Shown(fields[i])
    ensures LastShown(fields, k) && Key(fields[k]) == Key(fields[i])
    decreases |fields| - i
  {
    if later :| i < later < |fields| && Shown(fields[later]) && Key(fields[later]) == Key(fields[i]) {
      k := LastFrom(fields, later);
    } else {
      k := i;
    }
  }

  lemma {:induction false} MentionedByField(fields: seq<Field>, k: nat)
    requires k < |fields| && Shown(fields[k])
    ensures Mentions(fields[k].fieldType) <= FieldMentions(fields)
    decreases |fields|
  {
    if k < |fields| - 1 {
      MentionedByField(fields[..|fields| - 1], k);
    } else {
      TagIsRead(fields[k]);
    }
  }

  /** So does what the generator returns and leaves in its components, whatever was described before. */
  lemma GeneratedAcceptsExactly(env: Env, before: Components, after: Components, isTime: TimeFormat, t: Type, j: Json)
    requires Closed(env, before) && Grown(env, before, after, Mentions(t))
    ensures Conforms(after, isTime, Describe(t), j) <==> Fits(env, isTime, t, j)
  {
    hide Closed, Conforms, Fits, Describe;
    DescribesExactlyTheReachable(env, before, after, Mentions(t));
    AcceptsExactly(env, after, isTime, t, j);
  }

  // ---- references ----

  /** A struct that the type mentions outside of members that a later one of the same name replaces. */
  ghost predicate Kept(t: Type, name: string)
    decreases t
  {
    match t
    case Pointer(elem) => Kept(elem, name)
    case Slice(elem) => Kept(elem, name)
    case Array(elem) => Kept(elem, name)
    case MapOf(elem) => Kept(elem, name)
    case Struct(fields) => exists k :: 0 <= k < |fields| && LastShown(fields, k) && Kept(fields[k].fieldType, name)
    case Named(own) => own == name
    case _ => false
  }

  /** The references of a schema are exactly those of the structs that its type mentions and keeps. */
  lemma {:induction false} RefsAreKept(t: Type, name: string)
    ensures RefersTo(Describe(t), "#/components/schemas/" + name) <==> Kept(t, name)
    decreases t
  {
    var ref := "#/components/schemas/" + name;
    assert ref == REF_PREFIX + name;
    match t
    case StringType =>
    case BoolType =>
    case ByteType =>
    case IntegerType =>
    case NumberType =>
    case TimeType =>
    case OtherType =>
    case Pointer(elem) => RefsAreKept(elem, name);
    case Slice(elem) => RefsAreKept(elem, name);
    case Array(elem) => RefsAreKept(elem, name);
    case MapOf(elem) => RefsAreKept(elem, name);
    case Struct(fields) =>
      forall k | 0 <= k < |fields|
        ensures RefersTo(Describe(fields[k].fieldType), ref) <==> Kept(fields[k].fieldType, name)
      {
        RefsAreKept(fields[k].fieldType, name);
      }
      RefsOfFields(fields, ref);
    case Named(own) =>
      assert (REF_PREFIX + own)[|REF_PREFIX|..] == own && ref[|REF_PREFIX|..] == name;
  }

  lemma RefsOfFields(fields: seq<Field>, ref: string)
    requires ref != ""
    ensures RefersTo(DescribeStruct(fields), ref) <==>
      exists k :: 0 <= k < |fields| && LastShown(fields, k) && RefersTo(Describe(fields[k].fieldType), ref)
  {
    hide Properties, Describe, LastShown, DescribeStruct, RefersTo;
    RefsOfStruct(fields, ref);
    if k :| 0 <= k < |fields| && LastShown(fields, k) && RefersTo(Describe(fields[k].fieldType), ref) {
      LastIsProperty(fields, k);
    }
    if name :| name in Properties(fields) && RefersTo(Properties(fields)[name], ref) {
      var k := SomeLast(fields, name);
      KnownIndex(fields, k);
      LastIsProperty(fields, k);
    }
  }

  lemma KnownIndex(fields: seq<Field>, k: nat)
    requires LastShown(fields, k)
    ensures k < |fields|
  {}

  ghost predicate SomeRefers(properties: map<string, Schema>, ref: string) {
    exists name :: name in properties && RefersTo(properties[name], ref)
  }

  lemma RefsOfProperties(s: Schema, ref: string)
    requires ref != "" && s.ref == "" && s.items.None? && s.additionalProperties.None?
    ensures RefersTo(s, ref) <==> SomeRefers(s.properties, ref)
  {}

  lemma RefsOfStruct(fields: seq<Field>, ref: string)
    requires ref != ""
    ensures RefersTo(DescribeStruct(fields), ref) <==> SomeRefers(Properties(fields), ref)
  {
    hide Properties, Required, RefersTo, SomeRefers;
    RefsOfProperties(DescribeStruct(fields), ref);
  }
}
