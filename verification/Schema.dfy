/** Schemas of Go types (schema.go): what the schema of a type is, and which struct types it reaches. */
module Schema {
  import opened Wrappers
  import Text

  /** A Go type as far as schemas see it; a byte is an integer of its own, since slices of bytes are encoded in
      their own way. A named struct is a leaf; its fields stand in the environment, and so types may be recursive. */
  datatype Type =
    | StringType | BoolType | ByteType | IntegerType | NumberType | TimeType | OtherType
    | Pointer(elem: Type)
    | Slice(elem: Type)
    | Array(elem: Type)
    | MapOf(elem: Type)
    | Struct(fields: seq<Field>)
    | Named(name: string)

  datatype Field = Field(name: string, exported: bool, jsonTag: string, fieldType: Type)

  /** The named struct types of the program. */
  type Env = map<string, seq<Field>>

  datatype Schema = Schema(
    ref: string,
    kind: string,
    format: string,
    properties: map<string, Schema>,
    required: seq<string>,
    items: Option<Schema>,
    additionalProperties: Option<Schema>)

  /** The empty schema, which also reserves the name of a struct that is being described. */
  const BLANK := Schema("", "", "", map[], [], None, None)

  function Simple(kind: string): Schema { BLANK.(kind := kind) }

  const REF_PREFIX := "#/components/schemas/"

  function RefTo(name: string): Schema { BLANK.(ref := REF_PREFIX + name) }

  // ---- fields ----

  /** The JSON name and the omitempty flag of a field. */
  function JsonField(f: Field): (string, bool) {
    if f.jsonTag == "" then (f.name, false)
    else
      var parts := Text.Split(f.jsonTag, ',');
      (if parts[0] == "" then f.name else parts[0], "omitempty" in parts[1..])
  }

  /** Fields that appear in the schema. */
  predicate Visible(f: Field) { f.exported && JsonField(f).0 != "-" }

  predicate IsRequired(f: Field) { Visible(f) && !JsonField(f).1 && !f.fieldType.Pointer? }

  // ---- the schema of a type ----

  function Describe(t: Type): Schema
    decreases t
  {
    match t
    case StringType => Simple("string")
    case BoolType => Simple("boolean")
    case ByteType => Simple("integer")
    case IntegerType => Simple("integer")
    case NumberType => Simple("number")
    case TimeType => Simple("string").(format := "date-time")
    case OtherType => BLANK
    case Pointer(elem) => Describe(elem)
    case Slice(elem) => Simple("array").(items := Some(Describe(elem)))
    case Array(elem) => Simple("array").(items := Some(Describe(elem)))
    case MapOf(elem) => Simple("object").(additionalProperties := Some(Describe(elem)))
    case Struct(fields) => Simple("object").(properties := Properties(fields), required := Required(fields))
    case Named(name) => RefTo(name)
  }

  function DescribeStruct(fields: seq<Field>): Schema {
    Simple("object").(properties := Properties(fields), required := Required(fields))
  }

  /** The properties of the visible fields; of two fields with one name the later counts. */
  function Properties(fields: seq<Field>): map<string, Schema>
    decreases fields
  {
    if fields == [] then map[]
    else
      var f := fields[|fields| - 1];
      var before := Properties(fields[..|fields| - 1]);
      if Visible(f) then before[JsonField(f).0 := Describe(f.fieldType)] else before
  }

  function Required(fields: seq<Field>): seq<string> {
    if fields == [] then []
    else
      var f := fields[|fields| - 1];
      Required(fields[..|fields| - 1]) + (if IsRequired(f) then [JsonField(f).0] else [])
  }

  predicate IsProperty(f: Field, name: string) { Visible(f) && JsonField(f).0 == name }

  predicate IsLastProperty(fields: seq<Field>, k: nat, name: string) {
    k < |fields| && IsProperty(fields[k], name) && forall later :: k < later < |fields| ==> !IsProperty(fields[later], name)
  }

  /** What one more field does to the property `name`. */
  lemma LastField(fields: seq<Field>, name: string)
    requires fields != []
    ensures var before, f := Properties(fields[..|fields| - 1]), fields[|fields| - 1];
      && (name in Properties(fields) <==> name in before || IsProperty(f, name))
      && (name in Properties(fields) ==> Properties(fields)[name] == if IsProperty(f, name) then Describe(f.fieldType) else before[name])
  {
    hide JsonField, Describe;
  }

  /** The properties are the visible fields under their JSON names; of fields with the same name the last
      one gives the schema. */
  lemma {:induction false} PropertiesAreTheVisibleFields(fields: seq<Field>, name: string)
    ensures name in Properties(fields) <==> exists k :: 0 <= k < |fields| && IsProperty(fields[k], name)
    ensures forall k :: 0 <= k < |fields| && IsLastProperty(fields, k, name) ==> Properties(fields)[name] == Describe(fields[k].fieldType)
    decreases |fields|
  {
    hide Properties, IsProperty, Describe;
    if fields != [] {
      var before, f := fields[..|fields| - 1], fields[|fields| - 1];
      PropertiesAreTheVisibleFields(before, name);
      LastField(fields, name);
      assert forall k :: 0 <= k < |before| ==> before[k] == fields[k];
      if IsProperty(f, name) { assert IsProperty(fields[|fields| - 1], name); }
      forall k | 0 <= k < |fields| && IsLastProperty(fields, k, name)
        ensures Properties(fields)[name] == Describe(fields[k].fieldType)
      {
        if k < |before| { assert IsLastProperty(before, k, name) && !IsProperty(f, name); }
      }
    } else {
      assert Properties([]) == map[] by { NoProperties(); }
    }
  }

  lemma NoProperties()
    ensures Properties([]) == map[]
  {}

  /** Exactly the names of required fields are listed as required, and they all are properties. */
  lemma {:induction false} RequiredFieldsAreProperties(fields: seq<Field>, name: string)
    ensures name in Required(fields) <==> exists k :: 0 <= k < |fields| && IsRequired(fields[k]) && JsonField(fields[k]).0 == name
    ensures name in Required(fields) ==> name in Properties(fields)
    decreases |fields|
  {
    if fields != [] {
      var before, f := fields[..|fields| - 1], fields[|fields| - 1];
      RequiredFieldsAreProperties(before, name);
      assert forall k :: 0 <= k < |before| ==> before[k] == fields[k];
      if IsRequired(f) && JsonField(f).0 == name {
        assert fields[|fields| - 1] == f;
      }
    }
  }

  // ---- reachable structs ----

  /** The named structs a type mentions, not counting what those mention in turn. */
  function Mentions(t: Type): set<string>
    decreases t
  {
    match t
    case Pointer(elem) => Mentions(elem)
    case Slice(elem) => Mentions(elem)
    case Array(elem) => Mentions(elem)
    case MapOf(elem) => Mentions(elem)
    case Struct(fields) => FieldMentions(fields)
    case Named(name) => {name}
    case StringType => {}
    case BoolType => {}
    case ByteType => {}
    case IntegerType => {}
    case NumberType => {}
    case TimeType => {}
    case OtherType => {}
  }

  function FieldMentions(fields: seq<Field>): set<string>
    decreases fields
  {
    if fields == [] then {}
    else
      var f := fields[|fields| - 1];
      FieldMentions(fields[..|fields| - 1]) + (if Visible(f) then Mentions(f.fieldType) else {})
  }

  /** Every struct that is mentioned is a struct of the program. */
  predicate WellScoped(env: Env) { forall name :: name in env ==> FieldMentions(env[name]) <= env.Keys }

  type Components = map<string, Schema>

  /** A chain of structs, the first one of `roots` and each mentioned by the one before. */
  predicate Path(env: Env, roots: set<string>, path: seq<string>)
    decreases |path|
  {
    && path != [] && path[0] in roots
    && (|path| == 1 || (path[0] in env && Path(env, FieldMentions(env[path[0]]), path[1..])))
  }

  ghost predicate Reachable(env: Env, roots: set<string>, name: string) {
    exists path :: Path(env, roots, path) && path[|path| - 1] == name
  }

  /** A component that is described, and whose own structs have components. */
  predicate Described(env: Env, components: Components, name: string) {
    name in components && name in env && components[name] == DescribeStruct(env[name]) && FieldMentions(env[name]) <= components.Keys
  }

  /** Reference-closed components: all are described. */
  predicate Closed(env: Env, components: Components) {
    forall name :: name in components ==> Described(env, components, name)
  }

  /** What describing types with the mentions `roots` does to the components: old ones stay as they are,
      all of `roots` are there, and every new one is described and reachable from `roots`. */
  ghost predicate Grown(env: Env, before: Components, after: Components, roots: set<string>) {
    && (forall name :: name in before ==> name in after && after[name] == before[name])
    && roots <= after.Keys
    && (forall name :: name in after && name !in before ==> Described(env, after, name) && Reachable(env, roots, name))
  }

  lemma ReachableRoot(env: Env, roots: set<string>, name: string)
    requires name in roots
    ensures Reachable(env, roots, name)
  {
    assert Path(env, roots, [name]);
  }

  lemma ReachableMore(env: Env, roots: set<string>, more: set<string>, name: string)
    requires Reachable(env, roots, name) && roots <= more
    ensures Reachable(env, more, name)
  {
    var path :| Path(env, roots, path) && path[|path| - 1] == name;
    assert Path(env, more, path);
  }

  /** What a struct reaches, its parents reach. */
  lemma ReachableThrough(env: Env, parent: string, name: string)
    requires parent in env && Reachable(env, FieldMentions(env[parent]), name)
    ensures Reachable(env, {parent}, name)
  {
    var path :| Path(env, FieldMentions(env[parent]), path) && path[|path| - 1] == name;
    var longer := [parent] + path;
    assert longer[1..] == path;
    assert Path(env, {parent}, longer) && longer[|longer| - 1] == name;
  }

  /** One description after another. */
  lemma GrownJoin(env: Env, a: Components, b: Components, c: Components, first: set<string>, second: set<string>)
    requires Grown(env, a, b, first) && Grown(env, b, c, second)
    ensures Grown(env, a, c, first + second)
  {
    forall name | name in c && name !in a
      ensures Described(env, c, name) && Reachable(env, first + second, name)
    {
      if name in b {
        ReachableMore(env, first, first + second, name);
      } else {
        ReachableMore(env, second, first + second, name);
      }
    }
  }

  /** A struct that was not there: its name is reserved, its fields are described, and the description
      takes the place of the reservation. */
  lemma GrownStruct(env: Env, before: Components, within: Components, name: string)
    requires name in env && name !in before
    requires Grown(env, before[name := BLANK], within, FieldMentions(env[name]))
    ensures Grown(env, before, within[name := DescribeStruct(env[name])], {name})
  {
    var after := within[name := DescribeStruct(env[name])];
    assert name in within;
    assert after.Keys == within.Keys;
    forall other | other in after && other !in before
      ensures Described(env, after, other) && Reachable(env, {name}, other)
    {
      if other == name {
        ReachableRoot(env, {name}, name);
      } else {
        ReachableThrough(env, name, other);
      }
    }
  }

  // ---- what a whole description gives ----

  /** The structs reachable from `roots` lie in every closed map that has the roots. */
  lemma {:induction false} PathStays(env: Env, components: Components, roots: set<string>, path: seq<string>)
    requires Closed(env, components) && roots <= components.Keys && Path(env, roots, path)
    ensures path[|path| - 1] in components
    decreases |path|
  {
    assert Described(env, components, path[0]);
    if |path| > 1 {
      PathStays(env, components, FieldMentions(env[path[0]]), path[1..]);
    }
  }

  /** From a reference-closed map, describing types adds exactly the structs reachable from them, and the
      map is reference-closed again. */
  lemma DescribesExactlyTheReachable(env: Env, before: Components, after: Components, roots: set<string>)
    requires Closed(env, before) && Grown(env, before, after, roots)
    ensures Closed(env, after)
    ensures forall name :: name in after <==> name in before || Reachable(env, roots, name)
    ensures forall name :: name in before ==> after[name] == before[name]
  {
    forall name | name in after
      ensures Described(env, after, name)
    {
      if name in before { assert Described(env, before, name); }
    }
    forall name | Reachable(env, roots, name)
      ensures name in after
    {
      var path :| Path(env, roots, path) && path[|path| - 1] == name;
      PathStays(env, after, roots, path);
    }
  }

  /** Closed maps with the same names are the same map, so the order in which types are described, and
      what was described before, cannot be seen in the result. */
  lemma ClosedIsCanonical(env: Env, one: Components, other: Components)
    requires Closed(env, one) && Closed(env, other) && one.Keys == other.Keys
    ensures one == other
  {
    forall name | name in one
      ensures one[name] == other[name]
    {
      assert Described(env, one, name) && Described(env, other, name);
    }
  }

  // ---- references ----

  /** All references that occur in a schema. */
  ghost predicate RefersTo(s: Schema, ref: string)
    decreases s
  {
    || (s.ref == ref && ref != "")
    || (s.items.Some? && RefersTo(s.items.value, ref))
    || (s.additionalProperties.Some? && RefersTo(s.additionalProperties.value, ref))
    || exists name :: name in s.properties && RefersTo(s.properties[name], ref)
  }

  /** The references of a schema are those of the structs its type mentions. */
  lemma {:induction false} RefsAreMentions(t: Type, ref: string)
    requires RefersTo(Describe(t), ref)
    ensures exists name :: name in Mentions(t) && ref == REF_PREFIX + name
    decreases t
  {
    match t
    case StringType =>
    case BoolType =>
    case ByteType =>
    case IntegerType =>
    case NumberType =>
    case TimeType =>
    case OtherType =>
    case Pointer(elem) => RefsAreMentions(elem, ref);
    case Slice(elem) => RefsAreMentions(elem, ref);
    case Array(elem) => RefsAreMentions(elem, ref);
    case MapOf(elem) => RefsAreMentions(elem, ref);
    case Struct(fields) => FieldRefsAreMentions(fields, ref);
    case Named(name) => assert name in Mentions(t);
  }

  lemma {:induction false} FieldRefsAreMentions(fields: seq<Field>, ref: string)
    requires RefersTo(DescribeStruct(fields), ref)
    ensures exists name :: name in FieldMentions(fields) && ref == REF_PREFIX + name
    decreases fields
  {
    var property :| property in Properties(fields) && RefersTo(Properties(fields)[property], ref);
    var f, before := fields[|fields| - 1], fields[..|fields| - 1];
    if Visible(f) && property == JsonField(f).0 {
      RefsAreMentions(f.fieldType, ref);
      var name :| name in Mentions(f.fieldType) && ref == REF_PREFIX + name;
      assert name in FieldMentions(fields);
    } else {
      assert property in Properties(before) && Properties(before)[property] == Properties(fields)[property];
      assert RefersTo(DescribeStruct(before), ref);
      FieldRefsAreMentions(before, ref);
      var name :| name in FieldMentions(before) && ref == REF_PREFIX + name;
      assert name in FieldMentions(fields);
    }
  }

  predicate Resolves(components: Components, ref: string) {
    exists name :: name in components && ref == REF_PREFIX + name
  }

  /** In a closed map no reservation is left, and every reference resolves, in the components as in the
      schema of any type whose structs are there. */
  lemma NothingDangles(env: Env, components: Components, t: Type)
    requires Closed(env, components) && Mentions(t) <= components.Keys
    ensures forall name :: name in components ==> components[name] != BLANK
    ensures forall ref :: RefersTo(Describe(t), ref) ==> Resolves(components, ref)
    ensures forall name, ref :: name in components && RefersTo(components[name], ref) ==> Resolves(components, ref)
  {
    forall name | name in components
      ensures components[name] != BLANK
    {
      assert Described(env, components, name);
      assert DescribeStruct(env[name]).kind == "object";
    }
    forall ref | RefersTo(Describe(t), ref)
      ensures Resolves(components, ref)
    {
      RefsAreMentions(t, ref);
    }
    forall name, ref | name in components && RefersTo(components[name], ref)
      ensures Resolves(components, ref)
    {
      assert Described(env, components, name);
      FieldRefsAreMentions(env[name], ref);
    }
  }
}
