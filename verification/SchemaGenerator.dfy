/** `schemaGen` (schema.go): the depth-first search over the types with its shared components. */
module SchemaGenerator {
  import opened Wrappers
  import opened Schema
  import Text

  /** The JSON name of a field and its omitempty flag. */
  method FindJsonField(f: Field) returns (name: string, omitempty: bool)
    ensures (name, omitempty) == JsonField(f)
  {
    if f.jsonTag == "" {
      return f.name, false;
    }
    var parts := Text.Split(f.jsonTag, ',');
    name, omitempty := parts[0], false;
    if name == "" {
      name := f.name;
    }
    var k := 1;
    while k < |parts|
      invariant 1 <= k <= |parts|
      invariant omitempty <==> "omitempty" in parts[1..k]
    {
      if parts[k] == "omitempty" {
        omitempty := true;
      }
      k := k + 1;
    }
    assert parts[1..k] == parts[1..];
  }

  /** Unwraps pointers. */
  method Deref(t: Type) returns (r: Type)
    ensures !r.Pointer? && Describe(r) == Describe(t) && Mentions(r) == Mentions(t)
    ensures r == t || r < t
  {
    r := t;
    while r.Pointer?
      invariant Describe(r) == Describe(t) && Mentions(r) == Mentions(t)
      invariant r == t || r < t
      decreases r
    {
      r := r.elem;
    }
  }

  /** Structs of the program that have no component yet. */
  ghost function Missing(env: Env, components: Components): nat { |env.Keys - components.Keys| }

  lemma MissingShrinks(env: Env, before: Components, after: Components)
    requires before.Keys <= after.Keys
    ensures Missing(env, after) <= Missing(env, before)
    ensures (exists name :: name in env && name in after && name !in before) ==> Missing(env, after) < Missing(env, before)
  {
    assert env.Keys - after.Keys <= env.Keys - before.Keys;
    if name :| name in env && name in after && name !in before {
      assert name in env.Keys - before.Keys;
      SmallerSet(env.Keys - after.Keys, env.Keys - before.Keys, name);
    }
    SubsetSize(env.Keys - after.Keys, env.Keys - before.Keys);
  }

  lemma {:induction false} SubsetSize(a: set<string>, b: set<string>)
    requires a <= b
    ensures |a| <= |b|
  {
    if x :| x in a {
      SubsetSize(a - {x}, b - {x});
    }
  }

  lemma SmallerSet(a: set<string>, b: set<string>, x: string)
    requires a <= b && x in b && x !in a
    ensures |a| < |b|
  {
    SubsetSize(a, b - {x});
  }

  class SchemaGen {
    const env: Env
    var components: Components

    constructor (env: Env)
      ensures this.env == env && components == map[]
    {
      this.env, components := env, map[];
    }

    /** The schema of `t`; the structs it reaches get their components. */
    method SchemaFor(t: Type) returns (s: Schema)
      requires WellScoped(env) && Mentions(t) <= env.Keys
      modifies this
      ensures s == Describe(t) && Grown(env, old(components), components, Mentions(t))
      decreases Missing(env, components), t, 1
    {
      hide Grown, FieldMentions;
      NothingGrown(env, components);
      var u := Deref(t);
      match u {
        case StringType => s := Simple("string");
        case BoolType => s := Simple("boolean");
        case ByteType => s := Simple("integer");
        case IntegerType => s := Simple("integer");
        case NumberType => s := Simple("number");
        case TimeType => s := Simple("string").(format := "date-time");
        case OtherType => s := BLANK;
        case Slice(elem) =>
          var items := SchemaFor(elem);
          s := Simple("array").(items := Some(items));
        case Array(elem) =>
          var items := SchemaFor(elem);
          s := Simple("array").(items := Some(items));
        case MapOf(elem) =>
          var values := SchemaFor(elem);
          s := Simple("object").(additionalProperties := Some(values));
        case Struct(fields) =>
          s := StructSchema(fields);
        case Named(name) =>
          AddComponent(name);
          s := RefTo(name);
      }
    }

    /** The component of a named struct is there. */
    method AddComponent(name: string)
      requires WellScoped(env) && name in env
      modifies this
      ensures Grown(env, old(components), components, {name})
      decreases Missing(env, components), Named(name), 0
    {
      if name !in components {
        ghost var before := components;
        components := components[name := BLANK];
        MissingShrinks(env, before, components);
        var described := StructSchema(env[name]);
        GrownStruct(env, before, components, name);
        components := components[name := described];
      }
    }

    /** The schema of a struct with the given fields. */
    method StructSchema(fields: seq<Field>) returns (s: Schema)
      requires WellScoped(env) && FieldMentions(fields) <= env.Keys
      modifies this
      ensures s == DescribeStruct(fields) && Grown(env, old(components), components, FieldMentions(fields))
      decreases Missing(env, components), fields, 0
    {
      hide Grown, DescribeStruct, FieldMentions;
      NoFields(env, components);
      s := Simple("object");
      var i := 0;
      assert fields[..0] == [];
      while i < |fields|
        invariant i <= |fields|
        invariant s == DescribeStruct(fields[..i])
        invariant Grown(env, old(components), components, FieldMentions(fields[..i]))
      {
        var f := fields[i];
        OneMoreField(fields, i);
        i := i + 1;
        var name, omitempty := FindJsonField(f);
        if !f.exported || name == "-" {
          continue;
        }
        ghost var before := components;
        GrownKeepsKeys(env, old(components), components, FieldMentions(fields[..i - 1]));
        var property := SchemaFor(f.fieldType);
        s := s.(properties := s.properties[name := property]);
        if !omitempty && !f.fieldType.Pointer? {
          s := s.(required := s.required + [name]);
        }
        GrownJoin(env, old(components), before, components, FieldMentions(fields[..i - 1]), Mentions(f.fieldType));
      }
      assert fields[..i] == fields;
    }
  }

  /** Where nothing is mentioned, nothing is added. */
  lemma NothingGrown(env: Env, components: Components)
    ensures Grown(env, components, components, {})
  {}

  lemma NoFields(env: Env, components: Components)
    ensures DescribeStruct([]) == Simple("object")
    ensures Grown(env, components, components, FieldMentions([]))
  {}

  lemma GrownKeepsKeys(env: Env, before: Components, after: Components, roots: set<string>)
    requires Grown(env, before, after, roots)
    ensures Missing(env, after) <= Missing(env, before)
  {
    MissingShrinks(env, before, after);
  }

  /** A struct with one field more. */
  lemma OneMoreField(fields: seq<Field>, i: nat)
    requires i < |fields|
    ensures fields[i].fieldType < fields[i] && fields[i] in fields
    ensures Visible(fields[i]) ==> Mentions(fields[i].fieldType) <= FieldMentions(fields)
    ensures var before, now, f := fields[..i], fields[..i + 1], fields[i];
      && FieldMentions(now) == (if Visible(f) then FieldMentions(before) + Mentions(f.fieldType) else FieldMentions(before))
      && DescribeStruct(now) == (if !Visible(f) then DescribeStruct(before)
                                else DescribeStruct(before).(
                                  properties := DescribeStruct(before).properties[JsonField(f).0 := Describe(f.fieldType)],
                                  required := DescribeStruct(before).required + (if IsRequired(f) then [JsonField(f).0] else [])))
  {
    assert fields[..i + 1][..i] == fields[..i];
    MentionsOfPrefix(fields, i + 1);
  }

  lemma {:induction false} MentionsOfPrefix(fields: seq<Field>, k: nat)
    requires k <= |fields|
    ensures FieldMentions(fields[..k]) <= FieldMentions(fields)
    decreases |fields|
  {
    if k < |fields| {
      var shorter := fields[..|fields| - 1];
      MentionsOfPrefix(shorter, k);
      assert shorter[..k] == fields[..k];
    } else {
      assert fields[..k] == fields;
    }
  }
}
