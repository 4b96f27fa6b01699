/** The JSON that package encoding/json prints for values of a type, against the type's schema. */
module SchemaEncoding {
  import opened Wrappers
  import opened Schema
  import opened SchemaMeaning

  // ---- what encoding/json prints ----

  /** A field that is printed; the tag "-," stands for the member "-", which the schema leaves out. */
  predicate Printed(f: Field) { f.exported && f.jsonTag != "-" }

  predicate Nilable(t: Type) { t.Pointer? || t.Slice? || t.MapOf? }

  /** Types with an empty value, which the omitempty option leaves out. */
  predicate HasEmpty(t: Type) { !t.Struct? && !t.Named? && !t.TimeType? }

  /** Some value of type `t` is printed as `j`: nil as null, and a slice of bytes as a string. */
  ghost predicate Encodes(env: Env, isTime: TimeFormat, t: Type, j: Json)
    decreases j, 1, t
  {
    match t
    case StringType => j.String?
    case BoolType => j.Bool?
    case ByteType => Integral(j)
    case IntegerType => Integral(j)
    case NumberType => j.Number?
    case TimeType => j.String? && isTime(j.s)
    case OtherType => true
    case Pointer(elem) => j.Null? || Encodes(env, isTime, elem, j)
    case Slice(elem) =>
      j.Null? || if elem.ByteType? then j.String? else j.List? && forall k :: 0 <= k < |j.items| ==> Encodes(env, isTime, elem, j.items[k])
    case Array(elem) => j.List? && forall k :: 0 <= k < |j.items| ==> Encodes(env, isTime, elem, j.items[k])
    case MapOf(elem) => j.Null? || (j.Object? && forall name :: name in j.members ==> Encodes(env, isTime, elem, j.members[name]))
    case Struct(fields) => MembersEncode(env, isTime, fields, j)
    case Named(name) => name in env && MembersEncode(env, isTime, env[name], j)
  }

  /** An object with a member for every printed field and no others; only an empty value may be left out, and only
      with the omitempty option, which always leaves nil out. */
  ghost predicate MembersEncode(env: Env, isTime: TimeFormat, fields: seq<Field>, j: Json)
    decreases j, 0
  {
    && j.Object?
    && (forall name :: name in j.members ==> exists k :: 0 <= k < |fields| && Printed(fields[k]) && Key(fields[k]) == name)
    && (forall k :: 0 <= k < |fields| && Printed(fields[k]) && Key(fields[k]) !in j.members ==> MayBeLeftOut(fields[k]))
    && (forall k :: 0 <= k < |fields| && Printed(fields[k]) && Key(fields[k]) in j.members ==>
         && Encodes(env, isTime, fields[k].fieldType, j.members[Key(fields[k])])
         && (HasOption(fields[k].jsonTag, "omitempty") && Nilable(fields[k].fieldType) ==> !j.members[Key(fields[k])].Null?))
  }

  ghost predicate MayBeLeftOut(f: Field) { HasOption(f.jsonTag, "omitempty") && HasEmpty(f.fieldType) }

  // ---- names ----

  /** No two printed fields have one member name; encoding/json would leave both out. */
  predicate DistinctKeys(fields: seq<Field>) {
    forall i, k :: 0 <= i < k < |fields| && Printed(fields[i]) && Printed(fields[k]) ==> Key(fields[i]) != Key(fields[k])
  }

  /** So it is in the type and its inlined structs. */
  predicate Distinct(t: Type)
    decreases t
  {
    match t
    case Pointer(elem) => Distinct(elem)
    case Slice(elem) => Distinct(elem)
    case Array(elem) => Distinct(elem)
    case MapOf(elem) => Distinct(elem)
    case Struct(fields) => DistinctMembers(fields)
    case _ => true
  }

  predicate DistinctMembers(fields: seq<Field>)
    decreases fields
  {
    DistinctKeys(fields) && forall k :: 0 <= k < |fields| ==> Distinct(fields[k].fieldType)
  }

  predicate DistinctEnv(env: Env) { forall name :: name in env ==> DistinctMembers(env[name]) }

  // ---- where the schema does not fit ----

  /** The type behind all pointers is one whose schema accepts anything. */
  predicate TakesNull(t: Type) { t.OtherType? || (t.Pointer? && TakesNull(t.elem)) }

  /** A nil pointer, slice or map, or a slice of bytes, stands where the schema asks for something else. */
  ghost predicate Misfit(env: Env, t: Type, j: Json)
    decreases j, 1, t
  {
    match t
    case Pointer(elem) => if j.Null? then !TakesNull(elem) else Misfit(env, elem, j)
    case Slice(elem) => j.Null? || elem.ByteType? || (j.List? && exists k :: 0 <= k < |j.items| && Misfit(env, elem, j.items[k]))
    case Array(elem) => j.List? && exists k :: 0 <= k < |j.items| && Misfit(env, elem, j.items[k])
    case MapOf(elem) => j.Null? || (j.Object? && exists name :: name in j.members && Misfit(env, elem, j.members[name]))
    case Struct(fields) => MemberMisfit(env, fields, j)
    case Named(name) => name in env && MemberMisfit(env, env[name], j)
    case _ => false
  }

  ghost predicate MemberMisfit(env: Env, fields: seq<Field>, j: Json)
    decreases j, 0
  {
    j.Object? && exists k ::
      0 <= k < |fields| && Shown(fields[k]) && Key(fields[k]) in j.members && Misfit(env, fields[k].fieldType, j.members[Key(fields[k])])
  }

  /** What encoding/json prints is of the form the type calls for, except exactly where a nil or a slice of bytes
      stands in its way. */
  lemma {:induction false} EncodedFits(env: Env, isTime: TimeFormat, t: Type, j: Json)
    requires DistinctEnv(env) && Distinct(t) && Encodes(env, isTime, t, j)
    ensures Fits(env, isTime, t, j) <==> !Misfit(env, t, j)
    decreases j, 1, t
  {
    match t
    case StringType =>
    case BoolType =>
    case ByteType =>
    case IntegerType =>
    case NumberType =>
    case TimeType =>
    case OtherType =>
    case Pointer(elem) =>
      if j.Null? { NullFits(env, isTime, elem); } else { EncodedFits(env, isTime, elem, j); }
    case Slice(elem) =>
      if j.List? && !elem.ByteType? { ItemsFit(env, isTime, elem, j); }
    case Array(elem) => ItemsFit(env, isTime, elem, j);
    case MapOf(elem) => if j.Object? { ValuesFit(env, isTime, elem, j); }
    case Struct(fields) => EncodedMembersFit(env, isTime, fields, j);
    case Named(name) => EncodedMembersFit(env, isTime, env[name], j);
  }

  lemma {:induction false} NullFits(env: Env, isTime: TimeFormat, t: Type)
    ensures Fits(env, isTime, t, Null) <==> TakesNull(t)
    decreases t
  {
    if t.Pointer? { NullFits(env, isTime, t.elem); }
  }

  lemma {:induction false} ItemsFit(env: Env, isTime: TimeFormat, elem: Type, j: Json)
    requires DistinctEnv(env) && Distinct(elem) && j.List?
    requires forall k :: 0 <= k < |j.items| ==> Encodes(env, isTime, elem, j.items[k])
    ensures forall k :: 0 <= k < |j.items| ==> (Fits(env, isTime, elem, j.items[k]) <==> !Misfit(env, elem, j.items[k]))
    decreases j, 0
  {
    hide Encodes, Fits, Misfit;
    forall k | 0 <= k < |j.items|
      ensures Fits(env, isTime, elem, j.items[k]) <==> !Misfit(env, elem, j.items[k])
    {
      EncodedFits(env, isTime, elem, j.items[k]);
    }
  }

  lemma {:induction false} ValuesFit(env: Env, isTime: TimeFormat, elem: Type, j: Json)
    requires DistinctEnv(env) && Distinct(elem) && j.Object?
    requires forall name :: name in j.members ==> Encodes(env, isTime, elem, j.members[name])
    ensures forall name :: name in j.members ==> (Fits(env, isTime, elem, j.members[name]) <==> !Misfit(env, elem, j.members[name]))
    decreases j, 0
  {
    hide Encodes, Fits, Misfit;
    forall name | name in j.members
      ensures Fits(env, isTime, elem, j.members[name]) <==> !Misfit(env, elem, j.members[name])
    {
      EncodedFits(env, isTime, elem, j.members[name]);
    }
  }

  lemma {:induction false} EncodedMembersFit(env: Env, isTime: TimeFormat, fields: seq<Field>, j: Json)
    requires DistinctEnv(env) && DistinctMembers(fields) && MembersEncode(env, isTime, fields, j)
    ensures MembersFit(env, isTime, fields, j) <==> !MemberMisfit(env, fields, j)
    decreases j, 0
  {
    hide Encodes, Fits, Misfit, HasOption, Head, DistinctEnv;
    forall k | 0 <= k < |fields| && Shown(fields[k])
      ensures Printed(fields[k]) && LastShown(fields, k)
    {
      ShownIsPrinted(fields[k]);
      OnlyOne(fields, k);
    }
    forall k | 0 <= k < |fields| && Shown(fields[k]) && Key(fields[k]) in j.members
      ensures Fits(env, isTime, fields[k].fieldType, j.members[Key(fields[k])])
        <==> !Misfit(env, fields[k].fieldType, j.members[Key(fields[k])])
    {
      EncodedFits(env, isTime, fields[k].fieldType, j.members[Key(fields[k])]);
    }
  }

  lemma ShownIsPrinted(f: Field)
    requires Shown(f)
    ensures Printed(f)
  {
    assert Head("-") == "-";
  }

  lemma OnlyOne(fields: seq<Field>, k: nat)
    requires k < |fields| && DistinctKeys(fields) && Shown(fields[k])
    ensures LastShown(fields, k)
  {
    hide Key;
    forall later | k < later < |fields| && Shown(fields[later])
      ensures Key(fields[later]) != Key(fields[k])
    {
      ShownIsPrinted(fields[later]);
      ShownIsPrinted(fields[k]);
    }
  }

  /** What encoding/json prints for a value conforms to the schema of its type if and only if no nil pointer, slice
      or map, and no slice of bytes, stands where the schema asks for something else. */
  lemma EncodingConformsExactlyWhen(env: Env, components: Components, isTime: TimeFormat, t: Type, j: Json)
    requires Closed(env, components) && Mentions(t) <= components.Keys
    requires DistinctEnv(env) && Distinct(t) && Encodes(env, isTime, t, j)
    ensures Conforms(components, isTime, Describe(t), j) <==> !Misfit(env, t, j)
  {
    hide Closed, Encodes, Fits, Misfit, Conforms, Describe;
    AcceptsExactly(env, components, isTime, t, j);
    EncodedFits(env, isTime, t, j);
  }

  /** The smallest cases: a nil slice of strings is printed as null and a slice of bytes as a string, and the schema
      asks for an array. */
  lemma NilAndBytesDoNotConform(isTime: TimeFormat, text: string)
    ensures Encodes(map[], isTime, Slice(StringType), Null) && !Conforms(map[], isTime, Describe(Slice(StringType)), Null)
    ensures Encodes(map[], isTime, Slice(ByteType), String(text)) && !Conforms(map[], isTime, Describe(Slice(ByteType)), String(text))
  {
    EncodingConformsExactlyWhen(map[], map[], isTime, Slice(StringType), Null);
    EncodingConformsExactlyWhen(map[], map[], isTime, Slice(ByteType), String(text));
  }

  // ---- types whose values all conform ----

  /** Nil cannot be printed for a value of the type, nor bytes as a string: pointers, slices and maps are members
      with the omitempty option. */
  ghost predicate Safe(t: Type)
    decreases t, 0
  {
    match t
    case Pointer(elem) => TakesNull(elem)
    case Slice(elem) => false
    case MapOf(elem) => false
    case Array(elem) => Safe(elem)
    case Struct(fields) => SafeMembers(fields)
    case _ => true
  }

  ghost predicate SafeMembers(fields: seq<Field>)
    decreases fields, 0
  {
    forall k :: 0 <= k < |fields| && Shown(fields[k]) ==> SafeMember(fields[k])
  }

  ghost predicate SafeMember(f: Field)
    decreases f, 0
  {
    if HasOption(f.jsonTag, "omitempty") && Nilable(f.fieldType) then SafeInside(f.fieldType) else Safe(f.fieldType)
  }

  /** The same for a pointer, slice or map that is not nil. */
  ghost predicate SafeInside(t: Type)
    requires Nilable(t)
    decreases t, 1
  {
    Safe(t.elem) && !(t.Slice? && t.elem.ByteType?)
  }

  ghost predicate SafeEnv(env: Env) { forall name :: name in env ==> SafeMembers(env[name]) }

  /** No value of a safe type is printed with a misfit. */
  lemma {:induction false} SafeHasNoMisfit(env: Env, isTime: TimeFormat, t: Type, j: Json)
    requires SafeEnv(env) && Encodes(env, isTime, t, j)
    requires Safe(t) || (Nilable(t) && SafeInside(t) && !j.Null?)
    ensures !Misfit(env, t, j)
    decreases j, 1, t
  {
    hide SafeEnv, HasOption;
    match t
    case Pointer(elem) =>
      if TakesNull(elem) { TakesAnything(env, elem, j); } else { SafeHasNoMisfit(env, isTime, elem, j); }
    case Slice(elem) =>
      forall k | 0 <= k < |j.items| ensures !Misfit(env, elem, j.items[k]) { SafeHasNoMisfit(env, isTime, elem, j.items[k]); }
    case Array(elem) =>
      forall k | 0 <= k < |j.items| ensures !Misfit(env, elem, j.items[k]) { SafeHasNoMisfit(env, isTime, elem, j.items[k]); }
    case MapOf(elem) =>
      forall name | name in j.members ensures !Misfit(env, elem, j.members[name]) { SafeHasNoMisfit(env, isTime, elem, j.members[name]); }
    case Struct(fields) => SafeMembersHaveNone(env, isTime, fields, j);
    case Named(name) => SafeComponent(env, name); SafeMembersHaveNone(env, isTime, env[name], j);
    case _ =>
  }

  lemma {:induction false} TakesAnything(env: Env, t: Type, j: Json)
    requires TakesNull(t)
    ensures !Misfit(env, t, j)
    decreases t
  {
    if t.Pointer? { TakesAnything(env, t.elem, j); }
  }

  lemma SafeComponent(env: Env, name: string)
    requires SafeEnv(env) && name in env
    ensures SafeMembers(env[name])
  {}

  lemma {:induction false} SafeMembersHaveNone(env: Env, isTime: TimeFormat, fields: seq<Field>, j: Json)
    requires SafeEnv(env) && SafeMembers(fields) && MembersEncode(env, isTime, fields, j)
    ensures !MemberMisfit(env, fields, j)
    decreases j, 0
  {
    hide SafeEnv, HasOption, Encodes, Misfit, Head, Safe, SafeInside;
    forall k | 0 <= k < |fields| && Shown(fields[k]) && Key(fields[k]) in j.members
      ensures !Misfit(env, fields[k].fieldType, j.members[Key(fields[k])])
    {
      ShownIsPrinted(fields[k]);
      SafeHasNoMisfit(env, isTime, fields[k].fieldType, j.members[Key(fields[k])]);
    }
  }

  /** Where every pointer, slice and map is a member with the omitempty option, and no slice holds bytes, whatever
      encoding/json prints conforms to the schema. */
  lemma SafeTypesConform(env: Env, components: Components, isTime: TimeFormat, t: Type, j: Json)
    requires Closed(env, components) && Mentions(t) <= components.Keys
    requires DistinctEnv(env) && Distinct(t) && SafeEnv(env) && Safe(t) && Encodes(env, isTime, t, j)
    ensures Conforms(components, isTime, Describe(t), j)
  {
    SafeHasNoMisfit(env, isTime, t, j);
    EncodingConformsExactlyWhen(env, components, isTime, t, j);
  }
}
