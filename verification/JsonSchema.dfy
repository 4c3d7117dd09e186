/** JSON values, and the part of JSON Schema 2020-12 that tool output schemas use. */
module JsonSchema {
  import opened Wrappers

  datatype Json =
    | Null
    | Boolean(b: bool)
    | Number(n: real)
    | String(s: string)
    | Array(elements: seq<Json>)
    | Object(fields: map<string, Json>)

  /** No object anywhere inside `v` has a member called `database`. */
  ghost predicate WithoutDatabase(v: Json) {
    match v
    case Array(vs) => forall i | 0 <= i < |vs| :: WithoutDatabase(vs[i])
    case Object(m) => "database" !in m && forall k | k in m :: WithoutDatabase(m[k])
    case _ => true
  }

  datatype Type =
    NullType | BooleanType | NumberType | IntegerType | StringType | ArrayType | ObjectType

  /** The `type` keyword holds one type name or a list of them (Validation, section 6.1.1). */
  datatype TypeKeyword = One(t: Type) | Several(ts: seq<Type>)

  /** A boolean schema, or an object schema with each keyword present or absent. */
  datatype Schema =
    | Always(valid: bool)
    | Keywords(
        typ: Option<TypeKeyword>,
        enum: Option<seq<Json>>,
        properties: Option<map<string, Schema>>,
        required: set<string>,
        additional: Option<Schema>,
        items: Option<Schema>,
        ref: Option<string>,
        anyOf: Branches,
        oneOf: Branches,
        allOf: Branches)

  /** The list under a composition keyword, when the keyword is there. */
  datatype Branches = Absent | Present(list: seq<Schema>)

  /** The empty schema `{}`. */
  const EMPTY := Keywords(None, None, None, {}, None, None, None, Absent, Absent, Absent)

  /** The schema `{"type": "object"}`. */
  const OBJECT := EMPTY.(typ := Some(One(ObjectType)))

  /**
   * A document's `$defs`, with a rank for each name. `Acyclic` below makes the ranks witness
   * that following `$ref` through in-place applicators never comes back to its start.
   */
  datatype Env = Env(defs: map<string, Schema>, rank: map<string, nat>)

  const DEFS_PREFIX := "#/$defs/"

  function AfterLastSlash(s: string): string {
    if s == [] || s[|s| - 1] == '/' then [] else AfterLastSlash(s[..|s| - 1]) + [s[|s| - 1]]
  }

  /** The definition the rewriting code reads a reference as: the text after the last slash. */
  function DefName(ref: Option<string>): Option<string> {
    if ref.Some? && DEFS_PREFIX <= ref.value then Some(AfterLastSlash(ref.value)) else None
  }

  /** The definition a validator resolves a reference to (Core, section 8.2.3.1). */
  function PointerTarget(ref: string): Option<string> {
    if DEFS_PREFIX <= ref && '/' !in ref[|DEFS_PREFIX|..] then Some(ref[|DEFS_PREFIX|..]) else None
  }

  /** Where the validator finds a definition, the rewriting code finds the same one. */
  lemma PointerTargetIsDefName(ref: string)
    ensures PointerTarget(ref).Some? ==> DefName(Some(ref)) == PointerTarget(ref)
  {
    if PointerTarget(ref).Some? {
      assert DEFS_PREFIX == "#/$defs" + "/";
      assert ref == "#/$defs" + "/" + ref[|DEFS_PREFIX|..];
      AfterSlash("#/$defs", ref[|DEFS_PREFIX|..]);
    }
  }

  lemma {:induction false} AfterSlash(prefix: string, name: string)
    requires '/' !in name
    ensures AfterLastSlash(prefix + "/" + name) == name
  {
    var s := prefix + "/" + name;
    if name != [] {
      var init := name[..|name| - 1];
      assert s[..|s| - 1] == prefix + "/" + init;
      AfterSlash(prefix, init);
      assert init + [name[|name| - 1]] == name;
    }
  }

  /** One more than the highest rank among the references reached without leaving the value. */
  function RankOf(rank: map<string, nat>, s: Schema): nat
    decreases s
  {
    match s
    case Always(_) => 0
    case Keywords(_, _, _, _, _, _, ref, anyOf, oneOf, allOf) =>
      Max(RefRank(rank, ref),
          Max(if anyOf.Present? then RanksOf(rank, anyOf.list) else 0,
              Max(if oneOf.Present? then RanksOf(rank, oneOf.list) else 0,
                  if allOf.Present? then RanksOf(rank, allOf.list) else 0)))
  }

  function RefRank(rank: map<string, nat>, ref: Option<string>): nat {
    var name := DefName(ref);
    if name.None? then 0 else 1 + if name.value in rank then rank[name.value] else 0
  }

  function RanksOf(rank: map<string, nat>, ss: seq<Schema>): (r: nat)
    ensures forall i | 0 <= i < |ss| :: RankOf(rank, ss[i]) <= r
    decreases ss
  {
    if ss == [] then 0 else Max(RankOf(rank, ss[0]), RanksOf(rank, ss[1..]))
  }

  /** Every definition refers, in place, only to definitions of lower rank. */
  ghost predicate Acyclic(env: Env) {
    forall n | n in env.defs :: RankOf(env.rank, env.defs[n]) <= (if n in env.rank then env.rank[n] else 0)
  }

  predicate HasType(t: Type, v: Json) {
    match t
    case NullType => v.Null?
    case BooleanType => v.Boolean?
    case NumberType => v.Number?
    case IntegerType => v.Number? && v.n == v.n.Floor as real
    case StringType => v.String?
    case ArrayType => v.Array?
    case ObjectType => v.Object?
  }

  predicate HasSomeType(k: TypeKeyword, v: Json) {
    match k
    case One(t) => HasType(t, v)
    case Several(ts) => exists i | 0 <= i < |ts| :: HasType(ts[i], v)
  }

  /** The schema that applies to member `k` of an object (Core, section 10.3.2). */
  function FieldSchema(s: Schema, k: string): Schema
    requires s.Keywords?
  {
    if s.properties.Some? && k in s.properties.value then s.properties.value[k]
    else if s.additional.Some? then s.additional.value
    else Always(true)
  }

  /**
   * Whether `v` validates against `s`. A reference that does not resolve accepts nothing; so
   * does one that does not go down in rank, which never happens when `Acyclic(env)`.
   */
  predicate Valid(env: Env, s: Schema, v: Json)
    decreases v, RankOf(env.rank, s), s, 1
  {
    match s
    case Always(b) => b
    case Keywords(typ, enum, properties, required, additional, items, ref, anyOf, oneOf, allOf) =>
      && (typ.Some? ==> HasSomeType(typ.value, v))
      && (enum.Some? ==> v in enum.value)
      && RefValid(env, s, v)
      && BranchesValid(env, s, v)
      && (v.Object? ==> FieldsValid(env, s, v))
      && (v.Array? ==> ElementsValid(env, s, v))
  }

  /** The reference of `s`, if it has one, leads to a definition that accepts `v`. */
  predicate RefValid(env: Env, s: Schema, v: Json)
    requires s.Keywords?
    decreases v, RankOf(env.rank, s), s, 0
  {
    s.ref.Some? ==>
      var name := PointerTarget(s.ref.value);
      && name.Some?
      && name.value in env.defs
      && RankOf(env.rank, env.defs[name.value]) < RankOf(env.rank, s)
      && Valid(env, env.defs[name.value], v)
  }

  /** The composition keywords of `s` (Core, section 10.2.1). */
  predicate BranchesValid(env: Env, s: Schema, v: Json)
    requires s.Keywords?
    decreases v, RankOf(env.rank, s), s, 0
  {
    && (s.anyOf.Present? ==> CountValid(env, s.anyOf.list, v) >= 1)
    && (s.oneOf.Present? ==> CountValid(env, s.oneOf.list, v) == 1)
    && (s.allOf.Present? ==> CountValid(env, s.allOf.list, v) == |s.allOf.list|)
  }

  predicate FieldsValid(env: Env, s: Schema, v: Json)
    requires s.Keywords? && v.Object?
    decreases v, RankOf(env.rank, s), s, 0
  {
    && s.required <= v.fields.Keys
    && forall k | k in v.fields :: Valid(env, FieldSchema(s, k), v.fields[k])
  }

  predicate ElementsValid(env: Env, s: Schema, v: Json)
    requires s.Keywords? && v.Array?
    decreases v, RankOf(env.rank, s), s, 0
  {
    s.items.Some? ==> forall i | 0 <= i < |v.elements| :: Valid(env, s.items.value, v.elements[i])
  }

  /** How many of `ss` accept `v`. */
  function CountValid(env: Env, ss: seq<Schema>, v: Json): (n: nat)
    ensures n <= |ss|
    decreases v, RanksOf(env.rank, ss), ss
  {
    if ss == [] then 0
    else (if Valid(env, ss[0], v) then 1 else 0) + CountValid(env, ss[1..], v)
  }

  lemma {:induction false} CountAppend(env: Env, ss: seq<Schema>, t: Schema, v: Json)
    ensures CountValid(env, ss + [t], v) == CountValid(env, ss, v) + if Valid(env, t, v) then 1 else 0
  {
    if ss == [] {
      assert ss + [t] == [t];
    } else {
      CountAppend(env, ss[1..], t, v);
      assert (ss + [t])[1..] == ss[1..] + [t];
    }
  }

  lemma {:induction false} RanksAppend(rank: map<string, nat>, ss: seq<Schema>, t: Schema)
    ensures RanksOf(rank, ss + [t]) == Max(RanksOf(rank, ss), RankOf(rank, t))
  {
    if ss == [] {
      assert ss + [t] == [t];
    } else {
      RanksAppend(rank, ss[1..], t);
      assert (ss + [t])[1..] == ss[1..] + [t];
    }
  }
}
