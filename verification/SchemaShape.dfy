/** What a rewritten output schema declares, whatever it was rewritten from. */
module SchemaShape {
  import opened Wrappers
  import opened JsonSchema
  import opened OutputSchema
  import opened PayloadAgreement
  import opened UnionAgreement

  // ---- The top level ----------------------------------------------------------------------

  /**
   * Every rewritten schema declares `"type": "object"` at its top level, as the original did,
   * and has lost the wrap marker.
   */
  lemma FixupDeclaresObject(doc: Document)
    requires doc.body.Keywords? && Acyclic(doc.env) && doc.body.typ == Some(One(ObjectType))
    ensures Fixup(doc).body.typ == Some(One(ObjectType)) && !Fixup(doc).wrapped
  {
  }

  /** An object schema with these composition keywords or this reference, and nothing else. */
  function Bare(ref: Option<string>, anyOf: Branches, oneOf: Branches, allOf: Branches): Schema {
    Keywords(Some(One(ObjectType)), None, None, {}, None, None, None, Absent, Absent, Absent)
    .(ref := ref, anyOf := anyOf, oneOf := oneOf, allOf := allOf)
  }

  /** An unwrapped union keeps the first of its keywords, with the variants it had, and no other. */
  lemma FixupKeepsFirstKeyword(doc: Document)
    requires doc.wrapped && doc.body.Keywords? && Acyclic(doc.env)
    requires doc.body.properties.Some? && "result" in doc.body.properties.value
    requires YieldsObject(doc.env, doc.body.properties.value["result"])
    ensures var result := doc.body.properties.value["result"];
            Fixup(doc).body ==
              if result.anyOf.Present? then Bare(None, result.anyOf, Absent, Absent)
              else if result.oneOf.Present? then Bare(None, Absent, result.oneOf, Absent)
              else if result.allOf.Present? then Bare(None, Absent, Absent, result.allOf)
              else if result.ref.Some? then Bare(result.ref, Absent, Absent, Absent)
              else Declared(result.(typ := Some(One(ObjectType))))
  {
  }

  /** A schema with `database` among its properties, a string. */
  function Declared(s: Schema): Schema
    requires s.Keywords?
  {
    var field := Keywords(Some(One(StringType)), None, None, {}, None, None, None, Absent, Absent, Absent);
    s.(properties := Some((if s.properties.Some? then s.properties.value else map[])["database" := field]))
  }

  /** Without the marker, or where the result need not be an object, `database` joins the top level. */
  lemma FixupKeepsWrapped(doc: Document)
    requires doc.body.Keywords? && Acyclic(doc.env) && doc.body.typ == Some(One(ObjectType))
    requires doc.wrapped ==>
               || doc.body.properties.None? || "result" !in doc.body.properties.value
               || !YieldsObject(doc.env, doc.body.properties.value["result"])
    ensures Fixup(doc) == Document(false, doc.env, Declared(doc.body))
  {
  }

  // ---- Which results are unwrapped -----------------------------------------------------------

  /** The reference is local, and this is what follows its last slash. */
  ghost predicate RefersTo(ref: string, name: string) {
    "#/$defs/" <= ref && '/' !in name && exists before: string :: ref == before + "/" + name
  }

  lemma {:induction false} AfterLastSlashExactly(s: string) returns (before: string)
    requires '/' in s
    ensures s == before + "/" + AfterLastSlash(s) && '/' !in AfterLastSlash(s)
  {
    var last := s[|s| - 1];
    assert s == s[..|s| - 1] + [last];
    if last == '/' {
      before := s[..|s| - 1];
    } else {
      before := AfterLastSlashExactly(s[..|s| - 1]);
      assert before + "/" + AfterLastSlash(s[..|s| - 1]) + [last] == before + "/" + AfterLastSlash(s);
    }
  }

  lemma DefNameExactly(ref: string, name: string)
    ensures DefName(Some(ref)) == Some(name) <==> RefersTo(ref, name)
  {
    if "#/$defs/" <= ref {
      assert ref[1] == '/';
      var before := AfterLastSlashExactly(ref);
    }
    if RefersTo(ref, name) {
      var before: string :| ref == before + "/" + name;
      AfterSlash(before, name);
    }
  }

  lemma {:induction false} AllYieldExactly(env: Env, ss: seq<Schema>)
    requires Acyclic(env)
    ensures AllYield(env, ss) <==> forall i | 0 <= i < |ss| :: YieldsObject(env, ss[i])
    decreases |ss|
  {
    if ss != [] {
      AllYieldExactly(env, ss[1..]);
      assert forall i | 0 < i < |ss| :: ss[i] == ss[1..][i - 1];
    }
  }

  lemma {:induction false} SomeYieldsExactly(env: Env, ss: seq<Schema>)
    requires Acyclic(env)
    ensures SomeYields(env, ss) <==> exists i | 0 <= i < |ss| :: YieldsObject(env, ss[i])
    decreases |ss|
  {
    if ss != [] {
      SomeYieldsExactly(env, ss[1..]);
      assert forall i | 0 < i < |ss| :: ss[i] == ss[1..][i - 1];
    }
  }

  /**
   * When a schema counts as one of objects: by its type, or by its properties without one;
   * failing that by its local reference, else by all variants of `anyOf` or `oneOf` if there are
   * any, else by one conjunct of `allOf`.
   */
  lemma YieldsObjectExactly(env: Env, s: Schema)
    requires Acyclic(env)
    ensures YieldsObject(env, s) <==>
              && s.Keywords?
              && (|| s.typ == Some(One(ObjectType))
                  || (s.properties.Some? && s.typ.None?)
                  || (if DefName(s.ref).Some? then
                        DefName(s.ref).value in env.defs && YieldsObject(env, env.defs[DefName(s.ref).value])
                      else if s.anyOf.Present? && s.anyOf.list != [] then
                        forall i | 0 <= i < |s.anyOf.list| :: YieldsObject(env, s.anyOf.list[i])
                      else if s.oneOf.Present? && s.oneOf.list != [] then
                        forall i | 0 <= i < |s.oneOf.list| :: YieldsObject(env, s.oneOf.list[i])
                      else
                        s.allOf.Present? && exists i | 0 <= i < |s.allOf.list| :: YieldsObject(env, s.allOf.list[i])))
  {
    if s.Keywords? {
      if s.anyOf.Present? {
        AllYieldExactly(env, s.anyOf.list);
      }
      if s.oneOf.Present? {
        AllYieldExactly(env, s.oneOf.list);
      }
      if s.allOf.Present? {
        SomeYieldsExactly(env, s.allOf.list);
      }
    }
  }

  // ---- The injected member -------------------------------------------------------------------

  /** A model gets the declaration and changes in nothing else. */
  lemma InjectDeclares(s: Schema)
    requires s.Keywords? && (s.properties.Some? || s.typ == Some(One(ObjectType)))
    ensures Inject(s) == Declared(s)
  {
  }

  lemma DeclaredTwice(s: Schema)
    requires s.Keywords?
    ensures Declared(Declared(s)) == Declared(s)
  {
    var m := Declared(s).properties.value;
    assert m["database" := m["database"]] == m;
  }

  /** Injection gets through to every place where a value can be accepted. */
  predicate Reaches(s: Schema)
    decreases s
  {
    && s.Keywords?
    && (s.properties.Some? || s.typ == Some(One(ObjectType))
        || (if s.anyOf.Present? && s.anyOf.list != [] then AllReach(s.anyOf.list)
            else if s.oneOf.Present? && s.oneOf.list != [] then AllReach(s.oneOf.list)
            else s.allOf.Present?))
  }

  predicate AllReach(ss: seq<Schema>)
    decreases ss
  {
    ss == [] || (ss[0].Keywords? && ss[0].ref.None? && Reaches(ss[0]) && AllReach(ss[1..]))
  }

  /** `v` has a `database` that is no string. */
  predicate Mistyped(v: Json) {
    v.Object? && "database" in v.fields && !v.fields["database"].String?
  }

  lemma DeclaredRefuses(env: Env, s: Schema, v: Json)
    requires s.Keywords? && Mistyped(v)
    ensures !Valid(env, Declared(s), v)
  {
    var t := Declared(s);
    assert FieldSchema(t, "database") == t.properties.value["database"];
    assert !Valid(env, FieldSchema(t, "database"), v.fields["database"]);
    assert !FieldsValid(env, t, v);
  }

  /** So an injected schema accepts no `database` that is not a string. */
  lemma {:induction false} InjectedTypesDatabase(env: Env, s: Schema, v: Json)
    requires Reaches(s) && Mistyped(v)
    ensures !Valid(env, Inject(s), v)
    decreases s
  {
    if s.properties.Some? || s.typ == Some(One(ObjectType)) {
      InjectDeclares(s);
      DeclaredRefuses(env, s, v);
    } else if s.anyOf.Present? && s.anyOf.list != [] {
      InlineTypesDatabase(env, s.anyOf.list, v);
      assert !BranchesValid(env, Inject(s), v);
    } else if s.oneOf.Present? && s.oneOf.list != [] {
      InlineTypesDatabase(env, s.oneOf.list, v);
      assert !BranchesValid(env, Inject(s), v);
    } else {
      assert Declared(OBJECT) == DATABASE_CONJUNCT;
      DeclaredRefuses(env, OBJECT, v);
      CountAppend(env, s.allOf.list, DATABASE_CONJUNCT, v);
      assert !BranchesValid(env, Inject(s), v);
    }
  }

  lemma {:induction false} InlineTypesDatabase(env: Env, ss: seq<Schema>, v: Json)
    requires AllReach(ss) && Mistyped(v)
    ensures CountValid(env, InjectInline(ss), v) == 0
    decreases ss
  {
    if ss != [] {
      InjectedTypesDatabase(env, ss[0], v);
      InlineTypesDatabase(env, ss[1..], v);
      assert InjectInline(ss)[1..] == InjectInline(ss[1..]);
    }
  }

  // ---- Whole documents --------------------------------------------------------------------------

  /** A definition that declares `database` goes on declaring it. */
  lemma {:induction false} InjectTargetsKeepsDeclared(env: Env, ss: seq<Schema>, n: string)
    requires n in env.defs && env.defs[n].Keywords? && Declared(env.defs[n]) == env.defs[n]
    ensures var env' := InjectTargets(env, ss);
            n in env'.defs && env'.defs[n].Keywords? && Declared(env'.defs[n]) == env'.defs[n]
    decreases |ss|
  {
    if ss != [] {
      InjectTargetsKeepsDeclared(FirstStep(env, ss), ss[1..], n);
    }
  }

  /** Every model that a variant refers to comes to declare `database`. */
  lemma {:induction false} InjectTargetsDeclares(env: Env, ss: seq<Schema>, i: nat)
    requires i < |ss| && Target(env, ss[i]).Some?
    requires env.defs[Target(env, ss[i]).value].typ == Some(One(ObjectType))
    ensures var env', n := InjectTargets(env, ss), Target(env, ss[i]).value;
            n in env'.defs && env'.defs[n].Keywords? && Declared(env'.defs[n]) == env'.defs[n]
    decreases |ss|
  {
    var n := Target(env, ss[i]).value;
    if Target(env, ss[0]) == Some(n) {
      InjectDeclares(env.defs[n]);
      DeclaredTwice(env.defs[n]);
      InjectTargetsKeepsDeclared(FirstStep(env, ss), ss[1..], n);
    } else {
      InjectTargetsDeclares(FirstStep(env, ss), ss[1..], i - 1);
    }
  }

  /** The variant refers to the definition `n`, which is a dictionary. */
  ghost predicate Aims(env: Env, s: Schema, n: string) {
    s.Keywords? && s.ref.Some? && RefersTo(s.ref.value, n) && n in env.defs && env.defs[n].Keywords?
  }

  lemma AimsExactly(env: Env, s: Schema, n: string)
    ensures Aims(env, s, n) <==> Target(env, s) == Some(n)
  {
    if s.Keywords? && s.ref.Some? {
      DefNameExactly(s.ref.value, n);
    }
  }

  lemma TargetStays(env: Env, ss: seq<Schema>, s: Schema)
    requires ss != []
    ensures Target(FirstStep(env, ss), s) == Target(env, s)
  {
  }

  lemma {:induction false} InjectTargetsKeepsNames(env: Env, ss: seq<Schema>)
    ensures InjectTargets(env, ss).defs.Keys == env.defs.Keys
    decreases |ss|
  {
    if ss != [] {
      InjectTargetsKeepsNames(FirstStep(env, ss), ss[1..]);
    }
  }

  lemma {:induction false} InjectTargetsSpares(env: Env, ss: seq<Schema>, n: string)
    requires forall s | s in ss :: Target(env, s) != Some(n)
    requires n in env.defs
    ensures n in InjectTargets(env, ss).defs && InjectTargets(env, ss).defs[n] == env.defs[n]
    decreases |ss|
  {
    if ss != [] {
      forall s | s in ss[1..] ensures Target(FirstStep(env, ss), s) != Some(n) {
        assert s in ss;
        TargetStays(env, ss, s);
      }
      assert Target(env, ss[0]) != Some(n);
      InjectTargetsSpares(FirstStep(env, ss), ss[1..], n);
    }
  }

  /**
   * What unwrapping a union does to the definitions: the models that a variant of its first
   * composition keyword refers to declare `database`, and all others are as they were.
   */
  lemma FixupDefinitionsExactly(doc: Document, n: string)
    requires doc.wrapped && doc.body.Keywords? && Acyclic(doc.env) && n in doc.env.defs
    requires doc.body.properties.Some? && "result" in doc.body.properties.value
    requires YieldsObject(doc.env, doc.body.properties.value["result"])
    ensures var result, env' := doc.body.properties.value["result"], Fixup(doc).env;
            var variants := if result.anyOf.Present? then result.anyOf.list
                            else if result.oneOf.Present? then result.oneOf.list
                            else if result.allOf.Present? then result.allOf.list
                            else [result];
            var aimed := exists s | s in variants :: Aims(doc.env, s, n);
            && n in env'.defs
            && (!aimed ==> env'.defs[n] == doc.env.defs[n])
            && (aimed && doc.env.defs[n].Keywords? && doc.env.defs[n].typ == Some(One(ObjectType)) ==>
                  env'.defs[n].Keywords? && Declared(env'.defs[n]) == env'.defs[n])
  {
    var result := doc.body.properties.value["result"];
    var ss := Variants(result);
    AimedExactly(doc.env, result, n);
    InjectTargetsKeepsNames(doc.env, ss);
    if exists s | s in ss :: Aims(doc.env, s, n) {
      if doc.env.defs[n].typ == Some(One(ObjectType)) {
        var s :| s in ss && Aims(doc.env, s, n);
        var i :| 0 <= i < |ss| && ss[i] == s;
        AimsExactly(doc.env, s, n);
        InjectTargetsDeclares(doc.env, ss, i);
      }
    } else {
      forall s | s in ss ensures Target(doc.env, s) != Some(n) {
        AimsExactly(doc.env, s, n);
      }
      InjectTargetsSpares(doc.env, ss, n);
    }
  }

  /** A reference without composition is its own variant, and an inline schema has none. */
  lemma AimedExactly(env: Env, result: Schema, n: string)
    requires result.Keywords?
    ensures var variants := if result.anyOf.Present? then result.anyOf.list
                            else if result.oneOf.Present? then result.oneOf.list
                            else if result.allOf.Present? then result.allOf.list
                            else [result];
            (exists s | s in variants :: Aims(env, s, n)) <==> (exists s | s in Variants(result) :: Aims(env, s, n))
  {
    if result.anyOf.Absent? && result.oneOf.Absent? && result.allOf.Absent? {
      var bare := OBJECT.(ref := result.ref);
      assert Aims(env, result, n) <==> Aims(env, bare, n);
      assert result in [result];
      if result.ref.Some? {
        assert Variants(result) == [bare] && bare in [bare];
      }
    }
  }

  /** A rewritten union of models accepts no `database` that is not a string. */
  lemma ModelUnionTypesDatabase(doc: Document, v: Json)
    requires doc.wrapped && doc.body.Keywords? && WellFormed(doc.env)
    requires ModelUnion(doc.env, ResultSchema(doc.body)) && Mistyped(v)
    ensures !Valid(Fixup(doc).env, Fixup(doc).body, v)
  {
    var result := ResultSchema(doc.body);
    var ss := Variants(result);
    var env' := InjectTargets(doc.env, ss);
    ModelUnionIsTolerant(doc.env, "", result);
    forall i | 0 <= i < |ss| ensures !Valid(env', ss[i], v) {
      assert ss[i] in ss;
      ModelRefTypesDatabase(doc.env, ss, i, v);
    }
    NoneValid(env', ss, v);
    if result.ref.Some? {
      assert Kept(result) == ss[0];
    } else {
      assert !BranchesValid(env', Kept(result), v);
    }
  }

  lemma ModelRefTypesDatabase(env: Env, ss: seq<Schema>, i: nat, v: Json)
    requires i < |ss| && RefersToModel(env, ss[i]) && Mistyped(v)
    ensures !Valid(InjectTargets(env, ss), ss[i], v)
  {
    var env', n := InjectTargets(env, ss), Target(env, ss[i]).value;
    InjectTargetsDeclares(env, ss, i);
    DeclaredRefuses(env', env'.defs[n], v);
    PointerTargetIsDefName(ss[i].ref.value);
    assert !RefValid(env', ss[i], v);
  }

  lemma {:induction false} NoneValid(env: Env, ss: seq<Schema>, v: Json)
    requires forall i | 0 <= i < |ss| :: !Valid(env, ss[i], v)
    ensures CountValid(env, ss, v) == 0
    decreases ss
  {
    if ss != [] {
      assert forall i | 0 <= i < |ss[1..]| :: ss[1..][i] == ss[i + 1];
      NoneValid(env, ss[1..], v);
    }
  }
}
