/**
 * Unwrapped unions, variant by variant: references are injected into, inline variants are left
 * as they are. Exactly which payloads a rewritten union accepts, when that differs from the
 * original, and the ordinary unions for which it does not.
 */
module UnionAgreement {
  import opened Wrappers
  import opened JsonSchema
  import opened OutputSchema
  import opened PayloadAgreement

  // ---- Inline models ------------------------------------------------------------------------

  /** A model spelled out in place: no composition, no reference, no enumeration of values. */
  predicate InlineModel(s: Schema) {
    s.Keywords? && IsInline(s) && s.enum.None? && "database" !in s.required
  }

  /** The schema that `s` has for a member called `database` takes the ID. */
  predicate TakesDatabase(env: Env, db: string, s: Schema) {
    s.Keywords? && Valid(env, FieldSchema(s, "database"), String(db))
  }

  lemma InlineModelOpen(env: Env, db: string, s: Schema)
    requires Acyclic(env) && InlineModel(s)
    ensures Open(env, db, s) <==> TakesDatabase(env, db, s)
  {
  }

  /**
   * A variant that does not take a string as its `database` member (a closed model, or a mapping
   * to integers) rejects every payload that has one.
   */
  lemma ClosedVariantRejects(env: Env, db: string, s: Schema, x: Json)
    requires s.Keywords? && x.Object?
    requires !TakesDatabase(env, db, s)
    ensures !Valid(env, s, WithDatabase(x, db))
  {
    var w := WithDatabase(x, db);
    assert "database" in w.fields && w.fields["database"] == String(db);
    assert !FieldsValid(env, s, w);
  }

  /** A model may forbid extra members: injection is what lets `database` through. */
  lemma InjectedModelIsOpen(env: Env, db: string, s: Schema)
    requires Acyclic(env) && InlineModel(s) && (s.properties.Some? || s.typ == Some(One(ObjectType)))
    ensures Open(env, db, Inject(s))
  {
    assert FieldSchema(s.(properties := None, additional := None), "database") == Always(true);
    InjectedPropertyIsOpen(env, db, s);
  }

  // ---- One variant of a rewritten union ---------------------------------------------------------

  /** The unions treated: each variant is an inline model or tolerates the member. */
  ghost predicate Covered(env: Env, db: string, ss: seq<Schema>)
    requires WellFormed(env)
  {
    forall i | 0 <= i < |ss| :: InlineModel(ss[i]) || Tolerant(env, db, ss[i])
  }

  /** Variant `s` accepted the payload, and as an inline model takes the added member too. */
  predicate Accepts(env: Env, db: string, s: Schema, x: Json) {
    Valid(env, s, x) && (InlineModel(s) ==> TakesDatabase(env, db, s))
  }

  lemma CoveredTargets(env: Env, db: string, ss: seq<Schema>)
    requires WellFormed(env) && Covered(env, db, ss)
    ensures TargetsInjectable(env, ss)
  {
  }

  /** In the rewritten document a variant accepts the payload with `database` exactly when this holds. */
  lemma VariantExact(env: Env, db: string, ss: seq<Schema>, i: nat, x: Json)
    requires WellFormed(env) && Covered(env, db, ss) && i < |ss|
    requires x.Object? && WithoutDatabase(x)
    ensures Valid(InjectTargets(env, ss), ss[i], WithDatabase(x, db)) <==> Accepts(env, db, ss[i], x)
  {
    var env' := InjectTargets(env, ss);
    var s := ss[i];
    CoveredTargets(env, db, ss);
    InjectTargetsAgrees(env, ss, s, x);
    if InlineModel(s) {
      InlineModelOpen(env, db, s);
      InjectTargetsAgrees(env, ss, FieldSchema(s, "database"), String(db));
    }
    if InlineModel(s) && !TakesDatabase(env, db, s) {
      ClosedVariantRejects(env', db, s, x);
    } else {
      TolerantVariantOpens(env, db, ss, i);
      OpenIgnoresDatabase(env', db, s, x);
    }
  }

  /** How many of the variants that accepted the payload still do. */
  function CountAccepting(env: Env, db: string, ss: seq<Schema>, x: Json): nat {
    if ss == [] then 0
    else (if Accepts(env, db, ss[0], x) then 1 else 0) + CountAccepting(env, db, ss[1..], x)
  }

  lemma {:induction false} CountExact(env: Env, db: string, ss: seq<Schema>, from: nat, x: Json)
    requires WellFormed(env) && Covered(env, db, ss) && from <= |ss|
    requires x.Object? && WithoutDatabase(x)
    ensures CountValid(InjectTargets(env, ss), ss[from..], WithDatabase(x, db))
         == CountAccepting(env, db, ss[from..], x)
    decreases |ss| - from
  {
    if from < |ss| {
      VariantExact(env, db, ss, from, x);
      assert ss[from..][0] == ss[from] && ss[from..][1..] == ss[from + 1..];
      CountExact(env, db, ss, from + 1, x);
    }
  }

  // ---- The union ------------------------------------------------------------------------------------

  /** Whether the union's keyword is content when `n` of its variants accept. */
  predicate Content(union: Schema, n: nat)
    requires union.Keywords?
  {
    && (union.anyOf.Present? ==> n >= 1)
    && (union.oneOf.Present? ==> n == 1)
    && (union.allOf.Present? ==> n == |union.allOf.list|)
  }

  /** A `result` schema that is nothing but one composition keyword. */
  predicate PureUnion(result: Schema) {
    result.Keywords? && OnlyUnion(result) && result.ref.None? && !IsInline(result)
  }

  lemma UnionValid(env: Env, result: Schema, x: Json)
    requires PureUnion(result) && x.Object?
    ensures Valid(env, Kept(result), x) <==> Content(result, CountValid(env, Variants(result), x))
    ensures Valid(env, result, x) <==> Content(result, CountValid(env, Variants(result), x))
  {
    var kept := Kept(result);
    assert forall k | k in x.fields :: FieldSchema(kept, k) == Always(true) && FieldSchema(result, k) == Always(true);
    assert FieldsValid(env, kept, x) && FieldsValid(env, result, x);
    assert BranchesValid(env, kept, x) <==> Content(result, CountValid(env, Variants(result), x));
    assert BranchesValid(env, result, x) <==> Content(result, CountValid(env, Variants(result), x));
  }

  /**
   * The rewritten union accepts the enriched payload exactly when enough variants accepted the
   * payload and, where they are inline models, take the added member; the original one counts
   * all variants that accepted it. So the two disagree exactly when the two counts do.
   */
  lemma UnionExact(doc: Document, db: string, x: Json)
    requires doc.wrapped && doc.body.Keywords? && WellFormed(doc.env)
    requires PureUnion(ResultSchema(doc.body)) && YieldsObject(doc.env, ResultSchema(doc.body))
    requires Covered(doc.env, db, Variants(ResultSchema(doc.body)))
    requires x.Object? && WithoutDatabase(x)
    ensures var result := ResultSchema(doc.body);
            && (Valid(Fixup(doc).env, Fixup(doc).body, Enrich(Wrap(x), db)) <==>
                  Content(result, CountAccepting(doc.env, db, Variants(result), x)))
            && (Valid(doc.env, result, x) <==> Content(result, CountValid(doc.env, Variants(result), x)))
  {
    var result := ResultSchema(doc.body);
    var ss := Variants(result);
    assert ss[0..] == ss;
    CountExact(doc.env, db, ss, 0, x);
    UnionValid(doc.env, result, x);
    UnionValid(InjectTargets(doc.env, ss), result, WithDatabase(x, db));
    assert Enrich(Wrap(x), db) == WithDatabase(x, db);
  }

  // ---- What the rewriting loses ---------------------------------------------------------------------

  /** No variant that accepted the payload drops out. */
  predicate NoneDropsOut(env: Env, db: string, ss: seq<Schema>, x: Json) {
    forall s | s in ss :: Valid(env, s, x) && InlineModel(s) ==> TakesDatabase(env, db, s)
  }

  lemma {:induction false} AcceptingAreValid(env: Env, db: string, ss: seq<Schema>, x: Json)
    ensures CountAccepting(env, db, ss, x) <= CountValid(env, ss, x)
    ensures CountAccepting(env, db, ss, x) == CountValid(env, ss, x) <==> NoneDropsOut(env, db, ss, x)
    ensures CountAccepting(env, db, ss, x) == 0 <==> forall s | s in ss :: !Accepts(env, db, s, x)
    decreases ss
  {
    if ss != [] {
      AcceptingAreValid(env, db, ss[1..], x);
      assert forall s :: s in ss <==> s == ss[0] || s in ss[1..];
    }
  }

  /**
   * A payload the original union accepts stays accepted exactly when, under `anyOf`, one of the
   * variants that accepted it takes the member, and under `oneOf` and `allOf`, all of them do.
   */
  lemma UnionKeepsExactly(doc: Document, db: string, x: Json)
    requires doc.wrapped && doc.body.Keywords? && WellFormed(doc.env)
    requires PureUnion(ResultSchema(doc.body)) && YieldsObject(doc.env, ResultSchema(doc.body))
    requires Covered(doc.env, db, Variants(ResultSchema(doc.body)))
    requires x.Object? && WithoutDatabase(x) && Valid(doc.env, ResultSchema(doc.body), x)
    ensures var result := ResultSchema(doc.body);
            Valid(Fixup(doc).env, Fixup(doc).body, Enrich(Wrap(x), db)) <==>
              if result.anyOf.Present? then exists s | s in Variants(result) :: Accepts(doc.env, db, s, x)
              else NoneDropsOut(doc.env, db, Variants(result), x)
  {
    UnionExact(doc, db, x);
    AcceptingAreValid(doc.env, db, Variants(ResultSchema(doc.body)), x);
  }

  /** A union of nothing but closed models is rewritten to a schema that accepts no payload at all. */
  lemma ClosedUnionRejects(doc: Document, db: string, x: Json)
    requires doc.wrapped && doc.body.Keywords? && WellFormed(doc.env)
    requires PureUnion(ResultSchema(doc.body)) && YieldsObject(doc.env, ResultSchema(doc.body))
    requires forall s | s in Variants(ResultSchema(doc.body)) :: InlineModel(s) && !TakesDatabase(doc.env, db, s)
    requires x.Object? && WithoutDatabase(x)
    ensures !Valid(Fixup(doc).env, Fixup(doc).body, Enrich(Wrap(x), db))
  {
    UnionExact(doc, db, x);
    AcceptingAreValid(doc.env, db, Variants(ResultSchema(doc.body)), x);
  }

  // ---- Two documents that disagree --------------------------------------------------------------------

  /** A model with one string field `a`, which takes other members or not. */
  function ModelOfA(closed: bool): Schema {
    OBJECT.(properties := Some(map["a" := EMPTY.(typ := Some(One(StringType)))]),
            additional := if closed then Some(Always(false)) else None)
  }

  /** A wrapped result under the given `result` schema, with no definitions. */
  function WrappedResult(result: Schema): Document {
    Document(true, Env(map[], map[]), OBJECT.(properties := Some(map["result" := result]), required := {"result"}))
  }

  /** `{"a": "b"}`. */
  const PAYLOAD := Object(map["a" := String("b")])

  lemma ModelOfAAccepts(env: Env, closed: bool)
    ensures Valid(env, ModelOfA(closed), PAYLOAD) && WithoutDatabase(PAYLOAD)
    ensures InlineModel(ModelOfA(closed))
    ensures forall db :: TakesDatabase(env, db, ModelOfA(closed)) <==> !closed
    ensures Acyclic(env) ==> YieldsObject(env, ModelOfA(closed))
  {
    var s := ModelOfA(closed);
    assert FieldSchema(s, "a") == EMPTY.(typ := Some(One(StringType)));
    assert FieldSchema(s, "database") == Always(!closed);
    assert FieldsValid(env, s, PAYLOAD);
  }

  lemma WrappedPayloadValid(result: Schema)
    requires Valid(WrappedResult(result).env, result, PAYLOAD)
    ensures Valid(WrappedResult(result).env, WrappedResult(result).body, Wrap(PAYLOAD))
  {
    var doc := WrappedResult(result);
    assert FieldSchema(doc.body, "result") == result;
    assert FieldsValid(doc.env, doc.body, Wrap(PAYLOAD));
  }

  /** `anyOf` of one closed model: the original accepts `{"result": {"a": "b"}}`, and what is sent for it is refused. */
  lemma ClosedModelDisagrees(db: string)
    ensures var doc := WrappedResult(EMPTY.(anyOf := Present([ModelOfA(true)])));
            && Acyclic(doc.env) && YieldsObject(doc.env, ResultSchema(doc.body))
            && Valid(doc.env, doc.body, Wrap(PAYLOAD))
            && !Valid(Fixup(doc).env, Fixup(doc).body, Enrich(Wrap(PAYLOAD), db))
  {
    var result := EMPTY.(anyOf := Present([ModelOfA(true)]));
    var doc := WrappedResult(result);
    ModelOfAAccepts(doc.env, true);
    assert CountValid(doc.env, result.anyOf.list, PAYLOAD) == 1 by {
      assert result.anyOf.list[1..] == [];
    }
    UnionValid(doc.env, result, PAYLOAD);
    WrappedPayloadValid(result);
    assert AllYield(doc.env, result.anyOf.list) by {
      assert result.anyOf.list[1..] == [];
    }
    ClosedUnionRejects(doc, db, PAYLOAD);
  }

  /** `oneOf` of a closed and an open model: the payload both accepted is refused before and accepted after. */
  lemma OneOfStartsAccepting(db: string)
    ensures var doc := WrappedResult(EMPTY.(oneOf := Present([ModelOfA(true), ModelOfA(false)])));
            && Acyclic(doc.env) && YieldsObject(doc.env, ResultSchema(doc.body))
            && !Valid(doc.env, ResultSchema(doc.body), PAYLOAD)
            && Valid(Fixup(doc).env, Fixup(doc).body, Enrich(Wrap(PAYLOAD), db))
  {
    var result := EMPTY.(oneOf := Present([ModelOfA(true), ModelOfA(false)]));
    var doc, ss := WrappedResult(result), result.oneOf.list;
    ModelOfAAccepts(doc.env, true);
    ModelOfAAccepts(doc.env, false);
    assert ss[1..] == [ModelOfA(false)] && ss[1..][1..] == [];
    assert CountValid(doc.env, ss[1..], PAYLOAD) == 1 && CountAccepting(doc.env, db, ss[1..], PAYLOAD) == 1;
    assert CountValid(doc.env, ss, PAYLOAD) == 2 && CountAccepting(doc.env, db, ss, PAYLOAD) == 1;
    assert AllYield(doc.env, ss[1..]) && AllYield(doc.env, ss);
    UnionExact(doc, db, PAYLOAD);
  }

  lemma ModelOrText(env: Env, ss: seq<Schema>)
    requires Acyclic(env) && ss == [ModelOfA(false), EMPTY.(typ := Some(One(StringType)))]
    ensures CountValid(env, ss, PAYLOAD) >= 1 && !AllYield(env, ss)
  {
    ModelOfAAccepts(env, false);
    assert ss[1..] == [EMPTY.(typ := Some(One(StringType)))] && ss[1..][1..] == [];
    assert !YieldsObject(env, ss[1]) && !AllYield(env, ss[1..]);
  }

  /**
   * `anyOf` of a model and a string: the schema keeps its wrapper, the payload loses its own, and
   * what is sent is refused.
   */
  lemma MixedUnionDisagrees(db: string)
    ensures var doc := WrappedResult(EMPTY.(anyOf := Present([ModelOfA(false), EMPTY.(typ := Some(One(StringType)))])));
            && Acyclic(doc.env) && !YieldsObject(doc.env, ResultSchema(doc.body))
            && Valid(doc.env, doc.body, Wrap(PAYLOAD))
            && !Valid(Fixup(doc).env, Fixup(doc).body, Enrich(Wrap(PAYLOAD), db))
  {
    var text := EMPTY.(typ := Some(One(StringType)));
    var result := EMPTY.(anyOf := Present([ModelOfA(false), text]));
    var doc, ss := WrappedResult(result), result.anyOf.list;
    ModelOfAAccepts(doc.env, false);
    ModelOrText(doc.env, ss);
    UnionValid(doc.env, result, PAYLOAD);
    WrappedPayloadValid(result);
    assert Open(doc.env, db, Inject(doc.body)) by {
      assert FieldSchema(Inject(doc.body), "database") == DATABASE_FIELD;
    }
    assert IsBare(Wrap(PAYLOAD), PAYLOAD) && "result" !in PAYLOAD.fields;
    EnrichExactly(Wrap(PAYLOAD), db, Enrich(Wrap(PAYLOAD), db));
    MixedUnionMismatch(doc, db, Wrap(PAYLOAD), PAYLOAD, Enrich(Wrap(PAYLOAD), db));
  }

  // ---- Unions of models by reference, which always agree ------------------------------------------------

  /** Nothing but a reference, as FastMCP writes the variants of a union of models. */
  predicate PlainRef(s: Schema) {
    s.Keywords? && s.ref.Some? && (s == EMPTY.(ref := s.ref) || s == OBJECT.(ref := s.ref))
  }

  /** The definition that `s` refers to is an object model, closed or not. */
  predicate RefersToModel(env: Env, s: Schema) {
    && PlainRef(s) && DefName(s.ref).Some? && DefName(s.ref).value in env.defs
    && var def := env.defs[DefName(s.ref).value];
    && InlineModel(def) && def.typ == Some(One(ObjectType))
  }

  lemma ModelRefIsTolerant(env: Env, db: string, s: Schema)
    requires WellFormed(env) && RefersToModel(env, s)
    ensures Tolerant(env, db, s) && YieldsObject(env, s) && Typed(s)
  {
    var def := env.defs[DefName(s.ref).value];
    InjectedModelIsOpen(env, db, def);
    assert FieldSchema(s.(ref := None), "database") == Always(true);
  }

  lemma {:induction false} ModelRefsYield(env: Env, db: string, ss: seq<Schema>)
    requires WellFormed(env) && forall s | s in ss :: RefersToModel(env, s)
    ensures AllYield(env, ss) && AllTyped(ss) && (ss != [] ==> SomeYields(env, ss))
    decreases ss
  {
    if ss != [] {
      assert ss[0] in ss && forall s | s in ss[1..] :: s in ss;
      ModelRefIsTolerant(env, db, ss[0]);
      ModelRefsYield(env, db, ss[1..]);
    }
  }

  /** A union of references to models, or one such reference. */
  predicate ModelUnion(env: Env, result: Schema) {
    && result.Keywords? && OnlyUnion(result) && !IsInline(result)
    && Variants(result) != [] && forall s | s in Variants(result) :: RefersToModel(env, s)
  }

  /** Such a result meets every hypothesis of the agreement theorems. */
  lemma ModelUnionIsTolerant(env: Env, db: string, result: Schema)
    requires WellFormed(env) && ModelUnion(env, result)
    ensures Typed(result) && YieldsObject(env, result) && ResultTolerant(env, db, result)
  {
    var ss := Variants(result);
    ModelRefsYield(env, db, ss);
    forall i | 0 <= i < |ss| ensures Tolerant(env, db, ss[i]) {
      assert ss[i] in ss;
      ModelRefIsTolerant(env, db, ss[i]);
    }
    if result.ref.Some? {
      assert ss[0] in ss && ss[0].ref == result.ref;
    }
  }

  /** So for unions of models, closed or open, the rewritten schema accepts exactly the payloads of valid results. */
  lemma ModelUnionExact(doc: Document, db: string, x: Json)
    requires doc.wrapped && doc.body.Keywords? && WellFormed(doc.env)
    requires ModelUnion(doc.env, ResultSchema(doc.body))
    requires x.Object? && WithoutDatabase(x)
    ensures Valid(Fixup(doc).env, Fixup(doc).body, Enrich(Wrap(x), db)) <==> Valid(doc.env, ResultSchema(doc.body), x)
  {
    ModelUnionIsTolerant(doc.env, db, ResultSchema(doc.body));
    EnrichedUnwrappedExact(doc, db, x);
  }
}
