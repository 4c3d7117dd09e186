/**
 * The rewriting of payloads (`unwrap_auto_wrapped`, `_enrich_result`), and the theorems that a
 * rewritten payload validates against the rewritten schema.
 */
module PayloadAgreement {
  import opened Wrappers
  import opened JsonSchema
  import opened OutputSchema

  // ---- Payloads -------------------------------------------------------------------------

  /** `unwrap_auto_wrapped`. */
  function Unwrap(v: Json): (r: Json)
    requires v.Object?
    ensures r.Object?
  {
    if |v.fields| == 1 && "result" in v.fields && v.fields["result"].Object? then v.fields["result"] else v
  }

  /** What `_enrich_result` makes of one JSON object. */
  function Enrich(v: Json, db: string): (r: Json)
    requires v.Object?
    ensures r.Object?
  {
    WithDatabase(Unwrap(v), db)
  }

  /** `v` is what FastMCP makes of a result `x`: an object with the one member `result`. */
  predicate Wraps(v: Json, x: Json) {
    v == Object(map["result" := x])
  }

  /**
   * What is to be sent for the object `v` of database `db`: if `v` wraps an object, that object's
   * members, and otherwise the members of `v`; in either case with `database` added.
   */
  ghost predicate Sends(v: Json, db: string, sent: Json)
    requires v.Object?
  {
    && (forall x | Wraps(v, x) && x.Object? :: sent == Object(x.fields["database" := String(db)]))
    && ((forall x | Wraps(v, x) :: !x.Object?) ==> sent == Object(v.fields["database" := String(db)]))
  }

  lemma WrapsExactly(v: Json, x: Json)
    requires v.Object?
    ensures Wraps(v, x) <==> |v.fields| == 1 && "result" in v.fields && v.fields["result"] == x
  {
    if |v.fields| == 1 && "result" in v.fields {
      assert v.fields.Keys == {"result"} by {
        OnlyMember(v.fields.Keys, "result");
      }
      assert v.fields == map["result" := v.fields["result"]];
    }
  }

  lemma OnlyMember(s: set<string>, k: string)
    requires |s| == 1 && k in s
    ensures s == {k}
  {
    assert |s - {k}| == 0;
    assert s == {k} + (s - {k});
  }

  /** `Enrich` sends exactly that, for every object. */
  lemma EnrichExactly(v: Json, db: string, sent: Json)
    requires v.Object?
    ensures Sends(v, db, sent) <==> sent == Enrich(v, db)
  {
    forall x ensures Wraps(v, x) <==> |v.fields| == 1 && "result" in v.fields && v.fields["result"] == x {
      WrapsExactly(v, x);
    }
    if |v.fields| == 1 && "result" in v.fields {
      assert Wraps(v, v.fields["result"]);
    }
  }

  /** A content block: text, with the JSON it parses to if it does, or another kind. */
  datatype Block = Text(parsed: Option<Json>) | Media

  predicate HoldsObject(b: Block) {
    b.Text? && b.parsed.Some? && b.parsed.value.Object?
  }

  datatype CallToolResult = CallToolResult(content: seq<Block>, structured: Option<Json>, isError: bool)

  /** The text block that `_enrich_result` picks: the first one that holds an object. */
  predicate IsFirstObject(content: seq<Block>, i: nat)
    requires i < |content|
  {
    && content[i].Text? && content[i].parsed.Some? && content[i].parsed.value.Object?
    && forall j | 0 <= j < i && content[j].Text? && content[j].parsed.Some? :: !content[j].parsed.value.Object?
  }

  /** Block `i` of the answer: the first object is enriched, every other block is as it was. */
  ghost predicate BlockSent(content: seq<Block>, r: seq<Block>, i: nat, db: string)
    requires i < |content| && i < |r|
  {
    if IsFirstObject(content, i)
    then r[i].Text? && r[i].parsed.Some? && Sends(content[i].parsed.value, db, r[i].parsed.value)
    else r[i] == content[i]
  }

  /** The first `n` blocks have been dealt with. */
  ghost predicate SentUpTo(content: seq<Block>, r: seq<Block>, n: nat, db: string) {
    n == |r| <= |content| && forall i | 0 <= i < n :: BlockSent(content, r, i, db)
  }

  predicate SomeObject(content: seq<Block>, n: nat)
    requires n <= |content|
  {
    exists j | 0 <= j < n :: HoldsObject(content[j])
  }

  lemma AppendBlock(content: seq<Block>, r: seq<Block>, b: Block, db: string)
    requires |r| < |content| && SentUpTo(content, r, |r|, db)
    requires BlockSent(content, r + [b], |r|, db)
    ensures SentUpTo(content, r + [b], |r| + 1, db)
  {
    forall i | 0 <= i < |r| ensures BlockSent(content, r + [b], i, db) {
      assert BlockSent(content, r, i, db);
    }
  }

  /**
   * `_enrich_result`: the first text block that holds an object is enriched and no other block
   * changes; so is the structured content, when it is an object.
   */
  method EnrichResult(result: CallToolResult, db: string) returns (r: CallToolResult)
    ensures r.isError == result.isError
    ensures SentUpTo(result.content, r.content, |result.content|, db)
    ensures if result.structured.Some? && result.structured.value.Object?
            then r.structured.Some? && Sends(result.structured.value, db, r.structured.value)
            else r.structured == result.structured
  {
    var newContent: seq<Block> := [];
    var enriched := false;
    for i := 0 to |result.content|
      invariant enriched <==> SomeObject(result.content, i)
      invariant SentUpTo(result.content, newContent, i, db)
    {
      var item := result.content[i];
      if !enriched && HoldsObject(item) {
        EnrichExactly(item.parsed.value, db, Enrich(item.parsed.value, db));
        item := Text(Some(Enrich(item.parsed.value, db)));
        enriched := true;
      }
      AppendBlock(result.content, newContent, item, db);
      newContent := newContent + [item];
    }
    var structured := result.structured;
    if structured.Some? && structured.value.Object? {
      EnrichExactly(structured.value, db, Enrich(structured.value, db));
      structured := Some(Enrich(structured.value, db));
    }
    r := CallToolResult(newContent, structured, result.isError);
  }

  // ---- Injecting into several definitions --------------------------------------------------

  /** The definitions that the variants refer to are object schemas. */
  ghost predicate TargetsInjectable(env: Env, ss: seq<Schema>) {
    forall i | 0 <= i < |ss| :: Target(env, ss[i]).Some? ==> Injectable(env, Target(env, ss[i]).value)
  }

  function FirstStep(env: Env, ss: seq<Schema>): Env
    requires ss != []
  {
    var name := Target(env, ss[0]);
    if name.Some? then InjectDef(env, name.value) else env
  }

  lemma FirstStepKeeps(env: Env, ss: seq<Schema>)
    requires ss != [] && WellFormed(env) && TargetsInjectable(env, ss)
    ensures WellFormed(FirstStep(env, ss))
    ensures forall s :: Target(FirstStep(env, ss), s) == Target(env, s)
    ensures TargetsInjectable(FirstStep(env, ss), ss[1..])
  {
    var name := Target(env, ss[0]);
    if name.Some? {
      InjectDefKeepsWellFormed(env, name.value);
      forall i | 0 <= i < |ss[1..]| && Target(env, ss[1..][i]).Some?
        ensures Injectable(FirstStep(env, ss), Target(env, ss[1..][i]).value)
      {
        assert ss[1..][i] == ss[i + 1];
        InjectDefKeepsInjectable(env, name.value, Target(env, ss[i + 1]).value);
      }
    } else {
      forall i | 0 <= i < |ss[1..]| && Target(env, ss[1..][i]).Some?
        ensures Injectable(FirstStep(env, ss), Target(env, ss[1..][i]).value)
      {
        assert ss[1..][i] == ss[i + 1];
      }
    }
  }

  lemma {:induction false} InjectTargetsKeepsWellFormed(env: Env, ss: seq<Schema>)
    requires WellFormed(env) && TargetsInjectable(env, ss)
    ensures WellFormed(InjectTargets(env, ss))
    decreases |ss|
  {
    if ss != [] {
      FirstStepKeeps(env, ss);
      InjectTargetsKeepsWellFormed(FirstStep(env, ss), ss[1..]);
    }
  }

  /** Reuse of the mutated definitions elsewhere: no verdict changes without a `database`. */
  lemma {:induction false} InjectTargetsAgrees(env: Env, ss: seq<Schema>, s: Schema, v: Json)
    requires WellFormed(env) && TargetsInjectable(env, ss) && WithoutDatabase(v)
    ensures Valid(InjectTargets(env, ss), s, v) == Valid(env, s, v)
    decreases |ss|
  {
    if ss != [] {
      FirstStepKeeps(env, ss);
      InjectTargetsAgrees(FirstStep(env, ss), ss[1..], s, v);
      if Target(env, ss[0]).Some? {
        InjectDefAgrees(env, Target(env, ss[0]).value, s, v);
      }
    }
  }

  lemma {:induction false} InjectTargetsKeepsOpen(env: Env, db: string, ss: seq<Schema>, s: Schema)
    requires WellFormed(env) && TargetsInjectable(env, ss) && Open(env, db, s)
    ensures WellFormed(InjectTargets(env, ss)) && Open(InjectTargets(env, ss), db, s)
    decreases |ss|
  {
    if ss != [] {
      FirstStepKeeps(env, ss);
      if Target(env, ss[0]).Some? {
        InjectDefKeepsOpen(env, db, Target(env, ss[0]).value, s);
      }
      InjectTargetsKeepsOpen(FirstStep(env, ss), db, ss[1..], s);
    }
  }

  /** A definition that is open when the loop starts is open when it ends. */
  lemma {:induction false} InjectTargetsKeepsOpenDef(env: Env, db: string, ss: seq<Schema>, n: string)
    requires WellFormed(env) && TargetsInjectable(env, ss)
    requires n in env.defs && Open(env, db, env.defs[n])
    ensures WellFormed(InjectTargets(env, ss)) && n in InjectTargets(env, ss).defs
    ensures Open(InjectTargets(env, ss), db, InjectTargets(env, ss).defs[n])
    decreases |ss|
  {
    if ss != [] {
      FirstStepKeeps(env, ss);
      var name := Target(env, ss[0]);
      if name.Some? {
        InjectDefKeepsOpen(env, db, name.value, env.defs[n]);
        if name.value == n {
          InjectKeepsOpen(InjectDef(env, n), db, env.defs[n]);
        }
      }
      InjectTargetsKeepsOpenDef(FirstStep(env, ss), db, ss[1..], n);
    }
  }

  /** A definition the loop injects into is open when it ends, if injecting makes it open. */
  lemma {:induction false} InjectTargetsOpensDef(env: Env, db: string, ss: seq<Schema>, i: nat)
    requires WellFormed(env) && TargetsInjectable(env, ss)
    requires i < |ss| && Target(env, ss[i]).Some?
    requires Open(env, db, Inject(env.defs[Target(env, ss[i]).value]))
    ensures var n := Target(env, ss[i]).value;
            && WellFormed(InjectTargets(env, ss))
            && n in InjectTargets(env, ss).defs
            && Open(InjectTargets(env, ss), db, InjectTargets(env, ss).defs[n])
    decreases |ss|
  {
    FirstStepKeeps(env, ss);
    var n := Target(env, ss[i]).value;
    var name := Target(env, ss[0]);
    if name.Some? {
      InjectDefKeepsOpen(env, db, name.value, Inject(env.defs[n]));
    }
    if name == Some(n) {
      InjectTargetsKeepsOpenDef(FirstStep(env, ss), db, ss[1..], n);
    } else {
      InjectTargetsOpensDef(FirstStep(env, ss), db, ss[1..], i - 1);
    }
  }

  // ---- Hypotheses ---------------------------------------------------------------------------

  /**
   * A variant tolerates the extra member: a reference to a definition does once the definition
   * has been injected into, and an inline variant, which the code leaves alone, does as it is.
   */
  ghost predicate Tolerant(env: Env, db: string, s: Schema)
    requires WellFormed(env)
  {
    var name := Target(env, s);
    if name.Some? then
      && Injectable(env, name.value)
      && Open(env, db, Inject(env.defs[name.value]))
      && Open(env, db, s.(ref := None))
    else Open(env, db, s)
  }

  ghost predicate ResultTolerant(env: Env, db: string, result: Schema)
    requires WellFormed(env) && result.Keywords?
  {
    if IsInline(result) then Open(env, db, Inject(Kept(result)))
    else forall i | 0 <= i < |Variants(result)| :: Tolerant(env, db, Variants(result)[i])
  }

  /** A tolerant variant is open once the loop has run, whatever the other variants are. */
  lemma TolerantVariantOpens(env: Env, db: string, ss: seq<Schema>, i: nat)
    requires WellFormed(env) && TargetsInjectable(env, ss)
    requires i < |ss| && Tolerant(env, db, ss[i])
    ensures WellFormed(InjectTargets(env, ss)) && Open(InjectTargets(env, ss), db, ss[i])
  {
    if Target(env, ss[i]).Some? {
      var s := ss[i];
      InjectTargetsOpensDef(env, db, ss, i);
      InjectTargetsKeepsOpen(env, db, ss, s.(ref := None));
      assert FieldSchema(s, "database") == FieldSchema(s.(ref := None), "database");
    } else {
      InjectTargetsKeepsOpen(env, db, ss, ss[i]);
    }
  }

  lemma {:induction false} AllVariantsOpen(env: Env, db: string, ss: seq<Schema>)
    requires Acyclic(env) && forall i | 0 <= i < |ss| :: Open(env, db, ss[i])
    ensures AllOpen(env, db, ss)
    decreases |ss|
  {
    if ss != [] {
      forall i | 0 <= i < |ss[1..]| ensures Open(env, db, ss[1..][i]) {
        assert ss[1..][i] == ss[i + 1];
      }
      AllVariantsOpen(env, db, ss[1..]);
    }
  }

  /** The unwrapped schema, with its definitions injected into, is open. */
  lemma KeptOpens(env: Env, db: string, result: Schema)
    requires WellFormed(env) && result.Keywords? && !IsInline(result)
    requires ResultTolerant(env, db, result)
    ensures WellFormed(InjectTargets(env, Variants(result)))
    ensures Open(InjectTargets(env, Variants(result)), db, Kept(result))
  {
    var ss := Variants(result);
    assert TargetsInjectable(env, ss);
    InjectTargetsKeepsWellFormed(env, ss);
    var env' := InjectTargets(env, ss);
    forall i | 0 <= i < |ss| ensures Open(env', db, ss[i]) {
      TolerantVariantOpens(env, db, ss, i);
    }
    AllVariantsOpen(env', db, ss);
    assert FieldSchema(Kept(result), "database") == Always(true);
    if result.anyOf.Absent? && result.oneOf.Absent? && result.allOf.Absent? {
      assert Kept(result) == ss[0];
    }
  }

  // ---- Theorems: unwrapped results -----------------------------------------------------------

  /**
   * For an object `x`, the rewritten document accepts `x` with `database` added exactly when
   * the kept part of the `result` schema accepted `x`.
   */
  lemma UnwrappedAgrees(doc: Document, db: string, x: Json)
    requires doc.wrapped && doc.body.Keywords? && WellFormed(doc.env)
    requires YieldsObject(doc.env, ResultSchema(doc.body))
    requires ResultTolerant(doc.env, db, ResultSchema(doc.body))
    requires x.Object? && WithoutDatabase(x)
    ensures Valid(Fixup(doc).env, Fixup(doc).body, WithDatabase(x, db))
         == Valid(doc.env, Kept(ResultSchema(doc.body)), x)
  {
    var env, result := doc.env, ResultSchema(doc.body);
    var kept := Kept(result);
    if IsInline(result) {
      OpenIgnoresDatabase(env, db, Inject(kept), x);
      InjectAgreesOnObjects(env, kept, x);
    } else {
      KeptOpens(env, db, result);
      assert TargetsInjectable(env, Variants(result));
      OpenIgnoresDatabase(InjectTargets(env, Variants(result)), db, kept, x);
      InjectTargetsAgrees(env, Variants(result), kept, x);
    }
  }

  /** Unwrapping only drops constraints, so what `result` accepted its kept part accepts. */
  lemma KeptAccepts(env: Env, result: Schema, x: Json)
    requires Acyclic(env) && result.Keywords? && x.Object?
    requires Valid(env, result, x)
    ensures Valid(env, Kept(result), x)
  {
    var kept := Kept(result);
    if IsInline(result) {
      assert forall k | k in x.fields :: FieldSchema(kept, k) == FieldSchema(result, k);
      assert RankOf(env.rank, kept) == RankOf(env.rank, result) == 0;
    } else {
      assert forall k | k in x.fields :: FieldSchema(kept, k) == Always(true);
      assert FieldsValid(env, kept, x);
      if result.anyOf.Absent? && result.oneOf.Absent? && result.allOf.Absent? {
        assert RankOf(env.rank, kept) == RankOf(env.rank, result);
        assert RefValid(env, result, x);
        assert RefValid(env, kept, x);
      }
    }
  }

  /** A schema with nothing but one composition keyword or one reference loses nothing. */
  predicate OnlyUnion(result: Schema)
    requires result.Keywords?
  {
    result == EMPTY.(anyOf := result.anyOf) || result == EMPTY.(oneOf := result.oneOf)
    || result == EMPTY.(allOf := result.allOf) || result == EMPTY.(ref := result.ref)
  }

  lemma KeptExact(env: Env, result: Schema, x: Json)
    requires Acyclic(env) && result.Keywords? && x.Object?
    requires OnlyUnion(result)
    ensures Valid(env, Kept(result), x) == Valid(env, result, x)
  {
    var kept := Kept(result);
    assert kept == result.(typ := Some(One(ObjectType)));
    assert forall k | k in x.fields :: FieldSchema(kept, k) == Always(true) && FieldSchema(result, k) == Always(true);
    assert FieldsValid(env, kept, x) && FieldsValid(env, result, x);
    assert RankOf(env.rank, kept) == RankOf(env.rank, result);
    assert RefValid(env, kept, x) == RefValid(env, result, x);
    assert BranchesValid(env, kept, x) == BranchesValid(env, result, x);
  }

  /** What FastMCP sends for a wrapped result: an object with the one member `result`. */
  function Wrap(x: Json): (r: Json)
    ensures r.Object?
  {
    Object(map["result" := x])
  }

  lemma WrappedResultValid(env: Env, body: Schema, x: Json)
    requires body.Keywords? && body.properties.Some? && "result" in body.properties.value
    requires Valid(env, body, Wrap(x))
    ensures Valid(env, ResultSchema(body), x)
  {
    assert FieldsValid(env, body, Wrap(x));
    assert "result" in Wrap(x).fields;
    assert FieldSchema(body, "result") == ResultSchema(body);
  }

  /**
   * The schema a client sees for an unwrapped result accepts the payload it gets: when the
   * original schema accepts the wrapped payload, the payload is an object, it is sent unwrapped
   * with `database` added, and the rewritten schema accepts that.
   */
  lemma EnrichedUnwrappedValidates(doc: Document, db: string, x: Json)
    requires doc.wrapped && doc.body.Keywords? && WellFormed(doc.env)
    requires doc.body.properties.Some? && "result" in doc.body.properties.value
    requires Typed(ResultSchema(doc.body)) && YieldsObject(doc.env, ResultSchema(doc.body))
    requires ResultTolerant(doc.env, db, ResultSchema(doc.body))
    requires WithoutDatabase(x) && Valid(doc.env, doc.body, Wrap(x))
    ensures x.Object? && Enrich(Wrap(x), db) == WithDatabase(x, db)
    ensures Valid(Fixup(doc).env, Fixup(doc).body, Enrich(Wrap(x), db))
  {
    var result := ResultSchema(doc.body);
    WrappedResultValid(doc.env, doc.body, x);
    YieldsObjectIsSound(doc.env, result, x);
    KeptAccepts(doc.env, result, x);
    UnwrappedAgrees(doc, db, x);
  }

  /** And it is no looser: when `result` is a pure union, only such payloads are accepted. */
  lemma EnrichedUnwrappedExact(doc: Document, db: string, x: Json)
    requires doc.wrapped && doc.body.Keywords? && WellFormed(doc.env)
    requires YieldsObject(doc.env, ResultSchema(doc.body)) && OnlyUnion(ResultSchema(doc.body))
    requires ResultTolerant(doc.env, db, ResultSchema(doc.body))
    requires x.Object? && WithoutDatabase(x)
    ensures Valid(Fixup(doc).env, Fixup(doc).body, Enrich(Wrap(x), db)) <==> Valid(doc.env, ResultSchema(doc.body), x)
  {
    UnwrappedAgrees(doc, db, x);
    KeptExact(doc.env, ResultSchema(doc.body), x);
  }

  // ---- Theorems: results that keep their shape ---------------------------------------------------

  /** Documents whose own body gets the `database` property. */
  predicate KeepsShape(doc: Document)
    requires doc.body.Keywords? && Acyclic(doc.env)
  {
    doc.wrapped ==> !YieldsObject(doc.env, ResultSchema(doc.body))
  }

  /** `y` is the payload without a wrapper: the object that `v` wraps, or else `v` itself. */
  ghost predicate IsBare(v: Json, y: Json) {
    && y.Object?
    && (Wraps(v, y) || (y == v && forall x | Wraps(v, x) :: !x.Object?))
  }

  lemma BareExactly(v: Json, y: Json)
    requires v.Object?
    ensures IsBare(v, y) <==> y == Unwrap(v)
  {
    forall x ensures Wraps(v, x) <==> |v.fields| == 1 && "result" in v.fields && v.fields["result"] == x {
      WrapsExactly(v, x);
    }
    if |v.fields| == 1 && "result" in v.fields {
      assert Wraps(v, v.fields["result"]);
    }
  }

  /**
   * When the schema is not unwrapped, the rewritten schema accepts the enriched payload exactly
   * when the original schema accepts the bare payload. For a scalar or array result that stays
   * wrapped, and for a plain model, that is the payload itself.
   */
  lemma EnrichedInPlaceExact(doc: Document, db: string, v: Json, bare: Json, sent: Json)
    requires doc.body.Keywords? && Acyclic(doc.env) && KeepsShape(doc)
    requires Open(doc.env, db, Inject(doc.body))
    requires v.Object? && IsBare(v, bare) && Sends(v, db, sent) && "database" !in bare.fields
    ensures Valid(Fixup(doc).env, Fixup(doc).body, sent) <==> Valid(doc.env, doc.body, bare)
  {
    BareExactly(v, bare);
    EnrichExactly(v, db, sent);
    OpenIgnoresDatabase(doc.env, db, Inject(doc.body), bare);
    InjectAgreesOnObjects(doc.env, doc.body, bare);
  }

  /** A wrapped payload stays as it is exactly when its result is no object. */
  lemma WrappedScalarStaysWrapped(x: Json, db: string)
    ensures IsBare(Wrap(x), Wrap(x)) <==> !x.Object?
    ensures x.Object? ==> Sends(Wrap(x), db, WithDatabase(x, db))
    ensures !x.Object? ==> Sends(Wrap(x), db, Object(map["result" := x, "database" := String(db)]))
  {
    BareExactly(Wrap(x), Wrap(x));
    assert Wrap(x).fields["result"] < Wrap(x);
    EnrichExactly(Wrap(x), db, Enrich(Wrap(x), db));
    assert map["result" := x]["database" := String(db)] == map["result" := x, "database" := String(db)];
  }

  /**
   * The other case is a real mismatch: a payload whose only member is an object called `result`
   * is unwrapped although the schema is not. Where the schema requires `result`, a payload the
   * original schema accepts is accepted after enriching exactly when it was left alone, or its
   * inner object brings a `result` of its own and is itself accepted.
   */
  lemma MixedUnionMismatch(doc: Document, db: string, v: Json, bare: Json, sent: Json)
    requires doc.body.Keywords? && Acyclic(doc.env) && KeepsShape(doc)
    requires Open(doc.env, db, Inject(doc.body)) && "result" in doc.body.required
    requires v.Object? && IsBare(v, bare) && Sends(v, db, sent) && "database" !in bare.fields
    requires Valid(doc.env, doc.body, v)
    ensures Valid(Fixup(doc).env, Fixup(doc).body, sent) <==>
              bare == v || ("result" in bare.fields && Valid(doc.env, doc.body, bare))
  {
    EnrichedInPlaceExact(doc, db, v, bare, sent);
    if "result" !in bare.fields {
      assert !FieldsValid(doc.env, doc.body, bare);
    }
  }
}
