/** Which programs the sandbox accepts, told from the names in their text. */
module SandboxPolicy {
  import opened PythonAst
  import opened SandboxRewrite

  // ---- The names in a program -----------------------------------------------------------------

  /** The attribute names an expression mentions. */
  function AttrNames(e: Expr): set<string>
    decreases e
  {
    match e
    case Name(_) => {}
    case Constant(_) => {}
    case Attribute(o, attr, _) => {attr} + AttrNames(o)
    case Subscript(c, i) => AttrNames(c) + AttrNames(i)
    case BinOp(_, l, r) => AttrNames(l) + AttrNames(r)
    case Call(f, args) => AttrNames(f) + AllAttrNames(args)
  }

  function AllAttrNames(es: seq<Expr>): set<string>
    decreases es
  {
    if es == [] then {} else AttrNames(es[0]) + AllAttrNames(es[1..])
  }

  /** The variables an expression mentions. */
  function VarNames(e: Expr): set<string>
    decreases e
  {
    match e
    case Name(id) => {id}
    case Constant(_) => {}
    case Attribute(o, _, _) => VarNames(o)
    case Subscript(c, i) => VarNames(c) + VarNames(i)
    case BinOp(_, l, r) => VarNames(l) + VarNames(r)
    case Call(f, args) => VarNames(f) + AllVarNames(args)
  }

  function AllVarNames(es: seq<Expr>): set<string>
    decreases es
  {
    if es == [] then {} else VarNames(es[0]) + AllVarNames(es[1..])
  }

  /** The expressions a statement is made of, blocks excepted. */
  function Parts(s: Stmt): seq<Expr> {
    match s
    case Assign(t, v) => [t, v]
    case AugAssign(t, _, v) => [t, v]
    case Delete(t) => [t]
    case Evaluate(e) => [e]
    case If(t, _, _) => [t]
    case While(t, _) => [t]
    case Pass => []
  }

  function StmtAttrNames(s: Stmt): set<string>
    decreases s
  {
    AllAttrNames(Parts(s)) +
    match s
    case If(_, b, o) => BlockAttrNames(b) + BlockAttrNames(o)
    case While(_, b) => BlockAttrNames(b)
    case _ => {}
  }

  function BlockAttrNames(ss: seq<Stmt>): set<string>
    decreases ss
  {
    if ss == [] then {} else StmtAttrNames(ss[0]) + BlockAttrNames(ss[1..])
  }

  function StmtVarNames(s: Stmt): set<string>
    decreases s
  {
    AllVarNames(Parts(s)) +
    match s
    case If(_, b, o) => BlockVarNames(b) + BlockVarNames(o)
    case While(_, b) => BlockVarNames(b)
    case _ => {}
  }

  function BlockVarNames(ss: seq<Stmt>): set<string>
    decreases ss
  {
    if ss == [] then {} else StmtVarNames(ss[0]) + BlockVarNames(ss[1..])
  }

  /** A name, or a name followed by attribute reads: `a`, `a.b`, `a.b.c`. */
  predicate Dotted(e: Expr)
    decreases e
  {
    e.Name? || (e.Attribute? && Dotted(e.object_))
  }

  /** Every augmented assignment in the program has a dotted target. */
  predicate PlainTargets(s: Stmt)
    decreases s
  {
    match s
    case AugAssign(t, _, _) => Dotted(t)
    case If(_, b, o) => AllPlainTargets(b) && AllPlainTargets(o)
    case While(_, b) => AllPlainTargets(b)
    case _ => true
  }

  predicate AllPlainTargets(ss: seq<Stmt>)
    decreases ss
  {
    ss == [] || (PlainTargets(ss[0]) && AllPlainTargets(ss[1..]))
  }

  // ---- Which names are allowed ----------------------------------------------------------------------

  predicate StartsWithTwoUnderscores(name: string) {
    |name| >= 2 && name[0] == '_' && name[1] == '_'
  }

  predicate EndsInRoles(name: string) {
    |name| >= 9 && name[|name| - 9..] == ['_', '_', 'r', 'o', 'l', 'e', 's', '_', '_']
  }

  predicate AllowedAttr(name: string, inspect: set<string>) {
    !StartsWithTwoUnderscores(name) && !EndsInRoles(name) && name !in inspect
  }

  predicate AllowedVar(name: string) {
    name == [] || name[0] != '_'
  }

  lemma ForbiddenExactly(name: string, inspect: set<string>)
    ensures IsForbiddenAttr(name, inspect) <==> !AllowedAttr(name, inspect)
  {
    assert "__" <= name <==> StartsWithTwoUnderscores(name);
  }

  lemma BadNameExactly(name: string)
    ensures IsBadName(name) <==> !AllowedVar(name)
  {
  }

  /** The names in a piece of program are all allowed. */
  predicate Allowed(attrs: set<string>, vars: set<string>, inspect: set<string>) {
    (forall a | a in attrs :: AllowedAttr(a, inspect)) && (forall v | v in vars :: AllowedVar(v))
  }

  lemma AllowedUnion(a: set<string>, b: set<string>, v: set<string>, w: set<string>, inspect: set<string>)
    ensures Allowed(a + b, v + w, inspect) <==> Allowed(a, v, inspect) && Allowed(b, w, inspect)
  {
    if Allowed(a + b, v + w, inspect) {
      assert forall x | x in a :: x in a + b;
      assert forall x | x in b :: x in a + b;
      assert forall x | x in v :: x in v + w;
      assert forall x | x in w :: x in v + w;
    }
  }

  // ---- Acceptance, exactly ----------------------------------------------------------------------------

  /** An expression gives no error exactly when all its names are allowed. */
  lemma {:induction false} ExprAcceptedExactly(e: Expr, inspect: set<string>)
    ensures Errors(e, inspect) == [] <==> Allowed(AttrNames(e), VarNames(e), inspect)
    decreases e
  {
    match e
    case Name(id) => BadNameExactly(id);
    case Constant(_) =>
    case Attribute(o, attr, _) =>
      ForbiddenExactly(attr, inspect);
      ExprAcceptedExactly(o, inspect);
      AllowedUnion({attr}, AttrNames(o), {}, VarNames(o), inspect);
      assert {} + VarNames(o) == VarNames(o);
    case Subscript(c, i) =>
      ExprAcceptedExactly(c, inspect);
      ExprAcceptedExactly(i, inspect);
      AllowedUnion(AttrNames(c), AttrNames(i), VarNames(c), VarNames(i), inspect);
    case BinOp(_, l, r) =>
      ExprAcceptedExactly(l, inspect);
      ExprAcceptedExactly(r, inspect);
      AllowedUnion(AttrNames(l), AttrNames(r), VarNames(l), VarNames(r), inspect);
    case Call(f, args) =>
      ExprAcceptedExactly(f, inspect);
      AllAcceptedExactly(args, inspect);
      AllowedUnion(AttrNames(f), AllAttrNames(args), VarNames(f), AllVarNames(args), inspect);
  }

  lemma {:induction false} AllAcceptedExactly(es: seq<Expr>, inspect: set<string>)
    ensures AllErrors(es, inspect) == [] <==> Allowed(AllAttrNames(es), AllVarNames(es), inspect)
    decreases es
  {
    if es != [] {
      ExprAcceptedExactly(es[0], inspect);
      AllAcceptedExactly(es[1..], inspect);
      AllowedUnion(AttrNames(es[0]), AllAttrNames(es[1..]), VarNames(es[0]), AllVarNames(es[1..]), inspect);
    }
  }

  lemma {:induction false} DottedIsChain(e: Expr)
    ensures Dotted(e) <==> IsSimpleChain(e)
    decreases e
  {
    if e.Attribute? {
      DottedIsChain(e.object_);
    }
  }

  /** The errors of the parts of a statement, its blocks excepted. */
  lemma PartsAcceptedExactly(s: Stmt, inspect: set<string>)
    requires WellFormed(s) && !s.If? && !s.While?
    ensures StmtErrors(s, inspect) == [] <==>
              Allowed(StmtAttrNames(s), StmtVarNames(s), inspect) && PlainTargets(s)
  {
    var es := Parts(s);
    AllAcceptedExactly(es, inspect);
    assert StmtAttrNames(s) == AllAttrNames(es) && StmtVarNames(s) == AllVarNames(es);
    match s
    case Assign(t, v) => PairErrors(t, v, inspect);
    case AugAssign(t, _, v) =>
      PairErrors(t, v, inspect);
      DottedIsChain(t);
      if t.Subscript? {
      } else if t.Attribute? {
        DottedIsChain(t.object_);
      }
    case Delete(t) => OneErrors(t, inspect);
    case Evaluate(e) => OneErrors(e, inspect);
    case Pass =>
  }

  lemma OneErrors(e: Expr, inspect: set<string>)
    ensures AllErrors([e], inspect) == Errors(e, inspect)
  {
    assert [e][1..] == [];
  }

  lemma PairErrors(a: Expr, b: Expr, inspect: set<string>)
    ensures AllErrors([a, b], inspect) == Errors(a, inspect) + Errors(b, inspect)
  {
    assert [a, b][1..] == [b];
    OneErrors(b, inspect);
  }

  /**
   * A program is accepted exactly when none of its attribute names starts with two underscores,
   * ends in `__roles__` or is one of the introspection attributes, none of its variables starts
   * with an underscore, and every augmented assignment has a dotted target.
   */
  lemma {:induction false} StmtAcceptedExactly(s: Stmt, inspect: set<string>)
    requires WellFormed(s)
    ensures StmtErrors(s, inspect) == [] <==>
              Allowed(StmtAttrNames(s), StmtVarNames(s), inspect) && PlainTargets(s)
    decreases s
  {
    if s.If? {
      OneErrors(s.test, inspect);
      AllAcceptedExactly(Parts(s), inspect);
      BlockAcceptedExactly(s.body, inspect);
      BlockAcceptedExactly(s.orelse, inspect);
      var a, b, o := AllAttrNames(Parts(s)), BlockAttrNames(s.body), BlockAttrNames(s.orelse);
      var v, w, x := AllVarNames(Parts(s)), BlockVarNames(s.body), BlockVarNames(s.orelse);
      AllowedUnion(b, o, w, x, inspect);
      AllowedUnion(a, b + o, v, w + x, inspect);
    } else if s.While? {
      OneErrors(s.test, inspect);
      AllAcceptedExactly(Parts(s), inspect);
      BlockAcceptedExactly(s.body, inspect);
      var v, w := AllVarNames(Parts(s)), BlockVarNames(s.body);
      AllowedUnion(AllAttrNames(Parts(s)), BlockAttrNames(s.body), v, w, inspect);
    } else {
      PartsAcceptedExactly(s, inspect);
    }
  }

  lemma {:induction false} BlockAcceptedExactly(ss: seq<Stmt>, inspect: set<string>)
    requires AllWellFormed(ss)
    ensures BlockErrors(ss, inspect) == [] <==>
              Allowed(BlockAttrNames(ss), BlockVarNames(ss), inspect) && AllPlainTargets(ss)
    decreases ss
  {
    if ss != [] {
      StmtAcceptedExactly(ss[0], inspect);
      BlockAcceptedExactly(ss[1..], inspect);
      AllowedUnion(StmtAttrNames(ss[0]), BlockAttrNames(ss[1..]), StmtVarNames(ss[0]), BlockVarNames(ss[1..]), inspect);
    }
  }

  // ---- Which errors are given -------------------------------------------------------------------------

  /** The error names something in the expression that is not allowed. */
  predicate Names(x: Error, attrs: set<string>, vars: set<string>, inspect: set<string>) {
    || (x.ForbiddenAttribute? && x.name in attrs && !AllowedAttr(x.name, inspect))
    || (x.BadName? && x.id in vars && !AllowedVar(x.id))
  }

  /** An expression's errors are exactly its names that are not allowed. */
  lemma {:induction false} ExprErrorsExactly(e: Expr, inspect: set<string>, x: Error)
    ensures x in Errors(e, inspect) <==> Names(x, AttrNames(e), VarNames(e), inspect)
    decreases e
  {
    match e
    case Name(id) => BadNameExactly(id);
    case Constant(_) =>
    case Attribute(o, attr, _) =>
      ForbiddenExactly(attr, inspect);
      ExprErrorsExactly(o, inspect, x);
    case Subscript(c, i) =>
      ExprErrorsExactly(c, inspect, x);
      ExprErrorsExactly(i, inspect, x);
    case BinOp(_, l, r) =>
      ExprErrorsExactly(l, inspect, x);
      ExprErrorsExactly(r, inspect, x);
    case Call(f, args) =>
      ExprErrorsExactly(f, inspect, x);
      AllErrorsExactly(args, inspect, x);
  }

  lemma {:induction false} AllErrorsExactly(es: seq<Expr>, inspect: set<string>, x: Error)
    ensures x in AllErrors(es, inspect) <==> Names(x, AllAttrNames(es), AllVarNames(es), inspect)
    decreases es
  {
    if es != [] {
      ExprErrorsExactly(es[0], inspect, x);
      AllErrorsExactly(es[1..], inspect, x);
    }
  }

  /** A refused augmented target gives one error and nothing else of the statement is looked at. */
  lemma TargetRefusedExactly(t: Expr, op: string, e: Expr, inspect: set<string>)
    requires !Dotted(t) || (t.Attribute? && !AllowedAttr(t.attr, inspect))
    ensures RewriteStmt(AugAssign(t, op, e), inspect) == Pass
    ensures StmtErrors(AugAssign(t, op, e), inspect)
         == [if t.Attribute? && !AllowedAttr(t.attr, inspect) then ForbiddenAttribute(t.attr)
             else if t.Attribute? then ComplexTarget else SubscriptTarget]
  {
    DottedIsChain(t);
    if t.Attribute? {
      ForbiddenExactly(t.attr, inspect);
      DottedIsChain(t.object_);
    }
  }

  /** `self._x` may be read, `x.__class__` may not, and neither may what follows it. */
  lemma PrivateButNotDunder(inspect: set<string>)
    requires "_x" !in inspect
    ensures Errors(Attribute(Name("self"), "_x", Load), inspect) == []
    ensures Errors(Attribute(Attribute(Name("x"), "__class__", Load), "__globals__", Load), inspect) != []
  {
    var private_ := Attribute(Name("self"), "_x", Load);
    ExprAcceptedExactly(private_, inspect);
    assert AttrNames(private_) == {"_x"} && VarNames(private_) == {"self"};
    var dunder := Attribute(Attribute(Name("x"), "__class__", Load), "__globals__", Load);
    ExprAcceptedExactly(dunder, inspect);
    assert "__class__" in AttrNames(dunder) && StartsWithTwoUnderscores("__class__");
  }

  // ---- The rewriting, in full ----------------------------------------------------------------------------

  /** What the three rewritings look like, down to the names of the guards. */
  lemma RewritesTo(o: Expr, attr: string, op: string, e: Expr, inspect: set<string>)
    requires Dotted(o) && AllowedAttr(attr, inspect)
    ensures Rewrite(Attribute(o, attr, Load)) == Call(Name("_getattr_"), [Rewrite(o), Constant(StrValue(attr))])
    ensures Rewrite(Attribute(o, attr, Store)) == Attribute(Call(Name("_write_"), [Rewrite(o)]), attr, Store)
    ensures Rewrite(Attribute(o, attr, Del)) == Attribute(Call(Name("_write_"), [Rewrite(o)]), attr, Del)
    ensures RewriteStmt(AugAssign(Attribute(o, attr, Store), op, e), inspect)
         == Assign(Attribute(Call(Name("_write_"), [Rewrite(o)]), attr, Store),
                   Call(Name("_inplacevar_"),
                        [Constant(StrValue(op)),
                         Call(Name("_getattr_"), [Rewrite(o), Constant(StrValue(attr))]),
                         Rewrite(e)]))
    ensures RewriteStmt(AugAssign(Name(attr), op, e), inspect)
         == Assign(Name(attr), Call(Name("_inplacevar_"), [Constant(StrValue(op)), Name(attr), Rewrite(e)]))
  {
    ForbiddenExactly(attr, inspect);
    DottedIsChain(o);
  }
}
