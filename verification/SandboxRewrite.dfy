/** The sandbox's restricting transformer: the overridden visitors over a plain traversal. */
module SandboxRewrite {
  import opened PythonAst

  const GETATTR := "_getattr_"
  const WRITE := "_write_"
  const INPLACEVAR := "_inplacevar_"

  datatype Error =
    | ForbiddenAttribute(name: string)
    | ComplexTarget
    | SubscriptTarget
    | BadName(id: string)

  predicate StartsWith(s: string, prefix: string) {
    prefix <= s
  }

  predicate EndsWith(s: string, suffix: string) {
    |suffix| <= |s| && s[|s| - |suffix|..] == suffix
  }

  /** `_is_forbidden_attr`; `inspect` is the library's set of introspection attributes. */
  predicate IsForbiddenAttr(name: string, inspect: set<string>) {
    StartsWith(name, "__") || EndsWith(name, "__roles__") || name in inspect
  }

  /** Names the base transformer refuses as variables. */
  predicate IsBadName(id: string) {
    StartsWith(id, "_")
  }

  /** A name followed by any number of attribute reads. */
  predicate IsSimpleChain(e: Expr)
    decreases e
  {
    e.Name? || (e.Attribute? && IsSimpleChain(e.object_))
  }

  /** `_is_simple_attr_chain`, as the source runs it. */
  method IsSimpleAttrChain(e: Expr) returns (r: bool)
    ensures r == IsSimpleChain(e)
  {
    var node := e;
    while node.Attribute?
      invariant IsSimpleChain(node) == IsSimpleChain(e)
      decreases node
    {
      node := node.object_;
    }
    r := node.Name?;
  }

  // ---- Expressions -----------------------------------------------------------------------

  function Guarded(o: Expr, attr: string): Expr {
    Call(Name(GETATTR), [o, Constant(StrValue(attr))])
  }

  function Writable(o: Expr): Expr {
    Call(Name(WRITE), [o])
  }

  /** What the visitors turn an expression into. */
  function Rewrite(e: Expr): Expr
    decreases e
  {
    match e
    case Name(_) => e
    case Constant(_) => e
    case Attribute(o, attr, ctx) =>
      if ctx.Load? then Guarded(Rewrite(o), attr) else Attribute(Writable(Rewrite(o)), attr, ctx)
    case Subscript(c, i) => Subscript(Rewrite(c), Rewrite(i))
    case BinOp(op, l, r) => BinOp(op, Rewrite(l), Rewrite(r))
    case Call(f, args) => Call(Rewrite(f), RewriteAll(args))
  }

  function RewriteAll(es: seq<Expr>): (r: seq<Expr>)
    ensures |r| == |es|
    decreases es
  {
    if es == [] then [] else [Rewrite(es[0])] + RewriteAll(es[1..])
  }

  /** The errors recorded on the way, in order. */
  function Errors(e: Expr, inspect: set<string>): seq<Error>
    decreases e
  {
    match e
    case Name(id) => if IsBadName(id) then [BadName(id)] else []
    case Constant(_) => []
    case Attribute(o, attr, _) =>
      (if IsForbiddenAttr(attr, inspect) then [ForbiddenAttribute(attr)] else []) + Errors(o, inspect)
    case Subscript(c, i) => Errors(c, inspect) + Errors(i, inspect)
    case BinOp(_, l, r) => Errors(l, inspect) + Errors(r, inspect)
    case Call(f, args) => Errors(f, inspect) + AllErrors(args, inspect)
  }

  function AllErrors(es: seq<Expr>, inspect: set<string>): seq<Error>
    decreases es
  {
    if es == [] then [] else Errors(es[0], inspect) + AllErrors(es[1..], inspect)
  }

  // ---- Statements ---------------------------------------------------------------------------

  /** The error `visit_AugAssign` rejects a target with, before visiting anything. */
  function TargetErrors(t: Expr, inspect: set<string>): seq<Error> {
    if t.Attribute? then
      if IsForbiddenAttr(t.attr, inspect) then [ForbiddenAttribute(t.attr)]
      else if !IsSimpleChain(t.object_) then [ComplexTarget]
      else []
    else if t.Name? then []
    else [SubscriptTarget]
  }

  /** The assignment an accepted augmented assignment becomes. */
  function AugmentedAsAssign(t: Expr, op: string, value: Expr): Stmt
    requires t.Attribute? || t.Name?
  {
    if t.Attribute? then
      var o := Rewrite(t.object_);
      Assign(Attribute(Writable(o), t.attr, Store),
             Call(Name(INPLACEVAR), [Constant(StrValue(op)), Guarded(o, t.attr), Rewrite(value)]))
    else
      Assign(t, Call(Name(INPLACEVAR), [Constant(StrValue(op)), t, Rewrite(value)]))
  }

  function RewriteStmt(s: Stmt, inspect: set<string>): Stmt
    decreases s
  {
    match s
    case Assign(t, v) => Assign(Rewrite(t), Rewrite(v))
    case AugAssign(t, op, v) => if TargetErrors(t, inspect) != [] then Pass else AugmentedAsAssign(t, op, v)
    case Delete(t) => Delete(Rewrite(t))
    case Evaluate(e) => Evaluate(Rewrite(e))
    case If(t, b, o) => If(Rewrite(t), RewriteBlock(b, inspect), RewriteBlock(o, inspect))
    case While(t, b) => While(Rewrite(t), RewriteBlock(b, inspect))
    case Pass => Pass
  }

  function RewriteBlock(ss: seq<Stmt>, inspect: set<string>): (r: seq<Stmt>)
    ensures |r| == |ss|
    decreases ss
  {
    if ss == [] then [] else [RewriteStmt(ss[0], inspect)] + RewriteBlock(ss[1..], inspect)
  }

  function StmtErrors(s: Stmt, inspect: set<string>): seq<Error>
    decreases s
  {
    match s
    case Assign(t, v) => Errors(t, inspect) + Errors(v, inspect)
    case AugAssign(t, _, v) =>
      if TargetErrors(t, inspect) != [] then TargetErrors(t, inspect)
      else Errors(if t.Attribute? then t.object_ else t, inspect) + Errors(v, inspect)
    case Delete(t) => Errors(t, inspect)
    case Evaluate(e) => Errors(e, inspect)
    case If(t, b, o) => Errors(t, inspect) + BlockErrors(b, inspect) + BlockErrors(o, inspect)
    case While(t, b) => Errors(t, inspect) + BlockErrors(b, inspect)
    case Pass => []
  }

  function BlockErrors(ss: seq<Stmt>, inspect: set<string>): seq<Error>
    decreases ss
  {
    if ss == [] then [] else StmtErrors(ss[0], inspect) + BlockErrors(ss[1..], inspect)
  }

  // ---- The visitor object ----------------------------------------------------------------------

  /** `_AsyncRestrictingNodeTransformer`: visitors that build new nodes and accumulate errors. */
  class Transformer {
    const inspect: set<string>
    var errors: seq<Error>

    constructor (inspect: set<string>)
      ensures this.inspect == inspect && errors == []
    {
      this.inspect := inspect;
      errors := [];
    }

    method VisitExpr(e: Expr) returns (r: Expr)
      modifies this
      ensures r == Rewrite(e) && errors == old(errors) + Errors(e, inspect)
      decreases e, 1
    {
      match e
      case Name(id) =>
        if IsBadName(id) {
          errors := errors + [BadName(id)];
        }
        r := e;
      case Constant(_) =>
        r := e;
      case Attribute(_, _, _) =>
        r := VisitAttribute(e);
      case Subscript(c, i) =>
        var c', i' := VisitPair(e, c, i);
        r := Subscript(c', i');
      case BinOp(op, left, right) =>
        var left', right' := VisitPair(e, left, right);
        r := BinOp(op, left', right');
      case Call(f, args) =>
        r := VisitCall(e);
    }

    /** Two children of a node, in field order. */
    method VisitPair(ghost e: Expr, a: Expr, b: Expr) returns (a': Expr, b': Expr)
      requires a < e && b < e
      modifies this
      ensures a' == Rewrite(a) && b' == Rewrite(b)
      ensures errors == old(errors) + (Errors(a, inspect) + Errors(b, inspect))
      decreases e, 0
    {
      a' := VisitExpr(a);
      b' := VisitExpr(b);
    }

    method VisitCall(e: Expr) returns (r: Expr)
      requires e.Call?
      modifies this
      ensures r == Rewrite(e) && errors == old(errors) + Errors(e, inspect)
      decreases e, 0
    {
      var f := VisitExpr(e.func);
      var args := VisitExprs(e.args);
      assert errors == old(errors) + (Errors(e.func, inspect) + AllErrors(e.args, inspect));
      r := Call(f, args);
    }

    /** `visit_Attribute`. */
    method VisitAttribute(e: Expr) returns (r: Expr)
      requires e.Attribute?
      modifies this
      ensures r == Rewrite(e) && errors == old(errors) + Errors(e, inspect)
      decreases e, 0
    {
      ghost var found := if IsForbiddenAttr(e.attr, inspect) then [ForbiddenAttribute(e.attr)] else [];
      if IsForbiddenAttr(e.attr, inspect) {
        errors := errors + [ForbiddenAttribute(e.attr)];
      }
      assert errors == old(errors) + found;
      var value := VisitExpr(e.object_);
      assert errors == old(errors) + (found + Errors(e.object_, inspect));
      if e.ctx == Load {
        return Guarded(value, e.attr);
      }
      return Attribute(Writable(value), e.attr, e.ctx);
    }

    method VisitExprs(es: seq<Expr>) returns (r: seq<Expr>)
      modifies this
      ensures r == RewriteAll(es) && errors == old(errors) + AllErrors(es, inspect)
      decreases es
    {
      if es == [] {
        return [];
      }
      var first := VisitExpr(es[0]);
      var rest := VisitExprs(es[1..]);
      return [first] + rest;
    }

    /** `visit_AugAssign`. */
    method VisitAugAssign(t: Expr, op: string, value: Expr) returns (r: Stmt)
      modifies this
      ensures r == RewriteStmt(AugAssign(t, op, value), inspect)
      ensures errors == old(errors) + StmtErrors(AugAssign(t, op, value), inspect)
    {
      if t.Attribute? {
        if IsForbiddenAttr(t.attr, inspect) {
          errors := errors + [ForbiddenAttribute(t.attr)];
          return Pass;
        }
        var simple := IsSimpleAttrChain(t.object_);
        if !simple {
          errors := errors + [ComplexTarget];
          return Pass;
        }
        r := VisitAugAttribute(t, op, value);
      } else if t.Name? {
        r := VisitAugName(t, op, value);
      } else {
        errors := errors + [SubscriptTarget];
        return Pass;
      }
    }

    /** An attribute target that has passed the checks. */
    method VisitAugAttribute(t: Expr, op: string, value: Expr) returns (r: Stmt)
      requires t.Attribute?
      modifies this
      ensures r == AugmentedAsAssign(t, op, value)
      ensures errors == old(errors) + (Errors(t.object_, inspect) + Errors(value, inspect))
    {
      var objLoad := VisitExpr(t.object_);
      var rhs := VisitExpr(value);
      var loadCall := Guarded(objLoad, t.attr);
      var storeTarget := Attribute(Writable(objLoad), t.attr, Store);
      r := Assign(storeTarget, Call(Name(INPLACEVAR), [Constant(StrValue(op)), loadCall, rhs]));
    }

    method VisitAugName(t: Expr, op: string, value: Expr) returns (r: Stmt)
      requires t.Name?
      modifies this
      ensures r == AugmentedAsAssign(t, op, value)
      ensures errors == old(errors) + (Errors(t, inspect) + Errors(value, inspect))
    {
      var name := VisitExpr(t);
      var rhs := VisitExpr(value);
      r := Assign(name, Call(Name(INPLACEVAR), [Constant(StrValue(op)), name, rhs]));
    }

    method VisitStmt(s: Stmt) returns (r: Stmt)
      modifies this
      ensures r == RewriteStmt(s, inspect) && errors == old(errors) + StmtErrors(s, inspect)
      decreases s, 1
    {
      match s
      case Assign(t, v) =>
        var t' := VisitExpr(t);
        var v' := VisitExpr(v);
        r := Assign(t', v');
      case AugAssign(t, op, v) =>
        r := VisitAugAssign(t, op, v);
      case Delete(t) =>
        var t' := VisitExpr(t);
        r := Delete(t');
      case Evaluate(e) =>
        var e' := VisitExpr(e);
        r := Evaluate(e');
      case If(_, _, _) =>
        r := VisitIf(s);
      case While(_, _) =>
        r := VisitWhile(s);
      case Pass =>
        r := Pass;
    }

    method VisitIf(s: Stmt) returns (r: Stmt)
      requires s.If?
      modifies this
      ensures r == RewriteStmt(s, inspect) && errors == old(errors) + StmtErrors(s, inspect)
      decreases s, 0
    {
      var test := VisitExpr(s.test);
      var body := VisitBlock(s.body);
      var orelse := VisitBlock(s.orelse);
      assert errors == old(errors) +
                       (Errors(s.test, inspect) + BlockErrors(s.body, inspect) + BlockErrors(s.orelse, inspect));
      r := If(test, body, orelse);
    }

    method VisitWhile(s: Stmt) returns (r: Stmt)
      requires s.While?
      modifies this
      ensures r == RewriteStmt(s, inspect) && errors == old(errors) + StmtErrors(s, inspect)
      decreases s, 0
    {
      var test := VisitExpr(s.test);
      var body := VisitBlock(s.body);
      r := While(test, body);
    }

    method VisitBlock(ss: seq<Stmt>) returns (r: seq<Stmt>)
      modifies this
      ensures r == RewriteBlock(ss, inspect) && errors == old(errors) + BlockErrors(ss, inspect)
      decreases ss
    {
      if ss == [] {
        return [];
      }
      var first := VisitStmt(ss[0]);
      var rest := VisitBlock(ss[1..]);
      return [first] + rest;
    }
  }

  // ---- What an accepted program looks like ---------------------------------------------------------

  /** An attribute read through the guard, under a name that is allowed. */
  predicate IsGuardedRead(e: Expr, inspect: set<string>) {
    && e.Call? && e.func == Name(GETATTR) && |e.args| == 2
    && e.args[1].Constant? && e.args[1].value.StrValue? && !IsForbiddenAttr(e.args[1].value.s, inspect)
  }

  /** No attribute is read except through the guard. */
  predicate GuardedExpr(e: Expr, inspect: set<string>)
    decreases e
  {
    match e
    case Name(_) => true
    case Constant(_) => true
    case Attribute(_, _, _) => false
    case Subscript(c, i) => GuardedExpr(c, inspect) && GuardedExpr(i, inspect)
    case BinOp(_, l, r) => GuardedExpr(l, inspect) && GuardedExpr(r, inspect)
    case Call(f, args) =>
      && GuardedExpr(f, inspect) && AllGuarded(args, inspect)
      && (f == Name(GETATTR) ==> IsGuardedRead(e, inspect))
  }

  predicate AllGuarded(es: seq<Expr>, inspect: set<string>)
    decreases es
  {
    es == [] || (GuardedExpr(es[0], inspect) && AllGuarded(es[1..], inspect))
  }

  /** An attribute is stored or deleted only on a wrapped object, under a name that is allowed. */
  predicate GuardedTarget(t: Expr, inspect: set<string>) {
    t.Name? ||
    (t.Attribute? && !IsForbiddenAttr(t.attr, inspect)
     && t.object_.Call? && t.object_.func == Name(WRITE) && |t.object_.args| == 1
     && GuardedExpr(t.object_.args[0], inspect))
  }

  predicate GuardedStmt(s: Stmt, inspect: set<string>)
    decreases s
  {
    match s
    case Assign(t, v) => GuardedTarget(t, inspect) && GuardedExpr(v, inspect)
    case AugAssign(_, _, _) => false
    case Delete(t) => GuardedTarget(t, inspect)
    case Evaluate(e) => GuardedExpr(e, inspect)
    case If(t, b, o) => GuardedExpr(t, inspect) && GuardedBlock(b, inspect) && GuardedBlock(o, inspect)
    case While(t, b) => GuardedExpr(t, inspect) && GuardedBlock(b, inspect)
    case Pass => true
  }

  predicate GuardedBlock(ss: seq<Stmt>, inspect: set<string>)
    decreases ss
  {
    ss == [] || (GuardedStmt(ss[0], inspect) && GuardedBlock(ss[1..], inspect))
  }

  lemma ConstantIsGuarded(v: Value, inspect: set<string>)
    ensures AllGuarded([Constant(v)], inspect)
  {
    assert GuardedExpr(Constant(v), inspect);
    assert AllGuarded([Constant(v)][1..], inspect);
  }

  lemma {:induction false} RewriteIsGuarded(e: Expr, inspect: set<string>)
    requires ReadsOnly(e) && Errors(e, inspect) == []
    ensures GuardedExpr(Rewrite(e), inspect)
    decreases e
  {
    match e
    case Name(_) =>
    case Constant(_) =>
    case Attribute(o, attr, _) =>
      RewriteIsGuarded(o, inspect);
      var r := Guarded(Rewrite(o), attr);
      assert r.args[1..] == [Constant(StrValue(attr))] && r.args[1..][1..] == [];
      ConstantIsGuarded(StrValue(attr), inspect);
    case Subscript(c, i) =>
      RewriteIsGuarded(c, inspect);
      RewriteIsGuarded(i, inspect);
    case BinOp(_, l, r) =>
      RewriteIsGuarded(l, inspect);
      RewriteIsGuarded(r, inspect);
    case Call(f, args) =>
      RewriteIsGuarded(f, inspect);
      RewriteAllGuarded(args, inspect);
      assert Rewrite(f) != Name(GETATTR) by {
        assert IsBadName(GETATTR);
      }
  }

  lemma {:induction false} RewriteAllGuarded(es: seq<Expr>, inspect: set<string>)
    requires AllReadOnly(es) && AllErrors(es, inspect) == []
    ensures AllGuarded(RewriteAll(es), inspect)
    decreases es
  {
    if es != [] {
      RewriteIsGuarded(es[0], inspect);
      RewriteAllGuarded(es[1..], inspect);
      assert RewriteAll(es)[1..] == RewriteAll(es[1..]);
    }
  }

  /**
   * A program accepted without errors has no augmented assignment and no raw attribute read
   * left; every attribute store or delete is on a wrapped object; and no name is forbidden.
   */
  lemma {:induction false} AcceptedStmtIsGuarded(s: Stmt, inspect: set<string>)
    requires WellFormed(s) && StmtErrors(s, inspect) == []
    ensures GuardedStmt(RewriteStmt(s, inspect), inspect)
    decreases s
  {
    match s
    case Assign(t, v) =>
      TargetIsGuarded(t, Store, inspect);
      RewriteIsGuarded(v, inspect);
    case AugAssign(t, op, v) =>
      AugmentedIsGuarded(t, op, v, inspect);
    case Delete(t) =>
      TargetIsGuarded(t, Del, inspect);
    case Evaluate(e) =>
      RewriteIsGuarded(e, inspect);
    case If(t, b, o) =>
      RewriteIsGuarded(t, inspect);
      AcceptedBlockIsGuarded(b, inspect);
      AcceptedBlockIsGuarded(o, inspect);
    case While(t, b) =>
      RewriteIsGuarded(t, inspect);
      AcceptedBlockIsGuarded(b, inspect);
    case Pass =>
  }

  lemma {:induction false} AcceptedBlockIsGuarded(ss: seq<Stmt>, inspect: set<string>)
    requires AllWellFormed(ss) && BlockErrors(ss, inspect) == []
    ensures GuardedBlock(RewriteBlock(ss, inspect), inspect)
    decreases ss
  {
    if ss != [] {
      AcceptedStmtIsGuarded(ss[0], inspect);
      AcceptedBlockIsGuarded(ss[1..], inspect);
      assert RewriteBlock(ss, inspect)[1..] == RewriteBlock(ss[1..], inspect);
    }
  }

  lemma TargetIsGuarded(t: Expr, ctx: Context, inspect: set<string>)
    requires IsTarget(t, ctx) && !ctx.Load? && Errors(t, inspect) == []
    ensures GuardedTarget(Rewrite(t), inspect)
  {
    if t.Attribute? {
      RewriteIsGuarded(t.object_, inspect);
    }
  }

  lemma AugmentedIsGuarded(t: Expr, op: string, v: Expr, inspect: set<string>)
    requires WellFormed(AugAssign(t, op, v)) && StmtErrors(AugAssign(t, op, v), inspect) == []
    ensures GuardedStmt(RewriteStmt(AugAssign(t, op, v), inspect), inspect)
  {
    RewriteIsGuarded(v, inspect);
    if t.Attribute? {
      var read := Attribute(t.object_, t.attr, Load);
      assert ReadsOnly(read) && Errors(read, inspect) == [];
      RewriteIsGuarded(read, inspect);
      RewriteIsGuarded(t.object_, inspect);
      InplaceIsGuarded(op, Guarded(Rewrite(t.object_), t.attr), Rewrite(v), inspect);
    } else {
      InplaceIsGuarded(op, t, Rewrite(v), inspect);
    }
  }

  lemma InplaceIsGuarded(op: string, left: Expr, right: Expr, inspect: set<string>)
    requires GuardedExpr(left, inspect) && GuardedExpr(right, inspect)
    ensures GuardedExpr(Call(Name(INPLACEVAR), [Constant(StrValue(op)), left, right]), inspect)
  {
    var args := [Constant(StrValue(op)), left, right];
    assert args[1..] == [left, right] && [left, right][1..] == [right] && [right][1..] == [];
    assert AllGuarded([right], inspect);
    assert AllGuarded([left, right], inspect);
    assert AllGuarded(args, inspect);
  }

  /** A rejected augmented assignment becomes a no-op, and is always recorded. */
  lemma RejectedBecomesPass(t: Expr, op: string, v: Expr, inspect: set<string>)
    requires WellFormed(AugAssign(t, op, v))
    ensures RewriteStmt(AugAssign(t, op, v), inspect) == Pass <==>
              t.Subscript? || (t.Attribute? && (IsForbiddenAttr(t.attr, inspect) || !IsSimpleChain(t.object_)))
    ensures RewriteStmt(AugAssign(t, op, v), inspect) == Pass ==> StmtErrors(AugAssign(t, op, v), inspect) != []
  {
  }

  // ---- Nothing is lost --------------------------------------------------------------------------------

  /** Undo the rewriting of an expression. */
  function Unguard(e: Expr): Expr
    decreases e
  {
    match e
    case Name(_) => e
    case Constant(_) => e
    case Attribute(o, attr, ctx) => Attribute(Unguard(o), attr, ctx)
    case Subscript(c, i) => Subscript(Unguard(c), Unguard(i))
    case BinOp(op, l, r) => BinOp(op, Unguard(l), Unguard(r))
    case Call(f, args) =>
      if f == Name(GETATTR) && |args| == 2 && args[1].Constant? && args[1].value.StrValue?
      then Attribute(Unguard(args[0]), args[1].value.s, Load)
      else Call(Unguard(f), UnguardAll(args))
  }

  function UnguardAll(es: seq<Expr>): seq<Expr>
    decreases es
  {
    if es == [] then [] else [Unguard(es[0])] + UnguardAll(es[1..])
  }

  /** An accepted expression can be read back from its rewritten form. */
  lemma {:induction false} UnguardUndoesRewrite(e: Expr, inspect: set<string>)
    requires ReadsOnly(e) && Errors(e, inspect) == []
    ensures Unguard(Rewrite(e)) == e
    decreases e
  {
    match e
    case Name(_) =>
    case Constant(_) =>
    case Attribute(o, _, _) =>
      UnguardUndoesRewrite(o, inspect);
    case Subscript(c, i) =>
      UnguardUndoesRewrite(c, inspect);
      UnguardUndoesRewrite(i, inspect);
    case BinOp(_, l, r) =>
      UnguardUndoesRewrite(l, inspect);
      UnguardUndoesRewrite(r, inspect);
    case Call(f, args) =>
      UnguardUndoesRewrite(f, inspect);
      UnguardAllUndoesRewrite(args, inspect);
      assert Rewrite(f) != Name(GETATTR) by {
        assert IsBadName(GETATTR);
      }
  }

  lemma {:induction false} UnguardAllUndoesRewrite(es: seq<Expr>, inspect: set<string>)
    requires AllReadOnly(es) && AllErrors(es, inspect) == []
    ensures UnguardAll(RewriteAll(es)) == es
    decreases es
  {
    if es != [] {
      UnguardUndoesRewrite(es[0], inspect);
      UnguardAllUndoesRewrite(es[1..], inspect);
      assert RewriteAll(es)[1..] == RewriteAll(es[1..]);
    }
  }
}
