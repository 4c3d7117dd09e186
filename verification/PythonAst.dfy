/** The part of the Python syntax tree that the sandbox transformer works on. */
module PythonAst {

  /** Immediate values, and references to heap objects. */
  datatype Value = NoneValue | BoolValue(b: bool) | IntValue(n: int) | StrValue(s: string) | Ref(address: nat)

  datatype Context = Load | Store | Del

  datatype Expr =
    | Name(id: string)
    | Constant(value: Value)
    | Attribute(object_: Expr, attr: string, ctx: Context)
    | Subscript(container: Expr, index: Expr)
    | BinOp(op: string, left: Expr, right: Expr)
    | Call(func: Expr, args: seq<Expr>)

  datatype Stmt =
    | Assign(target: Expr, value: Expr)
    | AugAssign(target: Expr, op: string, value: Expr)
    | Delete(target: Expr)
    | Evaluate(e: Expr)
    | If(test: Expr, body: seq<Stmt>, orelse: seq<Stmt>)
    | While(test: Expr, body: seq<Stmt>)
    | Pass

  /** As the parser builds them, expressions read their attributes. */
  predicate ReadsOnly(e: Expr)
    decreases e
  {
    match e
    case Name(_) => true
    case Constant(_) => true
    case Attribute(o, _, ctx) => ctx.Load? && ReadsOnly(o)
    case Subscript(c, i) => ReadsOnly(c) && ReadsOnly(i)
    case BinOp(_, l, r) => ReadsOnly(l) && ReadsOnly(r)
    case Call(f, args) => ReadsOnly(f) && AllReadOnly(args)
  }

  predicate AllReadOnly(es: seq<Expr>)
    decreases es
  {
    es == [] || (ReadsOnly(es[0]) && AllReadOnly(es[1..]))
  }

  /** A name, or an attribute of an expression in the given context. */
  predicate IsTarget(e: Expr, ctx: Context) {
    e.Name? || (e.Attribute? && e.ctx == ctx && ReadsOnly(e.object_))
  }

  predicate WellFormed(s: Stmt)
    decreases s
  {
    match s
    case Assign(t, v) => IsTarget(t, Store) && ReadsOnly(v)
    case AugAssign(t, _, v) => (IsTarget(t, Store) || t.Subscript?) && ReadsOnly(v)
    case Delete(t) => IsTarget(t, Del)
    case Evaluate(e) => ReadsOnly(e)
    case If(t, b, o) => ReadsOnly(t) && AllWellFormed(b) && AllWellFormed(o)
    case While(t, b) => ReadsOnly(t) && AllWellFormed(b)
    case Pass => true
  }

  predicate AllWellFormed(ss: seq<Stmt>)
    decreases ss
  {
    ss == [] || (WellFormed(ss[0]) && AllWellFormed(ss[1..]))
  }
}
