/**
 * A heap semantics for the sandbox's programs, before and after rewriting, and the theorem
 * that rewriting preserves meaning. Calls, operators and subscripts may do anything to the
 * state; attribute reads have no side effects; the sandbox's guards may refuse a read.
 */
module SandboxSemantics {
  import opened PythonAst
  import opened SandboxRewrite

  datatype State = State(vars: map<string, Value>, heap: map<nat, map<string, Value>>)

  /** An evaluation returns, raises an exception, or is refused by a guard. */
  datatype Outcome<+T> =
    | Returned(v: T, s: State)
    | Raised(exception: string, s: State)
    | Refused

  /** Everything outside the program text: what calls and operators do, and what guards permit. */
  datatype World = World(
    call: (Value, seq<Value>, State) -> Outcome<Value>,
    item: (Value, Value, State) -> Outcome<Value>,
    binary: (string, Value, Value, State) -> Outcome<Value>,
    inplace: (string, Value, Value, State) -> Outcome<Value>,
    truth: (Value, State) -> bool,
    permits: (Value, string, State) -> bool)

  /** The operators `_inplacevar_` has an implementation for. */
  const INPLACE_OPS := {"+=", "-=", "*=", "/=", "//=", "%=", "**=", "&=", "|=", "^=", ">>=", "<<="}

  // ---- Primitive operations --------------------------------------------------------------

  function ReadName(id: string, s: State): Outcome<Value> {
    if id in s.vars then Returned(s.vars[id], s) else Raised("NameError", s)
  }

  function ReadAttr(o: Value, attr: string, s: State): Outcome<Value> {
    if o.Ref? && o.address in s.heap && attr in s.heap[o.address] then Returned(s.heap[o.address][attr], s)
    else Raised("AttributeError", s)
  }

  function WriteAttr(o: Value, attr: string, v: Value, s: State): Outcome<()> {
    if o.Ref? && o.address in s.heap
    then Returned((), s.(heap := s.heap[o.address := s.heap[o.address][attr := v]]))
    else Raised("AttributeError", s)
  }

  function DeleteAttr(o: Value, attr: string, s: State): Outcome<()> {
    if o.Ref? && o.address in s.heap && attr in s.heap[o.address]
    then Returned((), s.(heap := s.heap[o.address := s.heap[o.address] - {attr}]))
    else Raised("AttributeError", s)
  }

  /** `_inplacevar`. */
  function Inplacevar(w: World, op: string, x: Value, y: Value, s: State): Outcome<Value> {
    if op in INPLACE_OPS then w.inplace(op, x, y, s) else Raised("ValueError", s)
  }

  /** Twelve operators are implemented; `@=` is not, nor is anything that is no operator. */
  lemma OperatorsExactly(w: World, op: string, x: Value, y: Value, s: State)
    ensures Inplacevar(w, op, x, y, s) ==
            if || op == "+=" || op == "-=" || op == "*=" || op == "/=" || op == "//=" || op == "%="
               || op == "**=" || op == "&=" || op == "|=" || op == "^=" || op == ">>=" || op == "<<="
            then w.inplace(op, x, y, s) else Raised("ValueError", s)
  {
  }

  /** A call, where the three guard names denote the sandbox's guards. */
  function Invoke(w: World, func: Expr, f: Value, args: seq<Value>, s: State): Outcome<Value> {
    if func == Name(GETATTR) && |args| == 2 && args[1].StrValue? then
      if w.permits(args[0], args[1].s, s) then ReadAttr(args[0], args[1].s, s) else Refused
    else if func == Name(WRITE) && |args| == 1 then Returned(args[0], s)
    else if func == Name(INPLACEVAR) && |args| == 3 && args[0].StrValue? then
      Inplacevar(w, args[0].s, args[1], args[2], s)
    else w.call(f, args, s)
  }

  predicate IsGuardName(e: Expr) {
    e == Name(GETATTR) || e == Name(WRITE) || e == Name(INPLACEVAR)
  }

  // ---- Expressions -------------------------------------------------------------------------

  function Eval(w: World, e: Expr, s: State): Outcome<Value>
    decreases e
  {
    match e
    case Name(id) => if IsGuardName(e) then Returned(NoneValue, s) else ReadName(id, s)
    case Constant(v) => Returned(v, s)
    case Attribute(o, attr, _) =>
      (match Eval(w, o, s)
       case Returned(v, s1) => ReadAttr(v, attr, s1)
       case other => other)
    case Subscript(c, i) =>
      (match Eval(w, c, s)
       case Returned(cv, s1) =>
         (match Eval(w, i, s1)
          case Returned(iv, s2) => w.item(cv, iv, s2)
          case other => other)
       case other => other)
    case BinOp(op, l, r) =>
      (match Eval(w, l, s)
       case Returned(lv, s1) =>
         (match Eval(w, r, s1)
          case Returned(rv, s2) => w.binary(op, lv, rv, s2)
          case other => other)
       case other => other)
    case Call(f, args) =>
      (match Eval(w, f, s)
       case Returned(fv, s1) =>
         (match EvalAll(w, args, s1)
          case Returned(vs, s2) => Invoke(w, f, fv, vs, s2)
          case Raised(x, s2) => Raised(x, s2)
          case Refused => Refused)
       case other => other)
  }

  function EvalAll(w: World, es: seq<Expr>, s: State): Outcome<seq<Value>>
    decreases es
  {
    if es == [] then Returned([], s)
    else
      match Eval(w, es[0], s)
      case Returned(v, s1) =>
        (match EvalAll(w, es[1..], s1)
         case Returned(vs, s2) => Returned([v] + vs, s2)
         case other => other)
      case Raised(x, s1) => Raised(x, s1)
      case Refused => Refused
  }

  // ---- Statements -----------------------------------------------------------------------------

  /** How a statement ends. */
  datatype Result = Done(s: State) | Failed(exception: string, s: State) | Stopped | OutOfFuel

  function AsResult(o: Outcome<()>): Result {
    match o
    case Returned(_, s) => Done(s)
    case Raised(x, s) => Failed(x, s)
    case Refused => Stopped
  }

  function Unfinished(o: Outcome<Value>): Result
    requires !o.Returned?
  {
    if o.Raised? then Failed(o.exception, o.s) else Stopped
  }

  function Bind(id: string, v: Value, s: State): State {
    s.(vars := s.vars[id := v])
  }

  /** Store `v` into a target: the object of an attribute is evaluated now. */
  function Store_(w: World, t: Expr, v: Value, s: State): Result {
    if t.Name? then Done(Bind(t.id, v, s))
    else if t.Attribute? then
      var o := Eval(w, t.object_, s);
      if o.Returned? then AsResult(WriteAttr(o.v, t.attr, v, o.s)) else Unfinished(o)
    else Failed("TypeError", s)
  }

  function Remove(w: World, t: Expr, s: State): Result {
    if t.Name? then if t.id in s.vars then Done(s.(vars := s.vars - {t.id})) else Failed("NameError", s)
    else if t.Attribute? then
      var o := Eval(w, t.object_, s);
      if o.Returned? then AsResult(DeleteAttr(o.v, t.attr, o.s)) else Unfinished(o)
    else Failed("TypeError", s)
  }

  /**
   * Augmented assignment as the language defines it (section 7.2.1 of the Python Language
   * Reference): the target's object is evaluated once, before the right-hand side.
   */
  function AugmentedAttr(w: World, t: Expr, op: string, e: Expr, s: State): Result
    requires t.Attribute?
  {
    var o := Eval(w, t.object_, s);
    if !o.Returned? then Unfinished(o) else
    var old_ := ReadAttr(o.v, t.attr, o.s);
    if !old_.Returned? then Unfinished(old_) else
    var rhs := Eval(w, e, old_.s);
    if !rhs.Returned? then Unfinished(rhs) else
    var r := w.inplace(op, old_.v, rhs.v, rhs.s);
    if !r.Returned? then Unfinished(r) else
    AsResult(WriteAttr(o.v, t.attr, r.v, r.s))
  }

  function AugmentedName(w: World, id: string, op: string, e: Expr, s: State): Result {
    var old_ := ReadName(id, s);
    if !old_.Returned? then Unfinished(old_) else
    var rhs := Eval(w, e, old_.s);
    if !rhs.Returned? then Unfinished(rhs) else
    var r := w.inplace(op, old_.v, rhs.v, rhs.s);
    if !r.Returned? then Unfinished(r) else
    Done(Bind(id, r.v, r.s))
  }

  /** Run a statement, with fuel for its loops. */
  function Exec(w: World, c: Stmt, s: State, fuel: nat): Result
    decreases fuel, c
  {
    match c
    case Assign(t, e) =>
      var v := Eval(w, e, s);
      if v.Returned? then Store_(w, t, v.v, v.s) else Unfinished(v)
    case AugAssign(t, op, e) =>
      if t.Attribute? then AugmentedAttr(w, t, op, e, s)
      else if t.Name? then AugmentedName(w, t.id, op, e, s)
      else Failed("TypeError", s)
    case Delete(t) => Remove(w, t, s)
    case Evaluate(e) =>
      var v := Eval(w, e, s);
      if v.Returned? then Done(v.s) else Unfinished(v)
    case If(t, b, o) =>
      var v := Eval(w, t, s);
      if !v.Returned? then Unfinished(v)
      else if w.truth(v.v, v.s) then ExecBlock(w, b, v.s, fuel)
      else ExecBlock(w, o, v.s, fuel)
    case While(t, b) =>
      var v := Eval(w, t, s);
      if !v.Returned? then Unfinished(v)
      else if !w.truth(v.v, v.s) then Done(v.s)
      else if fuel == 0 then OutOfFuel
      else
        var r := ExecBlock(w, b, v.s, fuel);
        if r.Done? then Exec(w, c, r.s, fuel - 1) else r
    case Pass => Done(s)
  }

  function ExecBlock(w: World, cs: seq<Stmt>, s: State, fuel: nat): Result
    decreases fuel, cs
  {
    if cs == [] then Done(s)
    else
      var r := Exec(w, cs[0], s, fuel);
      if r.Done? then ExecBlock(w, cs[1..], r.s, fuel) else r
  }

  // ---- Rewritten expressions ---------------------------------------------------------------------

  /** The rewritten form does the same, unless a guard refuses a read. */
  predicate Agrees<T(==)>(rewritten: Outcome<T>, original: Outcome<T>) {
    rewritten.Refused? || rewritten == original
  }

  lemma EvalGuarded(w: World, o: Expr, attr: string, s: State)
    ensures Eval(w, Guarded(o, attr), s)
         == var v := Eval(w, o, s);
            if !v.Returned? then v
            else if w.permits(v.v, attr, v.s) then ReadAttr(v.v, attr, v.s)
            else Refused
  {
    var args := [o, Constant(StrValue(attr))];
    assert args[1..] == [Constant(StrValue(attr))] && args[1..][1..] == [];
    var v := Eval(w, o, s);
    if v.Returned? {
      assert EvalAll(w, args[1..], v.s) == Returned([StrValue(attr)] + [], v.s);
      assert EvalAll(w, args, s) == Returned([v.v] + ([StrValue(attr)] + []), v.s);
    }
  }

  lemma EvalWritable(w: World, o: Expr, s: State)
    ensures Eval(w, Writable(o), s) == Eval(w, o, s)
  {
    var args := [o];
    assert args[1..] == [];
    var v := Eval(w, o, s);
    if v.Returned? {
      assert EvalAll(w, args, s) == Returned([v.v] + [], v.s);
    }
  }

  lemma EvalCons(w: World, e: Expr, es: seq<Expr>, s: State)
    ensures EvalAll(w, [e] + es, s)
         == var x := Eval(w, e, s);
            if x.Raised? then Raised(x.exception, x.s) else if x.Refused? then Refused else
            var xs := EvalAll(w, es, x.s);
            if xs.Returned? then Returned([x.v] + xs.v, xs.s) else xs
  {
    assert ([e] + es)[1..] == es;
  }

  lemma EvalPair(w: World, left: Expr, right: Expr, s: State)
    ensures EvalAll(w, [left, right], s)
         == var x := Eval(w, left, s);
            if x.Raised? then Raised(x.exception, x.s) else if x.Refused? then Refused else
            var y := Eval(w, right, x.s);
            if y.Raised? then Raised(y.exception, y.s) else if y.Refused? then Refused else
            Returned([x.v, y.v], y.s)
  {
    assert [left, right] == [left] + ([right] + []);
    EvalCons(w, left, [right] + [], s);
    var x := Eval(w, left, s);
    if x.Returned? {
      EvalCons(w, right, [], x.s);
      var y := Eval(w, right, x.s);
      if y.Returned? {
        assert [x.v] + ([y.v] + []) == [x.v, y.v];
      }
    }
  }

  lemma InvokeInplace(w: World, op: string, f: Value, x: Value, y: Value, s: State)
    ensures Invoke(w, Name(INPLACEVAR), f, [StrValue(op)] + [x, y], s) == Inplacevar(w, op, x, y, s)
  {
    var vs := [StrValue(op)] + [x, y];
    assert |vs| == 3 && vs[0] == StrValue(op) && vs[1] == x && vs[2] == y;
  }

  /** A call of a guard evaluates its arguments and nothing else. */
  lemma EvalGuardCall(w: World, name: string, args: seq<Expr>, s: State)
    requires IsGuardName(Name(name))
    ensures Eval(w, Call(Name(name), args), s)
         == var vs := EvalAll(w, args, s);
            if vs.Raised? then Raised(vs.exception, vs.s) else if vs.Refused? then Refused else
            Invoke(w, Name(name), NoneValue, vs.v, vs.s)
  {
    assert Eval(w, Name(name), s) == Returned(NoneValue, s);
  }

  /** The arguments of `_inplacevar_`. */
  lemma EvalTriple(w: World, op: string, left: Expr, right: Expr, s: State)
    ensures EvalAll(w, [Constant(StrValue(op)), left, right], s)
         == var vs := EvalAll(w, [left, right], s);
            if vs.Returned? then Returned([StrValue(op)] + vs.v, vs.s) else vs
  {
    assert [Constant(StrValue(op)), left, right] == [Constant(StrValue(op))] + [left, right];
    EvalCons(w, Constant(StrValue(op)), [left, right], s);
  }

  /** `_inplacevar_(op, left, right)`. */
  lemma EvalInplace(w: World, op: string, left: Expr, right: Expr, s: State)
    ensures Eval(w, Call(Name(INPLACEVAR), [Constant(StrValue(op)), left, right]), s)
         == var x := Eval(w, left, s);
            if !x.Returned? then x else
            var y := Eval(w, right, x.s);
            if !y.Returned? then y else
            Inplacevar(w, op, x.v, y.v, y.s)
  {
    EvalGuardCall(w, INPLACEVAR, [Constant(StrValue(op)), left, right], s);
    EvalTriple(w, op, left, right, s);
    EvalPair(w, left, right, s);
    var vs := EvalAll(w, [left, right], s);
    if vs.Returned? {
      InvokeInplace(w, op, NoneValue, vs.v[0], vs.v[1], vs.s);
    }
  }

  lemma NoGuardNames(e: Expr, inspect: set<string>)
    requires ReadsOnly(e) && Errors(e, inspect) == []
    ensures !IsGuardName(e) && !IsGuardName(Rewrite(e))
  {
    if e.Name? {
      assert IsBadName(GETATTR) && IsBadName(WRITE) && IsBadName(INPLACEVAR);
    }
  }

  /** Rewriting an accepted expression keeps its value and its effects. */
  lemma {:induction false} RewriteAgrees(w: World, e: Expr, inspect: set<string>, s: State)
    requires ReadsOnly(e) && Errors(e, inspect) == []
    ensures Agrees(Eval(w, Rewrite(e), s), Eval(w, e, s))
    decreases e
  {
    match e
    case Name(_) =>
    case Constant(_) =>
    case Attribute(o, attr, _) =>
      RewriteAgrees(w, o, inspect, s);
      EvalGuarded(w, Rewrite(o), attr, s);
    case Subscript(c, i) =>
      RewriteAgrees(w, c, inspect, s);
      if Eval(w, c, s).Returned? {
        RewriteAgrees(w, i, inspect, Eval(w, c, s).s);
      }
    case BinOp(_, l, r) =>
      RewriteAgrees(w, l, inspect, s);
      if Eval(w, l, s).Returned? {
        RewriteAgrees(w, r, inspect, Eval(w, l, s).s);
      }
    case Call(f, args) =>
      RewriteAgrees(w, f, inspect, s);
      NoGuardNames(f, inspect);
      if Eval(w, f, s).Returned? {
        RewriteAllAgrees(w, args, inspect, Eval(w, f, s).s);
      }
  }

  lemma {:induction false} RewriteAllAgrees(w: World, es: seq<Expr>, inspect: set<string>, s: State)
    requires AllReadOnly(es) && AllErrors(es, inspect) == []
    ensures Agrees(EvalAll(w, RewriteAll(es), s), EvalAll(w, es, s))
    decreases es
  {
    if es != [] {
      assert RewriteAll(es)[1..] == RewriteAll(es[1..]);
      RewriteAgrees(w, es[0], inspect, s);
      if Eval(w, es[0], s).Returned? {
        RewriteAllAgrees(w, es[1..], inspect, Eval(w, es[0], s).s);
      }
    }
  }

  // ---- Augmented assignment ----------------------------------------------------------------------

  /** Reading a dotted name changes nothing. */
  lemma {:induction false} ChainReadsOnly(w: World, e: Expr, s: State)
    requires IsSimpleChain(e)
    ensures var v := Eval(w, e, s); !v.Refused? && v.s == s
    decreases e
  {
    if e.Attribute? {
      ChainReadsOnly(w, e.object_, s);
    }
  }

  /** The evaluation of an augmented assignment up to the store: its object and the new value. */
  function UpToStore(w: World, t: Expr, op: string, e: Expr, s: State): (r: Outcome<(Value, Value)>)
    requires t.Attribute?
  {
    var o := Eval(w, t.object_, s);
    if !o.Returned? then Lift(o) else
    var old_ := ReadAttr(o.v, t.attr, o.s);
    if !old_.Returned? then Lift(old_) else
    var rhs := Eval(w, e, old_.s);
    if !rhs.Returned? then Lift(rhs) else
    var r := w.inplace(op, old_.v, rhs.v, rhs.s);
    if !r.Returned? then Lift(r) else Returned((o.v, r.v), r.s)
  }

  function Lift(o: Outcome<Value>): Outcome<(Value, Value)>
    requires !o.Returned?
  {
    if o.Raised? then Raised(o.exception, o.s) else Refused
  }

  /** At the store, the dotted prefix still leads to the object that was read. */
  predicate Steady(w: World, t: Expr, op: string, e: Expr, s: State)
    requires t.Attribute?
  {
    var r := UpToStore(w, t, op, e, s);
    r.Returned? ==> Eval(w, t.object_, r.s) == Returned(r.v.0, r.s)
  }

  predicate SameResult(rewritten: Result, original: Result) {
    rewritten.Stopped? || rewritten == original
  }

  /** The value computed by the rewritten assignment. */
  lemma InplaceAgrees(w: World, t: Expr, op: string, e: Expr, inspect: set<string>, s: State)
    requires t.Attribute? && IsSimpleChain(t.object_) && ReadsOnly(t.object_) && Errors(t.object_, inspect) == []
    requires ReadsOnly(e) && Errors(e, inspect) == [] && op in INPLACE_OPS
    ensures var value := Call(Name(INPLACEVAR),
                              [Constant(StrValue(op)), Guarded(Rewrite(t.object_), t.attr), Rewrite(e)]);
            var r := UpToStore(w, t, op, e, s);
            Agrees(Eval(w, value, s),
                   match r
                   case Returned(v, s1) => Returned(v.1, s1)
                   case Raised(x, s1) => Raised(x, s1)
                   case Refused => Refused)
  {
    var o := t.object_;
    EvalInplace(w, op, Guarded(Rewrite(o), t.attr), Rewrite(e), s);
    EvalGuarded(w, Rewrite(o), t.attr, s);
    RewriteAgrees(w, o, inspect, s);
    ChainReadsOnly(w, o, s);
    RewriteAgrees(w, e, inspect, s);
  }

  /** The rewritten statement does what the language prescribes, if the prefix is steady. */
  lemma AugmentedAgrees(w: World, t: Expr, op: string, e: Expr, inspect: set<string>, s: State, fuel: nat)
    requires t.Attribute? && WellFormed(AugAssign(t, op, e)) && StmtErrors(AugAssign(t, op, e), inspect) == []
    requires op in INPLACE_OPS && Steady(w, t, op, e, s)
    ensures SameResult(Exec(w, RewriteStmt(AugAssign(t, op, e), inspect), s, fuel), AugmentedAttr(w, t, op, e, s))
  {
    InplaceAgrees(w, t, op, e, inspect, s);
    var r := UpToStore(w, t, op, e, s);
    if r.Returned? {
      EvalWritable(w, Rewrite(t.object_), r.s);
      RewriteAgrees(w, t.object_, inspect, r.s);
    }
  }

  lemma AugmentedNameAgrees(w: World, id: string, op: string, e: Expr, inspect: set<string>, s: State, fuel: nat)
    requires WellFormed(AugAssign(Name(id), op, e)) && StmtErrors(AugAssign(Name(id), op, e), inspect) == []
    requires op in INPLACE_OPS
    ensures SameResult(Exec(w, RewriteStmt(AugAssign(Name(id), op, e), inspect), s, fuel),
                       AugmentedName(w, id, op, e, s))
  {
    EvalInplace(w, op, Name(id), Rewrite(e), s);
    NoGuardNames(Name(id), inspect);
    RewriteAgrees(w, e, inspect, s);
  }

  // ---- Whole programs ----------------------------------------------------------------------------

  /** Every augmented assignment the run executes is one the rewriting can do justice to. */
  predicate SteadyRun(w: World, c: Stmt, s: State, fuel: nat)
    decreases fuel, c
  {
    match c
    case AugAssign(t, op, e) => op in INPLACE_OPS && (t.Attribute? ==> Steady(w, t, op, e, s))
    case If(t, b, o) =>
      var v := Eval(w, t, s);
      v.Returned? ==> if w.truth(v.v, v.s) then SteadyBlock(w, b, v.s, fuel) else SteadyBlock(w, o, v.s, fuel)
    case While(t, b) =>
      var v := Eval(w, t, s);
      v.Returned? && w.truth(v.v, v.s) && fuel > 0 ==>
        && SteadyBlock(w, b, v.s, fuel)
        && var r := ExecBlock(w, b, v.s, fuel); r.Done? ==> SteadyRun(w, c, r.s, fuel - 1)
    case _ => true
  }

  predicate SteadyBlock(w: World, cs: seq<Stmt>, s: State, fuel: nat)
    decreases fuel, cs
  {
    cs == [] ||
    (SteadyRun(w, cs[0], s, fuel)
     && var r := Exec(w, cs[0], s, fuel); r.Done? ==> SteadyBlock(w, cs[1..], r.s, fuel))
  }

  lemma StoreAgrees(w: World, t: Expr, v: Value, inspect: set<string>, s: State)
    requires IsTarget(t, Store) && Errors(t, inspect) == []
    ensures SameResult(Store_(w, Rewrite(t), v, s), Store_(w, t, v, s))
  {
    if t.Attribute? {
      EvalWritable(w, Rewrite(t.object_), s);
      RewriteAgrees(w, t.object_, inspect, s);
    }
  }

  lemma RemoveAgrees(w: World, t: Expr, inspect: set<string>, s: State)
    requires IsTarget(t, Del) && Errors(t, inspect) == []
    ensures SameResult(Remove(w, Rewrite(t), s), Remove(w, t, s))
  {
    if t.Attribute? {
      EvalWritable(w, Rewrite(t.object_), s);
      RewriteAgrees(w, t.object_, inspect, s);
    }
  }

  /**
   * Rewriting preserves meaning: an accepted program ends as the original does, in the same
   * state or with the same exception, or it is stopped by a guard.
   */
  lemma {:induction false} ExecAgrees(w: World, c: Stmt, inspect: set<string>, s: State, fuel: nat)
    requires WellFormed(c) && StmtErrors(c, inspect) == [] && SteadyRun(w, c, s, fuel)
    ensures SameResult(Exec(w, RewriteStmt(c, inspect), s, fuel), Exec(w, c, s, fuel))
    decreases fuel, c
  {
    match c
    case Assign(t, e) =>
      RewriteAgrees(w, e, inspect, s);
      var v := Eval(w, e, s);
      if v.Returned? {
        StoreAgrees(w, t, v.v, inspect, v.s);
      }
    case AugAssign(t, op, e) =>
      if t.Attribute? {
        AugmentedAgrees(w, t, op, e, inspect, s, fuel);
      } else {
        AugmentedNameAgrees(w, t.id, op, e, inspect, s, fuel);
      }
    case Delete(t) =>
      RemoveAgrees(w, t, inspect, s);
    case Evaluate(e) =>
      RewriteAgrees(w, e, inspect, s);
    case If(_, _, _) =>
      IfAgrees(w, c, inspect, s, fuel);
    case While(_, _) =>
      WhileAgrees(w, c, inspect, s, fuel);
    case Pass =>
  }

  lemma {:induction false} IfAgrees(w: World, c: Stmt, inspect: set<string>, s: State, fuel: nat)
    requires c.If? && WellFormed(c) && StmtErrors(c, inspect) == [] && SteadyRun(w, c, s, fuel)
    ensures SameResult(Exec(w, RewriteStmt(c, inspect), s, fuel), Exec(w, c, s, fuel))
    decreases fuel, c, 0
  {
    RewriteAgrees(w, c.test, inspect, s);
    var v := Eval(w, c.test, s);
    if v.Returned? {
      BlockAgrees(w, if w.truth(v.v, v.s) then c.body else c.orelse, inspect, v.s, fuel);
    }
  }

  lemma {:induction false} WhileAgrees(w: World, c: Stmt, inspect: set<string>, s: State, fuel: nat)
    requires c.While? && WellFormed(c) && StmtErrors(c, inspect) == [] && SteadyRun(w, c, s, fuel)
    ensures SameResult(Exec(w, RewriteStmt(c, inspect), s, fuel), Exec(w, c, s, fuel))
    decreases fuel, c, 0
  {
    RewriteAgrees(w, c.test, inspect, s);
    var v := Eval(w, c.test, s);
    if v.Returned? && w.truth(v.v, v.s) && fuel > 0 {
      BlockAgrees(w, c.body, inspect, v.s, fuel);
      var r := ExecBlock(w, c.body, v.s, fuel);
      if r.Done? {
        ExecAgrees(w, c, inspect, r.s, fuel - 1);
      }
    }
  }

  lemma {:induction false} BlockAgrees(w: World, cs: seq<Stmt>, inspect: set<string>, s: State, fuel: nat)
    requires AllWellFormed(cs) && BlockErrors(cs, inspect) == [] && SteadyBlock(w, cs, s, fuel)
    ensures SameResult(ExecBlock(w, RewriteBlock(cs, inspect), s, fuel), ExecBlock(w, cs, s, fuel))
    decreases fuel, cs
  {
    if cs != [] {
      assert RewriteBlock(cs, inspect)[1..] == RewriteBlock(cs[1..], inspect);
      ExecAgrees(w, cs[0], inspect, s, fuel);
      var r := Exec(w, cs[0], s, fuel);
      if r.Done? {
        BlockAgrees(w, cs[1..], inspect, r.s, fuel);
      }
    }
  }

  // ---- When the prefix is steady ---------------------------------------------------------------------

  /** Neither the root of the chain nor any attribute along it has been rebound from `s` to `s'`. */
  predicate PrefixKept(w: World, e: Expr, s: State, s': State)
    requires IsSimpleChain(e)
    decreases e
  {
    if e.Name? then ReadName(e.id, s).Returned? && ReadName(e.id, s') == Returned(ReadName(e.id, s).v, s')
    else
      && PrefixKept(w, e.object_, s, s')
      && var o := Eval(w, e.object_, s);
      && o.Returned?
      && ReadAttr(o.v, e.attr, s).Returned?
      && ReadAttr(o.v, e.attr, s') == Returned(ReadAttr(o.v, e.attr, s).v, s')
  }

  lemma {:induction false} KeptPrefixReadsSame(w: World, e: Expr, s: State, s': State)
    requires IsSimpleChain(e) && Eval(w, e, s).Returned? && PrefixKept(w, e, s, s')
    ensures Eval(w, e, s') == Returned(Eval(w, e, s).v, s')
    decreases e
  {
    if e.Attribute? {
      ChainReadsOnly(w, e.object_, s);
      KeptPrefixReadsSame(w, e.object_, s, s');
    }
  }

  /** So it is enough that the right-hand side and the operator rebind nothing on the prefix. */
  lemma UnreboundPrefixIsSteady(w: World, t: Expr, op: string, e: Expr, s: State)
    requires t.Attribute? && IsSimpleChain(t.object_)
    requires var r := UpToStore(w, t, op, e, s); r.Returned? ==> PrefixKept(w, t.object_, s, r.s)
    ensures Steady(w, t, op, e, s)
  {
    var r := UpToStore(w, t, op, e, s);
    if r.Returned? {
      ChainReadsOnly(w, t.object_, s);
      KeptPrefixReadsSame(w, t.object_, s, r.s);
    }
  }

  // ---- Programs for which this can be read off the text -------------------------------------------

  /** Reads of names and attributes, with no call, operator or subscript in them. */
  predicate PlainReads(e: Expr)
    decreases e
  {
    e.Name? || e.Constant? || (e.Attribute? && PlainReads(e.object_))
  }

  /** Every augmented assignment to an attribute has a dotted target and a plain right-hand side. */
  predicate PlainAugments(c: Stmt)
    decreases c
  {
    match c
    case AugAssign(t, op, e) => op in INPLACE_OPS && (t.Attribute? ==> IsSimpleChain(t.object_) && PlainReads(e))
    case If(_, b, o) => AllPlainAugments(b) && AllPlainAugments(o)
    case While(_, b) => AllPlainAugments(b)
    case _ => true
  }

  predicate AllPlainAugments(cs: seq<Stmt>)
    decreases cs
  {
    cs == [] || (PlainAugments(cs[0]) && AllPlainAugments(cs[1..]))
  }

  /** In-place operators compute a value and change neither variables nor attributes. */
  ghost predicate PureOperators(w: World) {
    forall op, x, y, s :: w.inplace(op, x, y, s).Returned? ==> w.inplace(op, x, y, s).s == s
  }

  lemma {:induction false} PlainReadsKeepState(w: World, e: Expr, s: State)
    requires PlainReads(e)
    ensures Eval(w, e, s).Returned? ==> Eval(w, e, s).s == s
    decreases e
  {
    if e.Attribute? {
      PlainReadsKeepState(w, e.object_, s);
    }
  }

  lemma PlainIsSteady(w: World, t: Expr, op: string, e: Expr, s: State)
    requires PureOperators(w) && t.Attribute? && IsSimpleChain(t.object_) && PlainReads(e)
    ensures Steady(w, t, op, e, s)
  {
    ChainReadsOnly(w, t.object_, s);
    PlainReadsKeepState(w, e, s);
  }

  lemma {:induction false} PlainRunIsSteady(w: World, c: Stmt, s: State, fuel: nat)
    requires PureOperators(w) && PlainAugments(c)
    ensures SteadyRun(w, c, s, fuel)
    decreases fuel, c
  {
    match c
    case AugAssign(t, op, e) =>
      if t.Attribute? {
        PlainIsSteady(w, t, op, e, s);
      }
    case If(t, b, o) =>
      var v := Eval(w, t, s);
      if v.Returned? {
        PlainBlockIsSteady(w, if w.truth(v.v, v.s) then b else o, v.s, fuel);
      }
    case While(t, b) =>
      var v := Eval(w, t, s);
      if v.Returned? && w.truth(v.v, v.s) && fuel > 0 {
        PlainBlockIsSteady(w, b, v.s, fuel);
        var r := ExecBlock(w, b, v.s, fuel);
        if r.Done? {
          PlainRunIsSteady(w, c, r.s, fuel - 1);
        }
      }
    case _ =>
  }

  lemma {:induction false} PlainBlockIsSteady(w: World, cs: seq<Stmt>, s: State, fuel: nat)
    requires PureOperators(w) && AllPlainAugments(cs)
    ensures SteadyBlock(w, cs, s, fuel)
    decreases fuel, cs
  {
    if cs != [] {
      PlainRunIsSteady(w, cs[0], s, fuel);
      var r := Exec(w, cs[0], s, fuel);
      if r.Done? {
        PlainBlockIsSteady(w, cs[1..], r.s, fuel);
      }
    }
  }

  /** So rewriting preserves the meaning of every accepted program of this kind, from every state. */
  lemma PlainProgramAgrees(w: World, cs: seq<Stmt>, inspect: set<string>, s: State, fuel: nat)
    requires AllWellFormed(cs) && BlockErrors(cs, inspect) == []
    requires AllPlainAugments(cs) && PureOperators(w)
    ensures SameResult(ExecBlock(w, RewriteBlock(cs, inspect), s, fuel), ExecBlock(w, cs, s, fuel))
  {
    PlainBlockIsSteady(w, cs, s, fuel);
    BlockAgrees(w, cs, inspect, s, fuel);
  }

  // ---- Exactly when the double evaluation is harmless ------------------------------------------------

  /** The guards permit every read. */
  ghost predicate Permissive(w: World) {
    forall o, attr, s :: w.permits(o, attr, s)
  }

  /** Under permissive guards an accepted expression and its rewriting are one and the same. */
  lemma {:induction false} PermittedEval(w: World, e: Expr, inspect: set<string>, s: State)
    requires Permissive(w) && ReadsOnly(e) && Errors(e, inspect) == []
    ensures Eval(w, Rewrite(e), s) == Eval(w, e, s)
    decreases e
  {
    match e
    case Name(_) =>
    case Constant(_) =>
    case Attribute(o, attr, _) =>
      PermittedEval(w, o, inspect, s);
      EvalGuarded(w, Rewrite(o), attr, s);
    case Subscript(c, i) =>
      PermittedEval(w, c, inspect, s);
      if Eval(w, c, s).Returned? {
        PermittedEval(w, i, inspect, Eval(w, c, s).s);
      }
    case BinOp(_, l, r) =>
      PermittedEval(w, l, inspect, s);
      if Eval(w, l, s).Returned? {
        PermittedEval(w, r, inspect, Eval(w, l, s).s);
      }
    case Call(f, args) =>
      PermittedEval(w, f, inspect, s);
      NoGuardNames(f, inspect);
      if Eval(w, f, s).Returned? {
        PermittedEvalAll(w, args, inspect, Eval(w, f, s).s);
      }
  }

  lemma {:induction false} PermittedEvalAll(w: World, es: seq<Expr>, inspect: set<string>, s: State)
    requires Permissive(w) && AllReadOnly(es) && AllErrors(es, inspect) == []
    ensures EvalAll(w, RewriteAll(es), s) == EvalAll(w, es, s)
    decreases es
  {
    if es != [] {
      assert RewriteAll(es)[1..] == RewriteAll(es[1..]);
      PermittedEval(w, es[0], inspect, s);
      if Eval(w, es[0], s).Returned? {
        PermittedEvalAll(w, es[1..], inspect, Eval(w, es[0], s).s);
      }
    }
  }

  /** `o` is a live object. */
  predicate IsLiveObject(o: Value, s: State) {
    o.Ref? && o.address in s.heap
  }

  /** `o` already holds `v` under `attr`. */
  predicate Holds(o: Value, attr: string, v: Value, s: State) {
    IsLiveObject(o, s) && attr in s.heap[o.address] && s.heap[o.address][attr] == v
  }

  lemma WritesCoincide(o: Value, o': Value, attr: string, v: Value, s: State)
    requires IsLiveObject(o, s) && IsLiveObject(o', s)
    ensures WriteAttr(o, attr, v, s) == WriteAttr(o', attr, v, s) <==>
              o == o' || (Holds(o, attr, v, s) && Holds(o', attr, v, s))
  {
    var a, b := s.heap[o.address := s.heap[o.address][attr := v]], s.heap[o'.address := s.heap[o'.address][attr := v]];
    if o != o' {
      if a == b {
        assert a[o.address] == s.heap[o.address];
        assert s.heap[o.address][attr := v][attr] == v;
        assert b[o'.address] == s.heap[o'.address];
        assert s.heap[o'.address][attr := v][attr] == v;
      }
      if Holds(o, attr, v, s) && Holds(o', attr, v, s) {
        assert s.heap[o.address][attr := v] == s.heap[o.address];
        assert s.heap[o'.address][attr := v] == s.heap[o'.address];
        assert a == s.heap && b == s.heap;
      }
    }
  }

  /** The new value is computed alike on both sides. */
  lemma PermittedInplace(w: World, t: Expr, op: string, e: Expr, inspect: set<string>, s: State)
    requires t.Attribute? && WellFormed(AugAssign(t, op, e)) && StmtErrors(AugAssign(t, op, e), inspect) == []
    requires op in INPLACE_OPS && Permissive(w)
    ensures var value := Call(Name(INPLACEVAR),
                              [Constant(StrValue(op)), Guarded(Rewrite(t.object_), t.attr), Rewrite(e)]);
            var r := UpToStore(w, t, op, e, s);
            Eval(w, value, s) ==
              match r
              case Returned(v, s1) => Returned(v.1, s1)
              case Raised(x, s1) => Raised(x, s1)
              case Refused => Refused
  {
    var o := t.object_;
    EvalInplace(w, op, Guarded(Rewrite(o), t.attr), Rewrite(e), s);
    EvalGuarded(w, Rewrite(o), t.attr, s);
    PermittedEval(w, o, inspect, s);
    ChainReadsOnly(w, o, s);
    PermittedEval(w, e, inspect, s);
  }

  /**
   * Exactly when the double evaluation is harmless, in a world whose guards permit every read
   * and where the right-hand side frees no object: once the new value is computed, the dotted
   * name read again leads to the same object, or to a live one that already holds the value
   * just as the first one does.
   */
  lemma AugmentedExact(w: World, t: Expr, op: string, e: Expr, inspect: set<string>, s: State, fuel: nat)
    requires t.Attribute? && WellFormed(AugAssign(t, op, e)) && StmtErrors(AugAssign(t, op, e), inspect) == []
    requires op in INPLACE_OPS && Permissive(w)
    requires var r := UpToStore(w, t, op, e, s); r.Returned? ==> IsLiveObject(r.v.0, r.s)
    ensures var r := UpToStore(w, t, op, e, s);
            Exec(w, RewriteStmt(AugAssign(t, op, e), inspect), s, fuel) == AugmentedAttr(w, t, op, e, s) <==>
              (r.Returned? ==>
                 var again := Eval(w, t.object_, r.s);
                 && again.Returned?
                 && (again.v == r.v.0 ||
                     (Holds(again.v, t.attr, r.v.1, r.s) && Holds(r.v.0, t.attr, r.v.1, r.s))))
  {
    var o := t.object_;
    var r := UpToStore(w, t, op, e, s);
    PermittedInplace(w, t, op, e, inspect, s);
    if r.Returned? {
      var again := Eval(w, o, r.s);
      ChainReadsOnly(w, o, r.s);
      PermittedEval(w, o, inspect, r.s);
      EvalWritable(w, Rewrite(o), r.s);
      if again.Returned? && IsLiveObject(again.v, r.s) {
        WritesCoincide(r.v.0, again.v, t.attr, r.v.1, r.s);
      }
    }
  }

  /** An operator `_inplacevar_` has no entry for (`@=`) fails where the language would compute. */
  lemma UnlistedOperatorFails(w: World, t: Expr, op: string, e: Expr, inspect: set<string>, s: State, fuel: nat)
    requires t.Attribute? && WellFormed(AugAssign(t, op, e)) && StmtErrors(AugAssign(t, op, e), inspect) == []
    requires op !in INPLACE_OPS && Permissive(w)
    ensures "@=" !in INPLACE_OPS
    ensures var r := UpToStore(w, t, op, e, s);
            r.Returned? ==> Exec(w, RewriteStmt(AugAssign(t, op, e), inspect), s, fuel).Failed?
                            && Exec(w, RewriteStmt(AugAssign(t, op, e), inspect), s, fuel).exception == "ValueError"
  {
    var o := t.object_;
    EvalInplace(w, op, Guarded(Rewrite(o), t.attr), Rewrite(e), s);
    EvalGuarded(w, Rewrite(o), t.attr, s);
    PermittedEval(w, o, inspect, s);
    ChainReadsOnly(w, o, s);
    PermittedEval(w, e, inspect, s);
  }

  // ---- A right-hand side that rebinds the prefix ------------------------------------------------

  /** A world where calling anything rebinds `a` to the object at address 1. */
  function RebindingWorld(): World {
    World(
      (f, args, s: State) => Returned(IntValue(7), Bind("a", Ref(1), s)),
      (c, i, s) => Returned(NoneValue, s),
      (op, x, y, s) => Returned(NoneValue, s),
      (op, x, y, s) => Returned(y, s),
      (v, s) => false,
      (o, attr, s) => true)
  }

  /** `a.n` as a target, and `f()`. */
  const REBOUND_TARGET := Attribute(Name("a"), "n", Store)
  const REBINDING_CALL := Call(Name("f"), [])

  function TwoObjects(first: int, second: int): map<nat, map<string, Value>> {
    map[0 := map["n" := IntValue(first)], 1 := map["n" := IntValue(second)]]
  }

  lemma RebindingIsAccepted()
    ensures WellFormed(AugAssign(REBOUND_TARGET, "+=", REBINDING_CALL))
    ensures StmtErrors(AugAssign(REBOUND_TARGET, "+=", REBINDING_CALL), {}) == []
  {
    assert "n"[|"n"| - 1] == 'n' && "a"[0] == 'a' && "f"[0] == 'f';
    assert Errors(Name("a"), {}) == [] && Errors(Name("f"), {}) == [];
  }

  function BeforeCall(x: int, y: int): State {
    State(map["a" := Ref(0), "f" := NoneValue], TwoObjects(x, y))
  }

  function AfterCall(x: int, y: int): State {
    State(map["a" := Ref(1), "f" := NoneValue], TwoObjects(x, y))
  }

  lemma RebindingCall(x: int, y: int)
    ensures Eval(RebindingWorld(), REBINDING_CALL, BeforeCall(x, y)) == Returned(IntValue(7), AfterCall(x, y))
    ensures UpToStore(RebindingWorld(), REBOUND_TARGET, "+=", REBINDING_CALL, BeforeCall(x, y))
         == Returned((Ref(0), IntValue(7)), AfterCall(x, y))
  {
    var s := BeforeCall(x, y);
    assert EvalAll(RebindingWorld(), [], s) == Returned([], s);
    assert Bind("a", Ref(1), s) == AfterCall(x, y);
    assert Eval(RebindingWorld(), REBINDING_CALL, s) == Returned(IntValue(7), AfterCall(x, y));
    assert Eval(RebindingWorld(), Name("a"), s) == Returned(Ref(0), s);
  }

  lemma WritesToEither(x: int, y: int)
    ensures WriteAttr(Ref(0), "n", IntValue(7), AfterCall(x, y)) == Returned((), AfterCall(7, y))
    ensures WriteAttr(Ref(1), "n", IntValue(7), AfterCall(x, y)) == Returned((), AfterCall(x, 7))
  {
    var s := AfterCall(x, y);
    assert s.heap[0]["n" := IntValue(7)] == map["n" := IntValue(7)] == s.heap[1]["n" := IntValue(7)];
    assert s.heap[0 := map["n" := IntValue(7)]] == TwoObjects(7, y);
    assert s.heap[1 := map["n" := IntValue(7)]] == TwoObjects(x, 7);
  }

  /**
   * `a.n += f()` where `f` rebinds `a`: the language updates the object `a` named first, the
   * rewritten statement the one it names afterwards.
   */
  lemma RebindingPrefixDiffers(x: int, y: int)
    ensures var c := AugAssign(REBOUND_TARGET, "+=", REBINDING_CALL);
            && Exec(RebindingWorld(), c, BeforeCall(x, y), 0) == Done(AfterCall(7, y))
            && Exec(RebindingWorld(), RewriteStmt(c, {}), BeforeCall(x, y), 0) == Done(AfterCall(x, 7))
  {
    var w := RebindingWorld();
    RebindingIsAccepted();
    RebindingCall(x, y);
    WritesToEither(x, y);
    PermittedInplace(w, REBOUND_TARGET, "+=", REBINDING_CALL, {}, BeforeCall(x, y));
    EvalWritable(w, Name("a"), AfterCall(x, y));
    assert Eval(w, Name("a"), AfterCall(x, y)) == Returned(Ref(1), AfterCall(x, y));
  }
}
