/**
 * The threading linter's visitor over the body of an async function, and what it reports
 * about a syntax tree without mention of the visiting.
 */
module ThreadingLint {

  /**
   * Syntax tree nodes. `id` is a node's identity; contexts and operators are not nodes here.
   * `Scope` is a nested function, class or lambda: `header` holds its decorators, bases, defaults
   * and annotations, and `deferred` says whether its body waits for a call, as it does except in
   * a class. `Other` is any other node with its children in the order they are visited, and
   * `keywords` holds the values of keyword arguments.
   */
  datatype Node =
    | Name(id: nat, name: string)
    | Attribute(id: nat, value: Node, attr: string)
    | Call(id: nat, func: Node, args: seq<Node>, keywords: seq<Node>)
    | Await(id: nat, value: Node)
    | Scope(id: nat, header: seq<Node>, body: seq<Node>, deferred: bool)
    | Other(id: nat, children: seq<Node>)

  datatype Code = IDA001 | IDA002

  datatype Violation = Violation(node: nat, detail: string, code: Code)

  /** The module names that count as IDA's, and the functions decorated with `@ida_dispatch`. */
  datatype Config = Config(idaModules: set<string>, dispatched: set<string>)

  /** Functions that run their first argument on the main thread. */
  const DISPATCH_FUNCTIONS := {"call_ida", "async_paginate_iter"}

  predicate IsIdaAttr(n: Node, c: Config) {
    n.Attribute? && n.value.Name? && n.value.name in c.idaModules
  }

  predicate IsDispatcher(n: Node) {
    n.Call? && n.func.Name? && n.func.name in DISPATCH_FUNCTIONS
  }

  /** A call of a function that has to be dispatched, made directly. */
  predicate IsBareCall(n: Node, c: Config) {
    n.Call? && n.func.Name? && n.func.name !in DISPATCH_FUNCTIONS && n.func.name in c.dispatched
  }

  predicate Offends(n: Node, c: Config) {
    IsIdaAttr(n, c) || IsBareCall(n, c)
  }

  function Report(n: Node, c: Config): Violation
    requires Offends(n, c)
  {
    if n.Attribute? then Violation(n.id, n.value.name + "." + n.attr, IDA001)
    else Violation(n.id, n.func.name, IDA002)
  }

  // ---- What the visitor records -----------------------------------------------------------

  /** The violations in the order of the visit. There is no set of safe nodes in it. */
  function Findings(n: Node, c: Config): seq<Violation>
    decreases n
  {
    match n
    case Name(_, _) => []
    case Attribute(_, value, _) => (if IsIdaAttr(n, c) then [Report(n, c)] else []) + Findings(value, c)
    case Call(_, func, args, keywords) =>
      if IsDispatcher(n) then AllFindings(if args == [] then [] else args[1..], c) + AllFindings(keywords, c)
      else if IsBareCall(n, c) then [Report(n, c)]
      else Findings(func, c) + AllFindings(args, c) + AllFindings(keywords, c)
    case Await(_, value) => Findings(value, c)
    case Scope(_, _, _, _) => []
    case Other(_, children) => AllFindings(children, c)
  }

  function AllFindings(ns: seq<Node>, c: Config): seq<Violation>
    decreases ns
  {
    if ns == [] then [] else Findings(ns[0], c) + AllFindings(ns[1..], c)
  }

  // ---- Identities ------------------------------------------------------------------------------

  function Ids(n: Node): set<nat>
    decreases n
  {
    {n.id} +
    match n
    case Name(_, _) => {}
    case Attribute(_, value, _) => Ids(value)
    case Call(_, func, args, keywords) => Ids(func) + AllIds(args) + AllIds(keywords)
    case Await(_, value) => Ids(value)
    case Scope(_, header, body, _) => AllIds(header) + AllIds(body)
    case Other(_, children) => AllIds(children)
  }

  function AllIds(ns: seq<Node>): set<nat>
    decreases ns
  {
    if ns == [] then {} else Ids(ns[0]) + AllIds(ns[1..])
  }

  /** The identities of the nodes `ast.walk` yields (in another order, which does not matter). */
  function Walk(n: Node): seq<nat>
    decreases n
  {
    [n.id] +
    match n
    case Name(_, _) => []
    case Attribute(_, value, _) => Walk(value)
    case Call(_, func, args, keywords) => Walk(func) + WalkAll(args) + WalkAll(keywords)
    case Await(_, value) => Walk(value)
    case Scope(_, header, body, _) => WalkAll(header) + WalkAll(body)
    case Other(_, children) => WalkAll(children)
  }

  function WalkAll(ns: seq<Node>): seq<nat>
    decreases ns
  {
    if ns == [] then [] else Walk(ns[0]) + WalkAll(ns[1..])
  }

  lemma {:induction false} WalkMeetsAll(n: Node)
    ensures (set id | id in Walk(n)) == Ids(n)
    decreases n
  {
    match n
    case Name(_, _) =>
    case Attribute(_, value, _) => WalkMeetsAll(value);
    case Call(_, func, args, keywords) =>
      WalkMeetsAll(func);
      WalkAllMeetsAll(args);
      WalkAllMeetsAll(keywords);
    case Await(_, value) => WalkMeetsAll(value);
    case Scope(_, header, body, _) =>
      WalkAllMeetsAll(header);
      WalkAllMeetsAll(body);
    case Other(_, children) => WalkAllMeetsAll(children);
  }

  lemma {:induction false} WalkAllMeetsAll(ns: seq<Node>)
    ensures (set id | id in WalkAll(ns)) == AllIds(ns)
    decreases ns
  {
    if ns != [] {
      WalkMeetsAll(ns[0]);
      WalkAllMeetsAll(ns[1..]);
    }
  }

  /** No two nodes are the same object. */
  predicate NoneShared(n: Node)
    decreases n
  {
    match n
    case Name(_, _) => true
    case Attribute(id, value, _) => id !in Ids(value) && NoneShared(value)
    case Call(id, func, args, keywords) =>
      && id !in Ids(func) + AllIds(args) + AllIds(keywords)
      && Ids(func) !! AllIds(args) && Ids(func) !! AllIds(keywords) && AllIds(args) !! AllIds(keywords)
      && NoneShared(func) && NoneSharedAmong(args) && NoneSharedAmong(keywords)
    case Await(id, value) => id !in Ids(value) && NoneShared(value)
    case Scope(id, header, body, _) =>
      && id !in AllIds(header) + AllIds(body) && AllIds(header) !! AllIds(body)
      && NoneSharedAmong(header) && NoneSharedAmong(body)
    case Other(id, children) => id !in AllIds(children) && NoneSharedAmong(children)
  }

  predicate NoneSharedAmong(ns: seq<Node>)
    decreases ns
  {
    ns == [] || (NoneShared(ns[0]) && NoneSharedAmong(ns[1..]) && Ids(ns[0]) !! AllIds(ns[1..]))
  }

  // ---- The visitor --------------------------------------------------------------------------------

  /** `_IdaCallFinder`. */
  class IdaCallFinder {
    const c: Config
    var violations: seq<Violation>
    var safeNodes: set<nat>

    constructor (c: Config)
      ensures this.c == c && violations == [] && safeNodes == {}
    {
      this.c := c;
      violations, safeNodes := [], {};
    }

    /** The frame and the result of every visiting method. */
    twostate predicate Visited(ids: set<nat>, found: seq<Violation>)
      reads this
    {
      violations == old(violations) + found && old(safeNodes) <= safeNodes <= old(safeNodes) + ids
    }

    method Visit(n: Node)
      requires NoneShared(n) && safeNodes !! Ids(n)
      modifies this
      ensures Visited(Ids(n), Findings(n, c))
      decreases n, 2
    {
      match n
      case Name(_, _) =>
      case Attribute(_, _, _) => VisitAttribute(n);
      case Call(_, _, _, _) => VisitCall(n);
      case Await(_, _) => VisitAwait(n);
      case Scope(_, _, _, _) =>
      case Other(_, children) => VisitAll(children);
    }

    method VisitAll(ns: seq<Node>)
      requires NoneSharedAmong(ns) && safeNodes !! AllIds(ns)
      modifies this
      ensures Visited(AllIds(ns), AllFindings(ns, c))
      decreases ns, 0
    {
      if ns != [] {
        Visit(ns[0]);
        VisitAll(ns[1..]);
      }
    }

    method VisitAwait(n: Node)
      requires n.Await? && NoneShared(n) && safeNodes !! Ids(n)
      modifies this
      ensures Visited(Ids(n), Findings(n, c))
      decreases n, 1
    {
      if n.value.Call? && n.value.func.Name? && n.value.func.name in DISPATCH_FUNCTIONS {
        VisitDispatchCall(n.value);
        return;
      }
      Visit(n.value);
    }

    method VisitCall(n: Node)
      requires n.Call? && NoneShared(n) && safeNodes !! Ids(n)
      modifies this
      ensures Visited(Ids(n), Findings(n, c))
      decreases n, 1
    {
      if n.func.Name? && n.func.name in DISPATCH_FUNCTIONS {
        VisitDispatchCall(n);
        return;
      }
      if n.func.Name? && n.func.name in c.dispatched && n.id !in safeNodes {
        violations := violations + [Violation(n.id, n.func.name, IDA002)];
        MarkSubtreeSafe(n);
        return;
      }
      assert !IsDispatcher(n) && !IsBareCall(n, c);
      VisitParts(n);
    }

    /** The children of a call, one after the other. */
    method VisitParts(n: Node)
      requires n.Call? && NoneShared(n) && safeNodes !! Ids(n)
      modifies this
      ensures Visited(Ids(n), Findings(n.func, c) + AllFindings(n.args, c) + AllFindings(n.keywords, c))
      decreases n, 0
    {
      Visit(n.func);
      VisitAll(n.args);
      VisitAll(n.keywords);
    }

    method VisitDispatchCall(n: Node)
      requires IsDispatcher(n) && NoneShared(n) && safeNodes !! Ids(n)
      modifies this
      ensures Visited(Ids(n), Findings(n, c))
      decreases n, 0
    {
      safeNodes := safeNodes + {n.func.id};
      if n.args != [] {
        MarkSubtreeSafe(n.args[0]);
        VisitAll(n.args[1..]);
      }
      VisitAll(n.keywords);
    }

    method MarkSubtreeSafe(n: Node)
      modifies this`safeNodes
      ensures safeNodes == old(safeNodes) + Ids(n)
    {
      var walk, i := Walk(n), 0;
      while i < |walk|
        invariant 0 <= i <= |walk|
        invariant safeNodes == old(safeNodes) + set id | id in walk[..i]
      {
        safeNodes := safeNodes + {walk[i]};
        i := i + 1;
      }
      assert walk[..i] == walk;
      WalkMeetsAll(n);
    }

    method VisitAttribute(n: Node)
      requires n.Attribute? && NoneShared(n) && safeNodes !! Ids(n)
      modifies this
      ensures Visited(Ids(n), Findings(n, c))
      decreases n, 1
    {
      if n.id !in safeNodes && n.value.Name? && n.value.name in c.idaModules {
        violations := violations + [Violation(n.id, n.value.name + "." + n.attr, IDA001)];
      }
      Visit(n.value);
    }
  }

  /** `lint_file`'s use of the visitor on one async function. */
  method LintBody(body: seq<Node>, c: Config) returns (violations: seq<Violation>)
    requires NoneSharedAmong(body)
    ensures violations == AllFindings(body, c)
  {
    var finder := new IdaCallFinder(c);
    finder.VisitAll(body);
    violations := finder.violations;
  }

  // ---- What ought to be found -----------------------------------------------------------------------

  function Children(n: Node): seq<Node> {
    match n
    case Name(_, _) => []
    case Attribute(_, value, _) => [value]
    case Call(_, func, args, keywords) => [func] + args + keywords
    case Await(_, value) => [value]
    case Scope(_, header, body, _) => header + body
    case Other(_, children) => children
  }

  /** Child `i` of a dispatcher is what it dispatches. */
  predicate IsDispatched(n: Node, i: nat) {
    IsDispatcher(n) && n.args != [] && i == 1
  }

  /** The linter's notion of exposure: outside nested definitions and outside a dispatcher's first argument. */
  predicate Exposes(n: Node, i: nat) {
    !n.Scope? && !IsDispatched(n, i)
  }

  predicate IsPath(n: Node, path: seq<nat>)
    decreases |path|
  {
    path == [] || (path[0] < |Children(n)| && IsPath(Children(n)[path[0]], path[1..]))
  }

  function NodeAt(n: Node, path: seq<nat>): Node
    requires IsPath(n, path)
    decreases |path|
  {
    if path == [] then n else NodeAt(Children(n)[path[0]], path[1..])
  }

  /** The path leads to a node that is exposed in this sense. */
  predicate Exposed(n: Node, path: seq<nat>): (r: bool)
    ensures r ==> IsPath(n, path)
    decreases |path|
  {
    path == [] ||
    (path[0] < |Children(n)| && Exposes(n, path[0]) && Exposed(Children(n)[path[0]], path[1..]))
  }

  /** The path enters a bare call. */
  predicate EntersBareCall(n: Node, path: seq<nat>, c: Config)
    requires IsPath(n, path)
    decreases |path|
  {
    path != [] && (IsBareCall(n, c) || EntersBareCall(Children(n)[path[0]], path[1..], c))
  }

  predicate ExposedOffence(n: Node, path: seq<nat>, c: Config) {
    Exposed(n, path) && Offends(NodeAt(n, path), c)
  }

  lemma {:induction false} FoundInOne(ns: seq<Node>, c: Config, v: Violation) returns (i: nat)
    requires v in AllFindings(ns, c)
    ensures i < |ns| && v in Findings(ns[i], c)
    decreases ns
  {
    if v in Findings(ns[0], c) {
      i := 0;
    } else {
      i := FoundInOne(ns[1..], c, v);
      i := i + 1;
    }
  }

  lemma {:induction false} FoundInAll(ns: seq<Node>, i: nat, c: Config)
    requires i < |ns|
    ensures forall v :: v in Findings(ns[i], c) ==> v in AllFindings(ns, c)
    decreases ns
  {
    if i > 0 {
      FoundInAll(ns[1..], i - 1, c);
    }
  }

  /** The child a finding of `n` other than its own comes from. */
  lemma FoundInChild(n: Node, c: Config, v: Violation) returns (i: nat)
    requires v in Findings(n, c) && !(Offends(n, c) && v == Report(n, c))
    ensures i < |Children(n)| && Exposes(n, i) && Children(n)[i] < n && v in Findings(Children(n)[i], c)
    ensures !IsBareCall(n, c)
  {
    match n
    case Attribute(_, _, _) => i := 0;
    case Await(_, _) => i := 0;
    case Other(_, children) => i := FoundInOne(children, c, v);
    case Call(_, func, args, keywords) =>
      if v in Findings(func, c) {
        i := 0;
      } else if v in AllFindings(keywords, c) {
        i := FoundInOne(keywords, c, v);
        i := i + 1 + |args|;
      } else if IsDispatcher(n) {
        i := FoundInOne(args[1..], c, v);
        i := i + 2;
      } else {
        i := FoundInOne(args, c, v);
        i := i + 1;
      }
  }

  /** Every recorded violation is an offence that is really exposed. */
  lemma {:induction false} FindingIsExposed(n: Node, c: Config, v: Violation) returns (path: seq<nat>)
    requires v in Findings(n, c)
    ensures ExposedOffence(n, path, c) && !EntersBareCall(n, path, c) && Report(NodeAt(n, path), c) == v
    decreases n
  {
    if Offends(n, c) && v == Report(n, c) {
      path := [];
    } else {
      var i := FoundInChild(n, c, v);
      var rest := FindingIsExposed(Children(n)[i], c, v);
      path := [i] + rest;
      assert path[1..] == rest;
    }
  }

  /** What a child offers is among the findings of its parent, unless the parent is a bare call. */
  lemma ChildIsFound(n: Node, i: nat, c: Config)
    requires i < |Children(n)| && Exposes(n, i) && !IsBareCall(n, c)
    ensures forall v :: v in Findings(Children(n)[i], c) ==> v in Findings(n, c)
  {
    match n
    case Attribute(_, _, _) =>
    case Await(_, _) =>
    case Other(_, children) => FoundInAll(children, i, c);
    case Call(_, func, args, keywords) =>
      if i > |args| {
        FoundInAll(keywords, i - 1 - |args|, c);
      } else if i > 0 && IsDispatcher(n) {
        FoundInAll(args[1..], i - 2, c);
      } else if i > 0 {
        FoundInAll(args, i - 1, c);
      }
  }

  /** Every exposed offence is recorded, except inside a bare call, which is recorded itself. */
  lemma {:induction false} ExposedIsFound(n: Node, path: seq<nat>, c: Config)
    requires ExposedOffence(n, path, c)
    ensures Findings(n, c) != []
    ensures !EntersBareCall(n, path, c) ==> Report(NodeAt(n, path), c) in Findings(n, c)
    decreases |path|
  {
    if path != [] && !IsBareCall(n, c) {
      var child := Children(n)[path[0]];
      ExposedIsFound(child, path[1..], c);
      ChildIsFound(n, path[0], c);
      assert Findings(child, c)[0] in Findings(child, c);
    }
  }

  /**
   * A body is passed exactly when nothing in it offends outside nested definitions and outside
   * the first argument of a dispatcher.
   */
  lemma CleanExactly(id: nat, body: seq<Node>, c: Config)
    ensures AllFindings(body, c) == [] <==> forall path :: !ExposedOffence(Other(id, body), path, c)
  {
    var n := Other(id, body);
    if AllFindings(body, c) != [] {
      var path := FindingIsExposed(n, c, AllFindings(body, c)[0]);
    }
    if path :| ExposedOffence(n, path, c) {
      ExposedIsFound(n, path, c);
    }
  }

  /** A violation is recorded exactly if it is exposed outside every bare call. */
  lemma RecordedExactly(id: nat, body: seq<Node>, c: Config, v: Violation)
    ensures v in AllFindings(body, c) <==>
              exists path :: ExposedOffence(Other(id, body), path, c)
                             && !EntersBareCall(Other(id, body), path, c)
                             && Report(NodeAt(Other(id, body), path), c) == v
  {
    var n := Other(id, body);
    if v in AllFindings(body, c) {
      var path := FindingIsExposed(n, c, v);
    }
    if path :| ExposedOffence(n, path, c) && !EntersBareCall(n, path, c) && Report(NodeAt(n, path), c) == v {
      ExposedIsFound(n, path, c);
    }
  }

  // ---- What the event loop evaluates --------------------------------------------------------------------

  /**
   * Child `i` can be evaluated on the event loop's thread when `n` is: all but a deferred body,
   * and a reference to an IDA function that a dispatcher is merely handed. A generator expression
   * counts as evaluated where it is written.
   */
  predicate Evaluates(n: Node, i: nat, c: Config) {
    if n.Scope? then i < |n.header| || !n.deferred
    else if IsDispatched(n, i) then !IsIdaAttr(n.args[0], c)
    else true
  }

  predicate Evaluated(n: Node, path: seq<nat>, c: Config): (r: bool)
    ensures r ==> IsPath(n, path)
    decreases |path|
  {
    path == [] ||
    (path[0] < |Children(n)| && Evaluates(n, path[0], c) && Evaluated(Children(n)[path[0]], path[1..], c))
  }

  predicate EvaluatedOffence(n: Node, path: seq<nat>, c: Config) {
    Evaluated(n, path, c) && Offends(NodeAt(n, path), c)
  }

  /** An offence on the event loop's thread where the linter does not look. */
  predicate MissedOffence(n: Node, path: seq<nat>, c: Config) {
    EvaluatedOffence(n, path, c) && !Exposed(n, path)
  }

  lemma {:induction false} ExposedIsEvaluated(n: Node, path: seq<nat>, c: Config)
    requires Exposed(n, path)
    ensures Evaluated(n, path, c)
    decreases |path|
  {
    if path != [] {
      ExposedIsEvaluated(Children(n)[path[0]], path[1..], c);
    }
  }

  /** So whatever is recorded is evaluated on the event loop's thread. */
  lemma RecordedIsEvaluated(id: nat, body: seq<Node>, c: Config, v: Violation) returns (path: seq<nat>)
    requires v in AllFindings(body, c)
    ensures EvaluatedOffence(Other(id, body), path, c) && Report(NodeAt(Other(id, body), path), c) == v
  {
    path := FindingIsExposed(Other(id, body), c, v);
    ExposedIsEvaluated(Other(id, body), path, c);
  }

  /** The event loop meets no offence exactly when the body is passed and nothing is missed. */
  lemma SafeExactly(id: nat, body: seq<Node>, c: Config)
    ensures (forall path :: !EvaluatedOffence(Other(id, body), path, c)) <==>
              AllFindings(body, c) == [] && forall path :: !MissedOffence(Other(id, body), path, c)
  {
    var n := Other(id, body);
    CleanExactly(id, body, c);
    if path :| ExposedOffence(n, path, c) {
      ExposedIsEvaluated(n, path, c);
      assert EvaluatedOffence(n, path, c);
    }
    if path :| EvaluatedOffence(n, path, c) {
      assert ExposedOffence(n, path, c) || MissedOffence(n, path, c);
    }
  }

  /** What is missed lies in a nested definition or in the first argument of a dispatcher. */
  lemma {:induction false} MissedIsHidden(n: Node, path: seq<nat>, c: Config) returns (k: nat)
    requires Evaluated(n, path, c) && !Exposed(n, path)
    ensures k < |path| && IsPath(n, path[..k])
    ensures NodeAt(n, path[..k]).Scope? || IsDispatched(NodeAt(n, path[..k]), path[k])
    decreases |path|
  {
    if !Exposes(n, path[0]) {
      k := 0;
    } else {
      k := MissedIsHidden(Children(n)[path[0]], path[1..], c);
      assert path[..k + 1][1..] == path[1..][..k] && path[..k + 1][0] == path[0];
      k := k + 1;
    }
  }

  /** One step down a path. */
  lemma PathStep(n: Node, i: nat, path: seq<nat>, c: Config)
    requires i < |Children(n)|
    ensures Exposed(n, [i] + path) <==> Exposes(n, i) && Exposed(Children(n)[i], path)
    ensures Evaluated(n, [i] + path, c) <==> Evaluates(n, i, c) && Evaluated(Children(n)[i], path, c)
    ensures IsPath(n, [i] + path) <==> IsPath(Children(n)[i], path)
    ensures IsPath(Children(n)[i], path) ==> NodeAt(n, [i] + path) == NodeAt(Children(n)[i], path)
  {
    assert ([i] + path)[1..] == path;
  }

  /** `await call_ida(ida_x.y())` makes its call on the event loop's thread, and is passed. */
  lemma DispatchedCallIsMissed(c: Config, ida: string)
    requires ida in c.idaModules
    ensures var made := Attribute(5, Name(6, ida), "y");
            var body := [Await(1, Call(2, Name(3, "call_ida"), [Call(4, made, [], [])], []))];
            && AllFindings(body, c) == []
            && MissedOffence(Other(0, body), [0, 0, 1, 0], c) && NodeAt(Other(0, body), [0, 0, 1, 0]) == made
  {
    var made := Attribute(5, Name(6, ida), "y");
    var call := Call(4, made, [], []);
    var dispatch := Call(2, Name(3, "call_ida"), [call], []);
    var await_ := Await(1, dispatch);
    assert [call][1..] == [] && Findings(dispatch, c) == [];
    PathStep(call, 0, [], c);
    assert IsDispatched(dispatch, 1) && Children(dispatch)[1] == call;
    PathStep(dispatch, 1, [0] + [], c);
    PathStep(await_, 0, [1] + ([0] + []), c);
    PathStep(Other(0, [await_]), 0, [0] + ([1] + ([0] + [])), c);
    assert [0, 0, 1, 0] == [0] + ([0] + ([1] + ([0] + [])));
  }

  /** So is a reference in the body of a nested class, which runs where the class is defined. */
  lemma ClassBodyIsMissed(c: Config, ida: string)
    requires ida in c.idaModules
    ensures var read := Attribute(2, Name(3, ida), "y");
            var body := [Scope(1, [], [read], false)];
            && AllFindings(body, c) == []
            && MissedOffence(Other(0, body), [0, 0], c) && NodeAt(Other(0, body), [0, 0]) == read
  {
    var read := Attribute(2, Name(3, ida), "y");
    var scope := Scope(1, [], [read], false);
    assert Children(scope)[0] == read;
    PathStep(scope, 0, [], c);
    PathStep(Other(0, [scope]), 0, [0] + [], c);
    assert [0, 0] == [0] + ([0] + []);
  }

  // ---- What a bare call hides ---------------------------------------------------------------------------

  lemma HiddenIds(helper: string, ida: string)
    ensures var call := Call(1, Name(2, helper), [Attribute(3, Name(4, ida), "y")], []);
            NoneSharedAmong([call])
  {
    var func, name := Name(2, helper), Name(4, ida);
    var hidden := Attribute(3, name, "y");
    var call := Call(1, func, [hidden], []);
    assert [hidden][1..] == [] && [call][1..] == [];
    assert Ids(func) == {2};
    assert Ids(name) == {4};
    assert Ids(hidden) == {3, 4};
    assert AllIds([hidden]) == {3, 4};
    assert NoneShared(hidden) && NoneSharedAmong([hidden]);
    assert NoneShared(call);
  }

  /**
   * The arguments of a bare call are not looked at, although the source says they are: in
   * `helper(ida_x.y)` the attribute is exposed and goes unrecorded.
   */
  lemma BareCallHidesItsArguments(c: Config, helper: string, ida: string)
    requires helper in c.dispatched && helper !in DISPATCH_FUNCTIONS && ida in c.idaModules
    ensures var hidden := Attribute(3, Name(4, ida), "y");
            var body := [Call(1, Name(2, helper), [hidden], [])];
            && NoneSharedAmong(body)
            && ExposedOffence(Other(0, body), [0, 1], c) && NodeAt(Other(0, body), [0, 1]) == hidden
            && AllFindings(body, c) == [Violation(1, helper, IDA002)]
  {
    var hidden := Attribute(3, Name(4, ida), "y");
    var call := Call(1, Name(2, helper), [hidden], []);
    HiddenIds(helper, ida);
    assert Children(call)[1] == hidden;
    assert [0, 1][1..] == [1] && [1][1..] == [];
    assert Exposed(hidden, []) && Exposed(call, [1]) && Exposed(Other(0, [call]), [0, 1]);
    assert NodeAt(call, [1]) == NodeAt(hidden, []) == hidden;
  }
}
