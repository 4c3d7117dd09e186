/** The linter's reports spelled out: which nodes are reported, in which words, in which order. */
module LintReports {
  import opened ThreadingLint

  /** The call hands its first argument to the main thread. */
  predicate HandsOver(n: Node) {
    n.Call? && n.func.Name? && (n.func.name == "call_ida" || n.func.name == "async_paginate_iter")
  }

  /** The call runs one of the functions that must be dispatched, on the spot. */
  predicate CallsDirectly(n: Node, c: Config) {
    n.Call? && n.func.Name? && n.func.name in c.dispatched && !HandsOver(n)
  }

  /** What the linter has to say about one node. */
  function ReportsOn(n: Node, c: Config): seq<Violation> {
    if n.Attribute? && n.value.Name? && n.value.name in c.idaModules then
      [Violation(n.id, n.value.name + "." + n.attr, IDA001)]
    else if CallsDirectly(n, c) then [Violation(n.id, n.func.name, IDA002)]
    else []
  }

  /** The visitor goes into every child but those of a definition or a direct call, and the one handed over. */
  predicate GoesInto(n: Node, i: nat, c: Config) {
    !n.Scope? && !CallsDirectly(n, c) && !(HandsOver(n) && n.args != [] && i == 1)
  }

  lemma ChildIsSmaller(n: Node, i: nat)
    requires i < |Children(n)|
    ensures Children(n)[i] < n
  {
    match n
    case Call(_, func, args, keywords) =>
      if 0 < i <= |args| {
        assert Children(n)[i] == args[i - 1];
      }
    case Scope(_, header, body, _) =>
      if i >= |header| {
        assert Children(n)[i] == body[i - |header|];
      }
    case _ =>
  }

  /** The nodes visited from `n` on, each before its children. */
  function Visits(n: Node, c: Config): seq<Node>
    decreases n, |Children(n)| + 1
  {
    [n] + VisitsFrom(n, 0, c)
  }

  function VisitsFrom(n: Node, i: nat, c: Config): seq<Node>
    requires i <= |Children(n)|
    decreases n, |Children(n)| - i
  {
    if i == |Children(n)| then []
    else
      ChildIsSmaller(n, i);
      (if GoesInto(n, i, c) then Visits(Children(n)[i], c) else []) + VisitsFrom(n, i + 1, c)
  }

  function AllReports(ns: seq<Node>, c: Config): seq<Violation> {
    if ns == [] then [] else ReportsOn(ns[0], c) + AllReports(ns[1..], c)
  }

  lemma {:induction false} ReportsSplit(a: seq<Node>, b: seq<Node>, c: Config)
    ensures AllReports(a + b, c) == AllReports(a, c) + AllReports(b, c)
  {
    if a == [] {
      assert a + b == b;
    } else {
      assert (a + b)[1..] == a[1..] + b;
      ReportsSplit(a[1..], b, c);
    }
  }

  lemma OffencesExactly(n: Node, c: Config)
    ensures IsDispatcher(n) <==> HandsOver(n)
    ensures IsBareCall(n, c) <==> CallsDirectly(n, c)
    ensures ReportsOn(n, c) == if Offends(n, c) then [Report(n, c)] else []
  {
  }

  // ---- The order of the visit ----------------------------------------------------------------------

  /** The findings below the children from `i` on that the visitor goes into. */
  function FindingsFrom(n: Node, i: nat, c: Config): seq<Violation>
    requires i <= |Children(n)|
    decreases |Children(n)| - i
  {
    if i == |Children(n)| then []
    else (if GoesInto(n, i, c) then Findings(Children(n)[i], c) else []) + FindingsFrom(n, i + 1, c)
  }

  lemma EnteredOne(n: Node, i: nat, c: Config)
    requires i < |Children(n)| && GoesInto(n, i, c)
    ensures FindingsFrom(n, i, c) == Findings(Children(n)[i], c) + FindingsFrom(n, i + 1, c)
  {
  }

  lemma Regroup<T>(a: seq<T>, b: seq<T>, c: seq<T>)
    ensures a + (b + c) == (a + b) + c
  {
  }

  lemma StretchGrows(n: Node, i: nat, ns: seq<Node>, rest: seq<Violation>, c: Config)
    requires i < |Children(n)| && GoesInto(n, i, c) && ns != [] && Children(n)[i] == ns[0]
    requires FindingsFrom(n, i + 1, c) == AllFindings(ns[1..], c) + rest
    ensures FindingsFrom(n, i, c) == AllFindings(ns, c) + rest
  {
    EnteredOne(n, i, c);
    Regroup(Findings(ns[0], c), AllFindings(ns[1..], c), rest);
  }

  /** A stretch of children, all of which are entered. */
  lemma {:induction false} EnteredStretch(n: Node, i: nat, ns: seq<Node>, c: Config)
    requires i + |ns| <= |Children(n)| && Children(n)[i..i + |ns|] == ns
    requires forall k | i <= k < i + |ns| :: GoesInto(n, k, c)
    ensures FindingsFrom(n, i, c) == AllFindings(ns, c) + FindingsFrom(n, i + |ns|, c)
    decreases |ns|
  {
    if ns != [] {
      EnteredStretch(n, i + 1, ns[1..], c);
      StretchGrows(n, i, ns, FindingsFrom(n, i + |ns|, c), c);
    }
  }

  lemma {:induction false} NothingEntered(n: Node, i: nat, c: Config)
    requires i <= |Children(n)| && (n.Scope? || CallsDirectly(n, c))
    ensures FindingsFrom(n, i, c) == []
    decreases |Children(n)| - i
  {
    if i < |Children(n)| {
      NothingEntered(n, i + 1, c);
    }
  }

  lemma CallFindings(n: Node, c: Config)
    requires n.Call? && !HandsOver(n) && !CallsDirectly(n, c)
    ensures Findings(n, c) == FindingsFrom(n, 0, c)
  {
    var keywords := |n.args| + 1;
    assert Children(n)[0] == n.func;
    assert FindingsFrom(n, 0, c) == Findings(n.func, c) + FindingsFrom(n, 1, c);
    EnteredStretch(n, 1, n.args, c);
    EnteredStretch(n, keywords, n.keywords, c);
    assert Findings(n.func, c) + AllFindings(n.args, c) + AllFindings(n.keywords, c)
        == Findings(n.func, c) + (AllFindings(n.args, c) + (AllFindings(n.keywords, c) + []));
  }

  lemma DispatcherFindings(n: Node, c: Config)
    requires HandsOver(n)
    ensures Findings(n, c) == FindingsFrom(n, 0, c)
  {
    var keywords := |n.args| + 1;
    assert Children(n)[0] == n.func && Findings(n.func, c) == [];
    assert FindingsFrom(n, 0, c) == FindingsFrom(n, 1, c);
    EnteredStretch(n, keywords, n.keywords, c);
    if n.args != [] {
      assert FindingsFrom(n, 1, c) == FindingsFrom(n, 2, c);
      assert Children(n)[2..keywords] == n.args[1..];
      EnteredStretch(n, 2, n.args[1..], c);
    }
  }

  lemma OtherFindings(n: Node, c: Config)
    requires !n.Call?
    ensures Findings(n, c) == ReportsOn(n, c) + FindingsFrom(n, 0, c)
  {
    match n
    case Other(_, children) => EnteredStretch(n, 0, children, c);
    case Scope(_, _, _, _) => NothingEntered(n, 0, c);
    case Attribute(_, value, _) => EnteredStretch(n, 0, [value], c);
    case Await(_, value) => EnteredStretch(n, 0, [value], c);
    case _ =>
  }

  /** A node's findings are its own report and those below the children that are entered. */
  lemma FindingsSplit(n: Node, c: Config)
    ensures Findings(n, c) == ReportsOn(n, c) + FindingsFrom(n, 0, c)
  {
    OffencesExactly(n, c);
    if !n.Call? {
      OtherFindings(n, c);
    } else if HandsOver(n) {
      DispatcherFindings(n, c);
    } else if CallsDirectly(n, c) {
      NothingEntered(n, 0, c);
    } else {
      CallFindings(n, c);
    }
  }

  /** What is recorded is the report on every visited node, in the order of the visit. */
  lemma {:induction false} FindingsInOrder(n: Node, c: Config)
    ensures Findings(n, c) == AllReports(Visits(n, c), c)
    decreases n, |Children(n)| + 1
  {
    FindingsSplit(n, c);
    FindingsInOrderFrom(n, 0, c);
    assert Visits(n, c)[1..] == VisitsFrom(n, 0, c);
  }

  /** One child more, once its own visits and those after it are in order. */
  lemma OrderGrows(n: Node, i: nat, c: Config)
    requires i < |Children(n)| && FindingsFrom(n, i + 1, c) == AllReports(VisitsFrom(n, i + 1, c), c)
    requires GoesInto(n, i, c) ==> Findings(Children(n)[i], c) == AllReports(Visits(Children(n)[i], c), c)
    ensures FindingsFrom(n, i, c) == AllReports(VisitsFrom(n, i, c), c)
  {
    if GoesInto(n, i, c) {
      EnteredOne(n, i, c);
      ReportsSplit(Visits(Children(n)[i], c), VisitsFrom(n, i + 1, c), c);
    } else {
      assert VisitsFrom(n, i, c) == VisitsFrom(n, i + 1, c);
    }
  }

  lemma {:induction false} FindingsInOrderFrom(n: Node, i: nat, c: Config)
    requires i <= |Children(n)|
    ensures FindingsFrom(n, i, c) == AllReports(VisitsFrom(n, i, c), c)
    decreases n, |Children(n)| - i
  {
    if i < |Children(n)| {
      FindingsInOrderFrom(n, i + 1, c);
      ChildIsSmaller(n, i);
      FindingsInOrder(Children(n)[i], c);
      OrderGrows(n, i, c);
    }
  }
}
