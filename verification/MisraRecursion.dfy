/**
 MISRA rule 17.2 (no recursion): a depth-first search whose visited set is shared and
 mutated across all branches, and the pass that reports every call lying on a cycle.
 */
module MisraRecursion {
  import opened Options

  /** A function known to the analyser. */
  type Function = nat

  /** The functions each function calls, in order of first call. */
  type CallMap = map<Function, seq<Function>>

  /** `calls_map.get(f, [])` */
  function Calls(m: CallMap, f: Function): seq<Function> {
    if f in m then m[f] else []
  }

  ghost predicate Path(m: CallMap, p: seq<Function>) {
    |p| >= 1 && forall i :: 0 <= i < |p| - 1 ==> p[i + 1] in Calls(m, p[i])
  }

  /** A chain of zero or more calls leads from `a` to `b`. */
  ghost predicate Reaches(m: CallMap, a: Function, b: Function) {
    exists p :: Path(m, p) && p[0] == a && p[|p| - 1] == b
  }

  // ----- The search ------------------------------------------------------------------

  class VisitedSet {
    var seen: set<Function>

    constructor ()
      ensures seen == {}
    {
      seen := {};
    }

    method Add(f: Function)
      modifies this
      ensures seen == old(seen) + {f}
    {
      seen := seen + {f};
    }
  }

  /** Everything any function calls: what the search can still discover. */
  ghost function Callees(m: CallMap): set<Function> {
    set f, c | f in m && c in m[f] :: c
  }

  /** None of `done` is the target or calls it, and all they call has been seen. */
  ghost predicate Explored(m: CallMap, target: Function, done: set<Function>, seen: set<Function>) {
    target !in done && forall u, v :: u in done && v in Calls(m, u) ==> v != target && v in seen
  }

  lemma PathTail(m: CallMap, p: seq<Function>)
    requires Path(m, p) && |p| > 1
    ensures Path(m, p[1..]) && p[1] in Calls(m, p[0])
  {
    var q := p[1..];
    assert p[0 + 1] in Calls(m, p[0]);
    forall i | 0 <= i < |q| - 1 ensures q[i + 1] in Calls(m, q[i]) {
      assert p[(i + 1) + 1] in Calls(m, p[i + 1]);
    }
  }

  lemma {:induction false} ClosedUnderPath(m: CallMap, closed: set<Function>, p: seq<Function>)
    requires Path(m, p) && p[0] in closed
    requires forall u, v :: u in closed && v in Calls(m, u) ==> v in closed
    ensures p[|p| - 1] in closed
    decreases |p|
  {
    if |p| > 1 {
      PathTail(m, p);
      ClosedUnderPath(m, closed, p[1..]);
    }
  }

  lemma ReachesItself(m: CallMap, a: Function)
    ensures Reaches(m, a, a)
  {
    assert Path(m, [a]);
  }

  lemma ReachesThrough(m: CallMap, a: Function, b: Function, c: Function)
    requires b in Calls(m, a) && Reaches(m, b, c)
    ensures Reaches(m, a, c)
  {
    var p :| Path(m, p) && p[0] == b && p[|p| - 1] == c;
    var q := [a] + p;
    assert forall i :: 1 <= i < |q| ==> q[i] == p[i - 1];
    assert Path(m, q) && q[0] == a && q[|q| - 1] == c;
  }

  /** `find_recursive_call`, called with the set shared by the whole search. */
  method FindRecursiveCall(target: Function, direct: Function, m: CallMap, visited: VisitedSet) returns (found: bool)
    modifies visited
    ensures old(visited.seen) <= visited.seen
    ensures found ==> Reaches(m, direct, target)
    ensures !found ==> Explored(m, target, visited.seen - old(visited.seen) + {direct}, visited.seen)
    decreases Callees(m) - visited.seen
  {
    hide Reaches;
    if direct == target {
      ReachesItself(m, direct);
      return true;
    }
    ghost var before := visited.seen;
    var calls := Calls(m, direct);
    for i := 0 to |calls|
      invariant before <= visited.seen
      invariant Explored(m, target, visited.seen - before, visited.seen)
      invariant forall k :: 0 <= k < i ==> calls[k] != target && calls[k] in visited.seen
    {
      var indirect := calls[i];
      if indirect == target {
        ReachesItself(m, target);
        ReachesThrough(m, direct, indirect, target);
        return true;
      }
      if indirect in visited.seen {
        continue;
      }
      assert indirect in Callees(m) - visited.seen;
      visited.Add(indirect);
      var deeper := FindRecursiveCall(target, indirect, m, visited);
      if deeper {
        ReachesThrough(m, direct, indirect, target);
        return true;
      }
    }
    return false;
  }

  /** The search started with an empty set decides reachability. */
  method CallsBack(target: Function, direct: Function, m: CallMap) returns (found: bool)
    ensures found <==> Reaches(m, direct, target)
  {
    var visited := new VisitedSet();
    found := FindRecursiveCall(target, direct, m, visited);
    if !found {
      ghost var closed := visited.seen + {direct};
      forall p | Path(m, p) && p[0] == direct ensures p[|p| - 1] != target {
        ClosedUnderPath(m, closed, p);
      }
    }
  }

  // ----- The call graph of a translation unit ----------------------------------------

  /** `calls`: the function a call token calls, if known. `names`: the function a token stands for. */
  datatype Token = Token(calls: Option<Function>, names: Option<Function>)

  /** A scope with its tokens from the opening to the closing brace. */
  datatype Scope = Scope(isFunction: bool, owner: Function, body: seq<Token>)

  ghost predicate Distinct<T(!new)>(s: seq<T>) {
    forall i, j :: 0 <= i < j < |s| ==> s[i] != s[j]
  }

  /** The functions called in a body, each once; the opening brace is not looked at. */
  function Called(body: seq<Token>): (calls: seq<Function>)
    ensures Distinct(calls)
    ensures forall f :: f in calls <==> exists k :: 1 <= k < |body| && body[k].calls == Some(f)
  {
    if |body| <= 1 then []
    else
      var earlier := Called(body[..|body| - 1]);
      var call := body[|body| - 1].calls;
      assert forall k :: 1 <= k < |body| - 1 ==> body[..|body| - 1][k] == body[k];
      if call.Some? && call.value !in earlier then earlier + [call.value] else earlier
  }

  /** A function scope seen later replaces an earlier one of the same function. */
  function CallMapOf(scopes: seq<Scope>): CallMap {
    if scopes == [] then map[]
    else
      var m, s := CallMapOf(scopes[..|scopes| - 1]), scopes[|scopes| - 1];
      if s.isFunction then m[s.owner := Called(s.body)] else m
  }

  lemma {:induction false} CallMapHasScopes(scopes: seq<Scope>)
    ensures forall f ::
      f in CallMapOf(scopes) <==> exists i :: 0 <= i < |scopes| && scopes[i].isFunction && scopes[i].owner == f
  {
    if scopes != [] {
      var n := |scopes| - 1;
      CallMapHasScopes(scopes[..n]);
      assert forall i :: 0 <= i < n ==> scopes[..n][i] == scopes[i];
      assert scopes[n].isFunction ==> scopes[n].owner in CallMapOf(scopes);
    }
  }

  lemma NothingCalled(body: seq<Token>)
    requires |body| <= 1
    ensures Called(body) == []
  {
  }

  lemma CalledStep(body: seq<Token>, n: nat)
    requires 1 <= n < |body|
    ensures var earlier, call := Called(body[..n]), body[n].calls;
      Called(body[..n + 1]) == if call.Some? && call.value !in earlier then earlier + [call.value] else earlier
  {
    assert body[..n + 1][..n] == body[..n];
  }

  method CollectCalls(body: seq<Token>) returns (calls: seq<Function>)
    requires |body| >= 1
    ensures calls == Called(body)
  {
    hide Called;
    calls := [];
    var tok := 0;
    NothingCalled(body[..1]);
    while tok != |body| - 1
      invariant 0 <= tok < |body|
      invariant calls == Called(body[..tok + 1])
      decreases |body| - tok
    {
      tok := tok + 1;
      CalledStep(body, tok);
      var f := body[tok].calls;
      if f.None? || f.value in calls {
        continue;
      }
      calls := calls + [f.value];
    }
    assert body[..|body|] == body;
  }

  /** The dictionary with its keys in insertion order. */
  method CollectCallMap(scopes: seq<Scope>) returns (keys: seq<Function>, m: CallMap)
    requires forall s :: s in scopes ==> |s.body| >= 1
    ensures m == CallMapOf(scopes) && Distinct(keys) && forall f :: f in keys <==> f in m
  {
    keys, m := [], map[];
    for i := 0 to |scopes|
      invariant m == CallMapOf(scopes[..i]) && Distinct(keys) && forall f :: f in keys <==> f in m
    {
      assert scopes[..i + 1][..i] == scopes[..i];
      if !scopes[i].isFunction {
        continue;
      }
      var calls := CollectCalls(scopes[i].body);
      if scopes[i].owner !in m {
        keys := keys + [scopes[i].owner];
      }
      m := m[scopes[i].owner := calls];
    }
    assert scopes[..|scopes|] == scopes;
  }

  // ----- The report ------------------------------------------------------------------

  /** A reported token: its scope and its place in the body. */
  datatype Report = Report(scope: nat, token: nat)

  /** The report names a token of `func` that stands for `call`; the closing brace is not looked at. */
  ghost predicate Mentions(scopes: seq<Scope>, func: Function, call: Function, r: Report) {
    && r.scope < |scopes| && scopes[r.scope].isFunction && scopes[r.scope].owner == func
    && r.token < |scopes[r.scope].body| - 1 && scopes[r.scope].body[r.token].names == Some(call)
  }

  /** The call lies on a cycle of the call graph. */
  ghost predicate Recursive(m: CallMap, func: Function, call: Function) {
    call in Calls(m, func) && Reaches(m, call, func)
  }

  ghost predicate Flagged(scopes: seq<Scope>, r: Report) {
    exists func: Function, call: Function :: Mentions(scopes, func, call, r) && Recursive(CallMapOf(scopes), func, call)
  }

  method ReportCall(scopes: seq<Scope>, func: Function, call: Function) returns (reports: seq<Report>)
    requires forall s :: s in scopes ==> |s.body| >= 1
    ensures Distinct(reports) && forall r :: r in reports <==> Mentions(scopes, func, call, r)
  {
    reports := [];
    for i := 0 to |scopes|
      invariant Distinct(reports) && forall r :: r in reports <==> Mentions(scopes, func, call, r) && r.scope < i
    {
      if !scopes[i].isFunction || scopes[i].owner != func {
        continue;
      }
      var tok := 0;
      while tok != |scopes[i].body| - 1
        invariant 0 <= tok < |scopes[i].body|
        invariant Distinct(reports)
        invariant forall r ::
          r in reports <==> Mentions(scopes, func, call, r) && (r.scope < i || (r.scope == i && r.token < tok))
        decreases |scopes[i].body| - tok
      {
        if scopes[i].body[tok].names == Some(call) {
          reports := reports + [Report(i, tok)];
        }
        tok := tok + 1;
      }
    }
  }

  ghost predicate Covered(scopes: seq<Scope>, m: CallMap, done: set<(Function, Function)>, r: Report) {
    exists func: Function, call: Function ::
      Mentions(scopes, func, call, r) && Recursive(m, func, call) && (func, call) in done
  }

  lemma AppendReports(a: seq<Report>, b: seq<Report>)
    requires Distinct(a) && Distinct(b) && forall r :: r in a ==> r !in b
    ensures Distinct(a + b)
  {
    var s := a + b;
    forall i, j | 0 <= i < j < |s| ensures s[i] != s[j] {
      if i < |a| <= j {
        assert s[i] in a && s[j] in b;
      }
    }
  }

  /** One edge of the call graph is examined and, if it is recursive, reported everywhere. */
  method ExamineCall(scopes: seq<Scope>, m: CallMap, func: Function, call: Function,
                     ghost done: set<(Function, Function)>,
                     reports: seq<Report>) returns (all: seq<Report>)
    requires forall s :: s in scopes ==> |s.body| >= 1
    requires call in Calls(m, func) && (func, call) !in done
    requires Distinct(reports) && forall r :: r in reports <==> Covered(scopes, m, done, r)
    ensures Distinct(all) && forall r :: r in all <==> Covered(scopes, m, done + {(func, call)}, r)
  {
    all := reports;
    var cyclic := CallsBack(func, call, m);
    if cyclic {
      var more := ReportCall(scopes, func, call);
      forall r | r in reports ensures r !in more {
        assert Covered(scopes, m, done, r);
      }
      AppendReports(reports, more);
      all := reports + more;
    }
    forall r ensures r in all <==> Covered(scopes, m, done + {(func, call)}, r) {
      if Mentions(scopes, func, call, r) && cyclic {
        assert Recursive(m, func, call);
        assert (func, call) in done + {(func, call)};
      }
    }
  }

  /** `misra_17_2`: reports, each once, exactly the tokens that stand for a recursive call. */
  method Misra17_2(scopes: seq<Scope>) returns (reports: seq<Report>)
    requires forall s :: s in scopes ==> |s.body| >= 1
    ensures Distinct(reports)
    ensures forall r :: r in reports <==> Flagged(scopes, r)
  {
    hide Reaches, Mentions;
    var keys, m := CollectCallMap(scopes);
    reports := [];
    ghost var done: set<(Function, Function)> := {};
    for i := 0 to |keys|
      invariant Distinct(reports) && forall r :: r in reports <==> Covered(scopes, m, done, r)
      invariant forall f: Function, c: Function :: (f, c) in done <==> f in keys[..i] && c in Calls(m, f)
    {
      var func := keys[i];
      var calls := m[func];
      CalledDistinct(scopes, func);
      for j := 0 to |calls|
        invariant Distinct(reports) && forall r :: r in reports <==> Covered(scopes, m, done, r)
        invariant forall f: Function, c: Function ::
          (f, c) in done <==> (f in keys[..i] && c in Calls(m, f)) || (f == func && c in calls[..j])
      {
        reports := ExamineCall(scopes, m, func, calls[j], done, reports);
        done := done + {(func, calls[j])};
      }
      assert calls[..|calls|] == calls;
    }
    assert keys[..|keys|] == keys;
    forall r ensures Covered(scopes, m, done, r) <==> Flagged(scopes, r) {
    }
  }

  lemma {:induction false} CalledDistinct(scopes: seq<Scope>, f: Function)
    requires f in CallMapOf(scopes)
    ensures Distinct(CallMapOf(scopes)[f])
  {
    var n := |scopes| - 1;
    if !(scopes[n].isFunction && scopes[n].owner == f) {
      CalledDistinct(scopes[..n], f);
    }
  }

  // ----- What silence means ----------------------------------------------------------

  ghost predicate Cycle(m: CallMap, p: seq<Function>) {
    Path(m, p) && |p| >= 2 && p[0] == p[|p| - 1]
  }

  /** Every call in the graph is also written out in a body of its caller. */
  ghost predicate CallsAreWritten(scopes: seq<Scope>) {
    forall f: Function, c: Function :: c in Calls(CallMapOf(scopes), f) ==> exists r :: Mentions(scopes, f, c, r)
  }

  lemma RecursiveIsOnCycle(m: CallMap, f: Function, c: Function)
    requires Recursive(m, f, c)
    ensures exists p: seq<Function> :: Cycle(m, p) && p[0] == f && p[1] == c
  {
    var q :| Path(m, q) && q[0] == c && q[|q| - 1] == f;
    var p := [f] + q;
    assert forall i :: 1 <= i < |p| ==> p[i] == q[i - 1];
    assert Cycle(m, p) && p[0] == f && p[1] == c;
  }

  lemma CycleIsRecursive(m: CallMap, p: seq<Function>)
    requires Cycle(m, p)
    ensures Recursive(m, p[0], p[1])
  {
    var q := p[1..];
    PathTail(m, p);
    assert Path(m, q) && q[0] == p[1] && q[|q| - 1] == p[0];
  }

  lemma CycleIsFlagged(scopes: seq<Scope>, p: seq<Function>) returns (r: Report)
    requires CallsAreWritten(scopes) && Cycle(CallMapOf(scopes), p)
    ensures Flagged(scopes, r)
  {
    hide Reaches, Mentions;
    CycleIsRecursive(CallMapOf(scopes), p);
    r :| Mentions(scopes, p[0], p[1], r);
  }

  lemma FlaggedIsOnCycle(scopes: seq<Scope>, r: Report) returns (p: seq<Function>)
    requires Flagged(scopes, r)
    ensures Cycle(CallMapOf(scopes), p) && Mentions(scopes, p[0], p[1], r)
  {
    hide Reaches, Mentions;
    var f: Function, c: Function :| Mentions(scopes, f, c, r) && Recursive(CallMapOf(scopes), f, c);
    RecursiveIsOnCycle(CallMapOf(scopes), f, c);
    p :| Cycle(CallMapOf(scopes), p) && p[0] == f && p[1] == c;
  }

  /** No token is reported exactly when the call graph has no cycle. */
  lemma SilentMeansAcyclic(scopes: seq<Scope>)
    requires CallsAreWritten(scopes)
    ensures (forall r :: !Flagged(scopes, r)) <==> forall p: seq<Function> :: !Cycle(CallMapOf(scopes), p)
  {
    hide Flagged, Cycle, CallMapOf;
    if r: Report :| Flagged(scopes, r) {
      var p := FlaggedIsOnCycle(scopes, r);
      assert Cycle(CallMapOf(scopes), p);
    }
    if p: seq<Function> :| Cycle(CallMapOf(scopes), p) {
      var r := CycleIsFlagged(scopes, p);
      assert Flagged(scopes, r);
    }
  }
}
