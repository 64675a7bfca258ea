/** The worklist search of integration/overlay/internal/engine/breg_flow_test.go, which decides
    whether every path from START seeds the transaction id before any other task, over any
    finite flow graph, cycles included. */
module FlowSearch {
  import opened Wrappers

  const SEED := "eSignetTransactionIDExecutor"

  datatype Node = Node(
    id: string, kind: string, executor: Option<string>,
    onSuccess: string, onFailure: string, onIncomplete: string, next: string,
    onSkip: Option<string>,
    promptActions: seq<Option<string>>)

  datatype Verdict =
    | Accepted
    | StartMissing
    | UnknownNode(id: string)
    | TaskBeforeSeed(id: string)
    | NeverSeeded

  type Graph = map<string, Node>

  predicate IsTask(n: Node) {
    n.kind == "TASK_EXECUTION"
  }

  predicate IsSeed(n: Node) {
    IsTask(n) && n.executor == Some(SEED)
  }

  /** Lines 49-54: later definitions of an id win, and so does the last START. */
  function GraphOf(defs: seq<Node>): Graph {
    if defs == [] then map[] else GraphOf(defs[..|defs| - 1])[defs[|defs| - 1].id := defs[|defs| - 1]]
  }

  function StartOf(defs: seq<Node>): string {
    if defs == [] then ""
    else if defs[|defs| - 1].kind == "START" then defs[|defs| - 1].id
    else StartOf(defs[..|defs| - 1])
  }

  /** Node k is the one its id stands for: no later definition takes the id over. */
  predicate IsLast(defs: seq<Node>, k: nat)
    requires k < |defs|
  {
    forall j | k < j < |defs| :: defs[j].id != defs[k].id
  }

  predicate IsLastStart(defs: seq<Node>, k: nat)
    requires k < |defs|
  {
    defs[k].kind == "START" && forall j | k < j < |defs| :: defs[j].kind != "START"
  }

  /** The ids are those defined, and each stands for its last definition. */
  ghost predicate LastWins(defs: seq<Node>, nodes: Graph) {
    && nodes.Keys == (set n | n in defs :: n.id)
    && forall k: nat | k < |defs| && IsLast(defs, k) :: defs[k].id in nodes && nodes[defs[k].id] == defs[k]
  }

  /** The start is the id of the last START, and empty without one. */
  ghost predicate StartsLast(defs: seq<Node>, start: string) {
    && (forall k: nat | k < |defs| && IsLastStart(defs, k) :: start == defs[k].id)
    && ((forall k: nat | k < |defs| :: defs[k].kind != "START") ==> start == "")
  }

  lemma {:induction false} LastInGraph(defs: seq<Node>, k: nat)
    requires k < |defs| && IsLast(defs, k)
    ensures defs[k].id in GraphOf(defs) && GraphOf(defs)[defs[k].id] == defs[k]
  {
    var last := |defs| - 1;
    if k < last {
      assert defs[k].id != defs[last].id;
      LastInGraph(defs[..last], k);
    }
  }

  lemma {:induction false} GraphKeys(defs: seq<Node>)
    ensures GraphOf(defs).Keys == set n | n in defs :: n.id
  {
    if defs != [] {
      var init, last := defs[..|defs| - 1], defs[|defs| - 1];
      GraphKeys(init);
      assert forall n :: n in defs <==> n in init || n == last by { assert defs == init + [last]; }
    }
  }

  lemma GraphExact(defs: seq<Node>)
    ensures LastWins(defs, GraphOf(defs))
  {
    GraphKeys(defs);
    forall k: nat | k < |defs| && IsLast(defs, k)
      ensures defs[k].id in GraphOf(defs) && GraphOf(defs)[defs[k].id] == defs[k]
    {
      LastInGraph(defs, k);
    }
  }

  lemma {:induction false} StartExact(defs: seq<Node>)
    ensures StartsLast(defs, StartOf(defs))
  {
    if defs != [] && defs[|defs| - 1].kind != "START" {
      var init := defs[..|defs| - 1];
      StartExact(init);
      assert forall k | 0 <= k < |init| :: init[k] == defs[k];
      forall k: nat | k < |defs| && IsLastStart(defs, k)
        ensures k < |init| && IsLastStart(init, k)
      {
      }
    }
  }

  function Actions(prompts: seq<Option<string>>): seq<string> {
    if prompts == [] then []
    else (if prompts[0].Some? then [prompts[0].value] else []) + Actions(prompts[1..])
  }

  /** Every reference a node makes; the empty string refers to nothing. */
  function References(n: Node): seq<string> {
    [n.onSuccess, n.onFailure, n.onIncomplete, n.next]
    + (if n.onSkip.Some? then [n.onSkip.value] else [])
    + Actions(n.promptActions)
  }

  lemma {:induction false} ActionsExact(prompts: seq<Option<string>>, x: string)
    ensures x in Actions(prompts) <==> Some(x) in prompts
  {
    if prompts != [] {
      ActionsExact(prompts[1..], x);
      assert Some(x) in prompts <==> prompts[0] == Some(x) || Some(x) in prompts[1..];
    }
  }

  /** What a node refers to: its four successors, where it goes when skipped, and the action of each
      prompt that has one. */
  lemma ReferencesExact(n: Node, x: string)
    ensures x in References(n) <==>
              || x == n.onSuccess || x == n.onFailure || x == n.onIncomplete || x == n.next
              || n.onSkip == Some(x) || Some(x) in n.promptActions
  {
    ActionsExact(n.promptActions, x);
  }

  // ---------------------------------------------------------------- what the verdict means

  predicate Refers(g: Graph, from: string, to: string) {
    from in g && to != "" && to in References(g[from])
  }

  /** A walk over references, tasks included. */
  predicate IsPath(g: Graph, path: seq<string>) {
    && path != []
    && forall i | 0 <= i < |path| - 1 :: Refers(g, path[i], path[i + 1])
  }

  predicate Passes(g: Graph, id: string) {
    id in g && !IsTask(g[id])
  }

  /** A walk that has met no task before its last node. */
  predicate TaskFreePath(g: Graph, path: seq<string>) {
    IsPath(g, path) && forall i | 0 <= i < |path| - 1 :: Passes(g, path[i])
  }

  ghost predicate Reachable(g: Graph, start: string, id: string) {
    exists path: seq<string> :: TaskFreePath(g, path) && path[0] == start && path[|path| - 1] == id
  }

  /** What the test promises of the flow. */
  ghost predicate SeedsFirst(defs: seq<Node>) {
    var g, start := GraphOf(defs), StartOf(defs);
    && start != ""
    && (forall id | Reachable(g, start, id) :: id in g)
    && (forall id | Reachable(g, start, id) && id in g && IsTask(g[id]) :: IsSeed(g[id]))
    && (exists id :: Reachable(g, start, id) && id in g && IsSeed(g[id]))
  }

  lemma ReachStart(g: Graph, start: string)
    ensures Reachable(g, start, start)
  {
    assert TaskFreePath(g, [start]) && [start][|[start]| - 1] == start;
  }

  lemma ReachStep(g: Graph, start: string, from: string, to: string)
    requires Reachable(g, start, from) && Refers(g, from, to) && Passes(g, from)
    ensures Reachable(g, start, to)
  {
    var path: seq<string> :| TaskFreePath(g, path) && path[0] == start && path[|path| - 1] == from;
    var longer := path + [to];
    assert forall i | 0 <= i < |path| :: longer[i] == path[i];
    assert TaskFreePath(g, longer) && longer[0] == start && longer[|longer| - 1] == to;
  }

  /** Every visited node is reachable, known and no task but a seed. */
  ghost predicate Sound(g: Graph, start: string, visited: set<string>) {
    visited <= g.Keys
    && forall w | w in visited :: w != "" && Reachable(g, start, w) && (IsTask(g[w]) ==> IsSeed(g[w]))
  }

  /** What a visited node refers to is visited or still pending, and only that is pending. */
  ghost predicate Frontier(g: Graph, start: string, visited: set<string>, pending: seq<string>) {
    && (start in visited || start in pending)
    && (forall w | w in pending && w != "" :: Reachable(g, start, w))
    && (forall w, x | w in visited && Passes(g, w) && Refers(g, w, x) :: x in visited || x in pending)
  }

  /** The popped reference needs no work, or it is a task, whose references are not followed. */
  lemma FrontierPops(g: Graph, start: string, visited: set<string>, pending: seq<string>, popped: seq<string>, id: string)
    requires Frontier(g, start, visited, pending) && pending == popped + [id] && start != ""
    ensures id == "" || id in visited ==> Frontier(g, start, visited, popped)
    ensures id in g && IsTask(g[id]) ==> Frontier(g, start, visited + {id}, popped)
  {
  }

  lemma FrontierExpands(g: Graph, start: string, visited: set<string>, pending: seq<string>, popped: seq<string>, id: string)
    requires Frontier(g, start, visited, pending) && pending == popped + [id]
    requires id != "" && Passes(g, id)
    ensures Frontier(g, start, visited + {id}, popped + References(g[id]))
  {
    assert id in pending && Reachable(g, start, id);
    forall w | w in References(g[id]) && w != ""
      ensures Reachable(g, start, w)
    {
      assert Refers(g, id, w);
      ReachStep(g, start, id, w);
    }
    var more := popped + References(g[id]);
    assert forall w | w in more :: w in popped || w in References(g[id]);
    assert forall w | w in pending :: w == id || w in popped;
  }

  lemma FrontierGrows(g: Graph, start: string, visited: set<string>, pending: seq<string>, popped: seq<string>, id: string)
    requires Frontier(g, start, visited, pending) && pending == popped + [id]
    requires start != "" && id != "" && id in g
    ensures Reachable(g, start, id)
    ensures IsTask(g[id]) ==> Frontier(g, start, visited + {id}, popped)
    ensures !IsTask(g[id]) ==> Frontier(g, start, visited + {id}, popped + References(g[id]))
  {
    assert id in pending;
    FrontierPops(g, start, visited, pending, popped, id);
    if !IsTask(g[id]) {
      FrontierExpands(g, start, visited, pending, popped, id);
    }
  }

  /** With nothing pending, the visited nodes are exactly the reachable ones. */
  lemma FrontierDone(g: Graph, start: string, visited: set<string>)
    requires Sound(g, start, visited) && Frontier(g, start, visited, [])
    ensures forall w :: Reachable(g, start, w) <==> w in visited
  {
    forall w | Reachable(g, start, w)
      ensures w in visited
    {
      var path: seq<string> :| TaskFreePath(g, path) && path[0] == start && path[|path| - 1] == w;
      FrontierHoldsPath(g, start, visited, path);
    }
  }

  lemma {:induction false} FrontierHoldsPath(g: Graph, start: string, visited: set<string>, path: seq<string>)
    requires Sound(g, start, visited) && Frontier(g, start, visited, [])
    requires TaskFreePath(g, path) && path[0] == start
    ensures path[|path| - 1] in visited
  {
    if |path| > 1 {
      var shorter := path[..|path| - 1];
      assert forall i | 0 <= i < |shorter| :: shorter[i] == path[i];
      FrontierHoldsPath(g, start, visited, shorter);
      assert Refers(g, path[|path| - 2], path[|path| - 1]);
    }
  }

  lemma {:induction false} ActionsOf(prompts: seq<Option<string>>, k: nat)
    requires k <= |prompts|
    ensures Actions(prompts[..k]) + Actions(prompts[k..]) == Actions(prompts)
  {
    if k == 0 {
      assert prompts[..0] == [] && prompts[0..] == prompts;
    } else {
      ActionsOf(prompts[1..], k - 1);
      assert prompts[1..][..k - 1] == prompts[..k][1..];
      assert prompts[1..][k - 1..] == prompts[k..];
    }
  }

  // ---------------------------------------------------------------- the search

  method BuildGraph(defs: seq<Node>) returns (nodes: Graph, start: string)
    ensures nodes == GraphOf(defs) && start == StartOf(defs)
    ensures LastWins(defs, nodes) && StartsLast(defs, start)
  {
    nodes, start := map[], "";
    for i := 0 to |defs|
      invariant nodes == GraphOf(defs[..i]) && start == StartOf(defs[..i])
    {
      assert defs[..i + 1][..i] == defs[..i];
      nodes := nodes[defs[i].id := defs[i]];
      if defs[i].kind == "START" {
        start := defs[i].id;
      }
    }
    assert defs[..|defs|] == defs;
    GraphExact(defs);
    StartExact(defs);
  }

  method PushReferences(pending: seq<string>, node: Node) returns (more: seq<string>)
    ensures more == pending + References(node)
    ensures forall x :: x in more <==>
              || x in pending || x == node.onSuccess || x == node.onFailure || x == node.onIncomplete || x == node.next
              || node.onSkip == Some(x) || Some(x) in node.promptActions
  {
    more := pending + [node.onSuccess, node.onFailure, node.onIncomplete, node.next];
    if node.onSkip.Some? {
      more := more + [node.onSkip.value];
    }
    ghost var before := more;
    for i := 0 to |node.promptActions|
      invariant more == before + Actions(node.promptActions[..i])
    {
      ActionsOf(node.promptActions[..i + 1], i);
      assert node.promptActions[..i + 1][..i] == node.promptActions[..i];
      assert node.promptActions[..i + 1][i..] == [node.promptActions[i]];
      if node.promptActions[i].Some? {
        more := more + [node.promptActions[i].value];
      }
    }
    assert node.promptActions[..|node.promptActions|] == node.promptActions;
    forall x
      ensures x in References(node) <==>
                || x == node.onSuccess || x == node.onFailure || x == node.onIncomplete || x == node.next
                || node.onSkip == Some(x) || Some(x) in node.promptActions
    {
      ReferencesExact(node, x);
    }
  }

  /** Lines 58-91, from a start node that exists. */
  method Explore(g: Graph, start: string) returns (v: Verdict, ghost visited: set<string>)
    requires start != ""
    ensures !v.StartMissing?
    ensures v.UnknownNode? ==> v.id !in g && Reachable(g, start, v.id)
    ensures v.TaskBeforeSeed? ==> v.id in g && Reachable(g, start, v.id) && IsTask(g[v.id]) && !IsSeed(g[v.id])
    ensures v.Accepted? || v.NeverSeeded? ==> Sound(g, start, visited) && Frontier(g, start, visited, [])
    ensures v.Accepted? ==> exists w :: w in visited && w in g && IsSeed(g[w])
    ensures v.NeverSeeded? ==> forall w | w in visited && w in g :: !IsSeed(g[w])
  {
    ReachStart(g, start);
    var seeded := false;
    ghost var seed := "";
    var seen: set<string> := {};
    visited := {};
    var pending := [start];
    while |pending| > 0
      invariant seen == visited
      invariant Sound(g, start, visited) && Frontier(g, start, visited, pending)
      invariant seeded ==> seed in visited && IsSeed(g[seed])
      invariant !seeded ==> forall w | w in visited :: !IsSeed(g[w])
      decreases g.Keys - visited, |pending|
    {
      var id := pending[|pending| - 1];
      ghost var was := pending;
      pending := pending[..|pending| - 1];
      assert was == pending + [id] && id in was;
      FrontierPops(g, start, visited, was, pending, id);
      if id == "" || id in seen {
        continue;
      }
      if id !in g {
        return UnknownNode(id), visited;
      }
      FrontierGrows(g, start, visited, was, pending, id);
      assert id in g.Keys - visited;
      seen := seen + {id};
      visited := visited + {id};
      var node := g[id];
      if IsTask(node) {
        if node.executor.Some? && node.executor.value == SEED {
          seeded := true;
          seed := id;
          continue;
        }
        return TaskBeforeSeed(id), visited;
      }
      pending := PushReferences(pending, node);
    }
    return if seeded then Accepted else NeverSeeded, visited;
  }

  /** The verdict is sound and complete, and names a reachable culprit. */
  method Search(defs: seq<Node>) returns (v: Verdict)
    ensures v == Accepted <==> SeedsFirst(defs)
    ensures v == StartMissing <==> StartOf(defs) == ""
    ensures v.UnknownNode? ==> v.id !in GraphOf(defs) && Reachable(GraphOf(defs), StartOf(defs), v.id)
    ensures v.TaskBeforeSeed? ==>
              && v.id in GraphOf(defs) && Reachable(GraphOf(defs), StartOf(defs), v.id)
              && GraphOf(defs)[v.id].kind == "TASK_EXECUTION"
              && GraphOf(defs)[v.id].executor != Some("eSignetTransactionIDExecutor")
    ensures v == NeverSeeded ==>
              forall id | Reachable(GraphOf(defs), StartOf(defs), id) :: Passes(GraphOf(defs), id)
  {
    var g, start := BuildGraph(defs);
    if start == "" {
      return StartMissing;
    }
    ghost var visited;
    v, visited := Explore(g, start);
    if v.Accepted? || v.NeverSeeded? {
      FrontierDone(g, start, visited);
    }
  }

  /** What acceptance is for: on every walk from START, whatever it passes, each task that is not
      the seed has a seed before it. */
  lemma SeedBeforeEveryTask(defs: seq<Node>, path: seq<string>, k: nat)
    requires SeedsFirst(defs) && IsPath(GraphOf(defs), path) && path[0] == StartOf(defs)
    requires k < |path| && path[k] in GraphOf(defs)
    requires GraphOf(defs)[path[k]].kind == "TASK_EXECUTION"
    requires GraphOf(defs)[path[k]].executor != Some("eSignetTransactionIDExecutor")
    ensures exists i: nat :: i < k && path[i] in GraphOf(defs)
              && GraphOf(defs)[path[i]].kind == "TASK_EXECUTION"
              && GraphOf(defs)[path[i]].executor == Some("eSignetTransactionIDExecutor")
  {
    var g, start := GraphOf(defs), StartOf(defs);
    if forall j | 0 <= j < k :: Passes(g, path[j]) {
      WalkReaches(g, start, path, k);
    } else {
      var i := FirstTask(g, path, k, 0);
      WalkReaches(g, start, path, i);
    }
  }

  lemma WalkReaches(g: Graph, start: string, path: seq<string>, i: nat)
    requires IsPath(g, path) && path[0] == start && i < |path|
    requires forall j | 0 <= j < i :: Passes(g, path[j])
    ensures Reachable(g, start, path[i])
  {
    var head := path[..i + 1];
    assert forall j | 0 <= j <= i :: head[j] == path[j];
    assert TaskFreePath(g, head) && head[0] == start && head[|head| - 1] == path[i];
  }

  lemma FirstTask(g: Graph, path: seq<string>, k: nat, from: nat) returns (i: nat)
    requires IsPath(g, path) && k < |path| && !forall j | 0 <= j < k :: Passes(g, path[j])
    requires from < k && forall j | 0 <= j < from :: Passes(g, path[j])
    ensures i < k && path[i] in g && IsTask(g[path[i]])
    ensures forall j | 0 <= j < i :: Passes(g, path[j])
    decreases k - from
  {
    assert Refers(g, path[from], path[from + 1]);
    if IsTask(g[path[from]]) {
      i := from;
    } else {
      i := FirstTask(g, path, k, from + 1);
    }
  }
}
