/** The call-graph renderer of internal/core/graph.go. A call's rendered head and
    notes are values it carries. */
module CallGraph {
  import opened Filtering

  /** A function in the graph. The source joins the two names with a dot, and a
      method name never contains one. */
  datatype Func = Func(component: string, name: string)

  /** A recorded call; `id` is its identity. */
  datatype Call = Call(id: nat, caller: Func, callee: Func, head: string, notes: seq<string>)

  /** A rendered node: `sub` is its notes followed by its children. */
  datatype Block = Block(head: string, notes: seq<string>, kids: seq<Block>, count: nat)

  // ---------- the graph ----------

  function CallsOf(calls: seq<Call>): set<Call> {
    set c | c in calls
  }

  function ChildrenOf(calls: seq<Call>, caller: Func): (r: seq<Call>)
    ensures forall c :: c in r <==> c in calls && c.caller == caller
  {
    var r := Filter((c: Call) => c.caller == caller, calls);
    assert forall c :: c in r <==> c in calls && c.caller == caller by {
      forall c ensures c in r <==> c in calls && c.caller == caller {
        FilterElements((d: Call) => d.caller == caller, calls, c);
      }
    }
    r
  }

  /** Callers in order of first appearance. */
  function CallerOrder(calls: seq<Call>): seq<Func> {
    if calls == [] then []
    else
      var n := |calls| - 1;
      var front := CallerOrder(calls[..n]);
      if calls[n].caller in front then front else front + [calls[n].caller]
  }

  predicate IsCaller(calls: seq<Call>, f: Func) {
    exists c :: c in calls && c.caller == f
  }

  lemma {:induction false} CallerOrderLists(calls: seq<Call>, f: Func)
    ensures f in CallerOrder(calls) <==> IsCaller(calls, f)
  {
    if calls == [] {
    } else {
      var n := |calls| - 1;
      assert calls == calls[..n] + [calls[n]];
      CallerOrderLists(calls[..n], f);
      CallerOrderLists(calls[..n], calls[n].caller);
    }
  }

  predicate IsCallee(calls: seq<Call>, f: Func) {
    exists c :: c in calls && c.callee == f
  }

  function NotCallees(calls: seq<Call>, fs: seq<Func>): seq<Func> {
    Filter((f: Func) => !IsCallee(calls, f), fs)
  }

  lemma NotCalleesKeeps(calls: seq<Call>, fs: seq<Func>, f: Func)
    ensures f in NotCallees(calls, fs) <==> f in fs && !IsCallee(calls, f)
  {
    FilterElements((g: Func) => !IsCallee(calls, g), fs, f);
  }

  /** Callers nobody calls; all callers when there is none such. */
  function Roots(calls: seq<Call>): seq<Func> {
    var roots := NotCallees(calls, CallerOrder(calls));
    if roots == [] then CallerOrder(calls) else roots
  }

  // ---------- the walk ----------

  function AddBlock(blocks: seq<Block>, head: string, notes: seq<string>, kids: seq<Block>): seq<Block> {
    var n := |blocks|;
    if n > 0 && blocks[n - 1].head == head && blocks[n - 1].notes == notes && blocks[n - 1].kids == kids
    then blocks[n - 1 := blocks[n - 1].(count := blocks[n - 1].count + 1)]
    else blocks + [Block(head, notes, kids, 1)]
  }

  datatype Progress = Progress(blocks: seq<Block>, visited: set<Call>)

  /** The loop over siblings, with the blocks built so far. */
  function Siblings(calls: seq<Call>, todo: seq<Call>, at: Progress): (r: Progress)
    requires forall c :: c in todo ==> c in calls
    ensures at.visited <= r.visited
    decreases CallsOf(calls) - at.visited, |todo|
  {
    if todo == [] then at
    else if todo[0] in at.visited then Siblings(calls, todo[1..], at)
    else
      var c := todo[0];
      assert c in CallsOf(calls) - at.visited;
      var below := Siblings(calls, ChildrenOf(calls, c.callee), Progress([], at.visited + {c}));
      assert CallsOf(calls) - below.visited < CallsOf(calls) - at.visited;
      Siblings(calls, todo[1..], Progress(AddBlock(at.blocks, c.head, c.notes, below.blocks), below.visited))
  }

  function Children(calls: seq<Call>, caller: Func, visited: set<Call>): Progress {
    Siblings(calls, ChildrenOf(calls, caller), Progress([], visited))
  }

  /** A root and the tree rendered below it. */
  datatype Tree = Tree(root: Func, blocks: seq<Block>)

  datatype Forest = Forest(trees: seq<Tree>, visited: set<Call>)

  function RenderRoots(calls: seq<Call>, roots: seq<Func>, visited: set<Call>): Forest {
    if roots == [] then Forest([], visited)
    else
      var first := Children(calls, roots[0], visited);
      var rest := RenderRoots(calls, roots[1..], first.visited);
      Forest([Tree(roots[0], first.blocks)] + rest.trees, rest.visited)
  }

  function Draw(calls: seq<Call>): Forest {
    RenderRoots(calls, Roots(calls), {})
  }

  // ---------- reachability ----------

  /** path leads from one function to another, call by call. */
  ghost predicate Chain(calls: seq<Call>, from: Func, path: seq<Call>, to: Func)
    decreases |path|
  {
    if path == [] then from == to
    else path[0] in calls && path[0].caller == from && Chain(calls, path[0].callee, path[1..], to)
  }

  ghost predicate Reaches(calls: seq<Call>, from: Func, to: Func) {
    exists path :: Chain(calls, from, path, to)
  }

  ghost predicate FromRoots(calls: seq<Call>, roots: seq<Func>, f: Func) {
    exists r :: r in roots && Reaches(calls, r, f)
  }

  lemma {:induction false} ChainExtends(calls: seq<Call>, from: Func, path: seq<Call>, c: Call)
    requires c in calls && Chain(calls, from, path, c.caller)
    ensures Chain(calls, from, path + [c], c.callee)
    decreases |path|
  {
    if path == [] {
    } else {
      ChainExtends(calls, path[0].callee, path[1..], c);
      assert (path + [c])[1..] == path[1..] + [c];
    }
  }

  lemma ReachesExtends(calls: seq<Call>, from: Func, c: Call)
    requires c in calls && Reaches(calls, from, c.caller)
    ensures Reaches(calls, from, c.callee)
  {
    var path :| Chain(calls, from, path, c.caller);
    ChainExtends(calls, from, path, c);
  }

  // ---------- what the walk visits ----------

  /** Every visited call in S brought its callee's calls along. */
  ghost predicate ClosedBelow(calls: seq<Call>, news: set<Call>, visited: set<Call>) {
    forall c, d :: c in news && d in calls && d.caller == c.callee ==> d in visited
  }

  /** After the loop all siblings are visited, and so is everything below the
      newly visited calls, calls already in progress included. */
  lemma {:induction false} SiblingsClosed(calls: seq<Call>, todo: seq<Call>, at: Progress)
    requires forall c :: c in todo ==> c in calls
    ensures var r := Siblings(calls, todo, at);
      (forall c :: c in todo ==> c in r.visited) && ClosedBelow(calls, r.visited - at.visited, r.visited)
    decreases CallsOf(calls) - at.visited, |todo|
  {
    if todo == [] {
    } else if todo[0] in at.visited {
      SiblingsClosed(calls, todo[1..], at);
    } else {
      var c := todo[0];
      assert c in CallsOf(calls) - at.visited;
      var inner := Progress([], at.visited + {c});
      SiblingsClosed(calls, ChildrenOf(calls, c.callee), inner);
      var below := Siblings(calls, ChildrenOf(calls, c.callee), inner);
      assert CallsOf(calls) - below.visited < CallsOf(calls) - at.visited;
      SiblingsClosed(calls, todo[1..], Progress(AddBlock(at.blocks, c.head, c.notes, below.blocks), below.visited));
    }
  }

  /** Only calls whose caller is reachable from the siblings' callers are visited. */
  lemma {:induction false} SiblingsReachable(calls: seq<Call>, todo: seq<Call>, at: Progress, from: Func)
    requires forall c :: c in todo ==> c in calls && Reaches(calls, from, c.caller)
    ensures forall c :: c in Siblings(calls, todo, at).visited - at.visited ==>
      c in calls && Reaches(calls, from, c.caller)
    decreases CallsOf(calls) - at.visited, |todo|
  {
    if todo == [] {
    } else if todo[0] in at.visited {
      SiblingsReachable(calls, todo[1..], at, from);
    } else {
      var c := todo[0];
      assert c in CallsOf(calls) - at.visited;
      var inner := Progress([], at.visited + {c});
      ReachesExtends(calls, from, c);
      SiblingsReachable(calls, ChildrenOf(calls, c.callee), inner, from);
      var below := Siblings(calls, ChildrenOf(calls, c.callee), inner);
      assert CallsOf(calls) - below.visited < CallsOf(calls) - at.visited;
      var next := Progress(AddBlock(at.blocks, c.head, c.notes, below.blocks), below.visited);
      SiblingsReachable(calls, todo[1..], next, from);
    }
  }

  lemma {:induction false} RootsVisit(calls: seq<Call>, roots: seq<Func>, visited: set<Call>)
    requires ClosedBelow(calls, visited, visited)
    ensures var f := RenderRoots(calls, roots, visited);
      && visited <= f.visited && ClosedBelow(calls, f.visited, f.visited)
      && (forall c :: c in calls && c.caller in roots ==> c in f.visited)
      && (forall c :: c in f.visited - visited ==> c in calls && FromRoots(calls, roots, c.caller))
  {
    if roots == [] {
    } else {
      var r := roots[0];
      var first := Children(calls, r, visited);
      assert Chain(calls, r, [], r);
      SiblingsClosed(calls, ChildrenOf(calls, r), Progress([], visited));
      SiblingsReachable(calls, ChildrenOf(calls, r), Progress([], visited), r);
      RootsVisit(calls, roots[1..], first.visited);
      forall c | c in RenderRoots(calls, roots, visited).visited - visited
        ensures c in calls && FromRoots(calls, roots, c.caller)
      {
        if c !in first.visited {
          var q :| q in roots[1..] && Reaches(calls, q, c.caller);
          assert q in roots;
        }
      }
    }
  }

  lemma {:induction false} ChainVisited(calls: seq<Call>, from: Func, path: seq<Call>, c: Call, visited: set<Call>)
    requires ClosedBelow(calls, visited, visited)
    requires forall d :: d in calls && d.caller == from ==> d in visited
    requires Chain(calls, from, path, c.caller) && c in calls
    ensures c in visited
    decreases |path|
  {
    if path == [] {
    } else {
      ChainVisited(calls, path[0].callee, path[1..], c, visited);
    }
  }

  /** The graph shows exactly the calls whose caller is reachable from a root. */
  lemma DrawVisitsExactly(calls: seq<Call>, c: Call)
    ensures c in Draw(calls).visited <==> c in calls && FromRoots(calls, Roots(calls), c.caller)
  {
    RootsVisit(calls, Roots(calls), {});
    if c in calls && FromRoots(calls, Roots(calls), c.caller) {
      var r :| r in Roots(calls) && Reaches(calls, r, c.caller);
      var path :| Chain(calls, r, path, c.caller);
      ChainVisited(calls, r, path, c, Draw(calls).visited);
    }
  }

  ghost predicate Acyclic(calls: seq<Call>, rank: Func -> nat) {
    forall c :: c in calls ==> rank(c.caller) < rank(c.callee)
  }

  lemma {:induction false} AcyclicFromRoots(calls: seq<Call>, rank: Func -> nat, f: Func)
    requires Acyclic(calls, rank) && IsCaller(calls, f)
    ensures FromRoots(calls, NotCallees(calls, CallerOrder(calls)), f)
    decreases rank(f)
  {
    CallerOrderLists(calls, f);
    NotCalleesKeeps(calls, CallerOrder(calls), f);
    if IsCallee(calls, f) {
      var c :| c in calls && c.callee == f;
      AcyclicFromRoots(calls, rank, c.caller);
      var r :| r in NotCallees(calls, CallerOrder(calls)) && Reaches(calls, r, c.caller);
      ReachesExtends(calls, r, c);
    } else {
      assert Chain(calls, f, [], f);
    }
  }

  /** Nothing is missing when the caller graph is acyclic, or when every caller is called. */
  lemma DrawShowsAll(calls: seq<Call>, rank: Func -> nat)
    requires Acyclic(calls, rank) || NotCallees(calls, CallerOrder(calls)) == []
    ensures Draw(calls).visited == CallsOf(calls)
  {
    forall c ensures c in Draw(calls).visited <==> c in CallsOf(calls) {
      DrawVisitsExactly(calls, c);
      if c in calls {
        CallerOrderLists(calls, c.caller);
        if Acyclic(calls, rank) {
          AcyclicFromRoots(calls, rank, c.caller);
          var r :| r in NotCallees(calls, CallerOrder(calls)) && Reaches(calls, r, c.caller);
          assert r in Roots(calls);
        } else {
          assert Chain(calls, c.caller, [], c.caller);
        }
      }
    }
  }

  /** A cycle no root leads to is left out as soon as there is a root elsewhere. */
  lemma DetachedCycleIsMissing(main: Call, ping: Call, pong: Call)
    requires main.caller == Func("p.Suite", "TestRun") && main.callee == Func("p.App", "Run")
    requires ping.caller == pong.callee == Func("p.A", "Ping") && pong.caller == ping.callee == Func("p.B", "Pong")
    ensures ping !in Draw([main, ping, pong]).visited
  {
    var calls := [main, ping, pong];
    DrawVisitsExactly(calls, ping);
    assert main in calls && ping in calls && pong in calls;
    forall r | r in Roots(calls) ensures r == main.caller {
      assert IsCallee(calls, ping.caller) && IsCallee(calls, pong.caller);
      CallerOrderLists(calls, main.caller);
      NotCalleesKeeps(calls, CallerOrder(calls), main.caller);
      CallerOrderLists(calls, r);
      NotCalleesKeeps(calls, CallerOrder(calls), r);
    }
    forall path: seq<Call> ensures !Chain(calls, main.caller, path, ping.caller) {
      if path != [] && path[0] in calls && path[0].caller == main.caller {
        assert path[0] == main;
        if |path| > 1 { assert path[1..][0] in calls ==> path[1..][0].caller != main.callee; }
      }
    }
  }

  // ---------- conservation ----------

  function Total(blocks: seq<Block>): nat {
    if blocks == [] then 0 else blocks[0].count + Total(blocks[0].kids) + Total(blocks[1..])
  }

  lemma {:induction false} TotalAppend(blocks: seq<Block>, b: Block)
    ensures Total(blocks + [b]) == Total(blocks) + b.count + Total(b.kids)
  {
    if blocks == [] {
      assert [] + [b] == [b];
    } else {
      TotalAppend(blocks[1..], b);
      assert (blocks + [b])[1..] == blocks[1..] + [b];
    }
  }

  lemma AddBlockTotal(blocks: seq<Block>, head: string, notes: seq<string>, kids: seq<Block>)
    ensures Total(AddBlock(blocks, head, notes, kids)) ==
      Total(blocks) + 1 + if |AddBlock(blocks, head, notes, kids)| > |blocks| then Total(kids) else 0
  {
    var r := AddBlock(blocks, head, notes, kids);
    if |r| > |blocks| {
      TotalAppend(blocks, Block(head, notes, kids, 1));
    } else {
      var n := |blocks| - 1;
      assert blocks == blocks[..n] + [blocks[n]] && r == blocks[..n] + [r[n]];
      TotalAppend(blocks[..n], blocks[n]);
      TotalAppend(blocks[..n], r[n]);
    }
  }

  /** Equal heads mean the same callee. */
  ghost predicate HeadsNameCallees(calls: seq<Call>) {
    forall c, d :: c in calls && d in calls && c.head == d.head ==> c.callee == d.callee
  }

  /** The last block's callee is exhausted: everything it calls has been visited. */
  ghost predicate LastExhausted(calls: seq<Call>, at: Progress) {
    at.blocks != [] ==>
      exists c :: c in calls && c.head == at.blocks[|at.blocks| - 1].head &&
        forall d :: d in calls && d.caller == c.callee ==> d in at.visited
  }

  /** Rendering a callee a second time yields no child blocks. */
  lemma {:induction false} ExhaustedHasNoBlocks(calls: seq<Call>, todo: seq<Call>, at: Progress)
    requires forall c :: c in todo ==> c in calls && c in at.visited
    ensures Siblings(calls, todo, at) == at
    decreases |todo|
  {
    if todo == [] {
    } else {
      ExhaustedHasNoBlocks(calls, todo[1..], at);
    }
  }

  /** Each newly visited call adds one to the counts. */
  lemma {:induction false} SiblingsConserve(calls: seq<Call>, todo: seq<Call>, at: Progress)
    requires HeadsNameCallees(calls) && LastExhausted(calls, at)
    requires forall c :: c in todo ==> c in calls
    ensures var r := Siblings(calls, todo, at);
      LastExhausted(calls, r) && Total(r.blocks) + |at.visited| == Total(at.blocks) + |r.visited|
    decreases CallsOf(calls) - at.visited, |todo|
  {
    if todo == [] {
    } else if todo[0] in at.visited {
      SiblingsConserve(calls, todo[1..], at);
    } else {
      var c := todo[0];
      assert c in CallsOf(calls) - at.visited;
      var inner := Progress([], at.visited + {c});
      var kids := ChildrenOf(calls, c.callee);
      SiblingsConserve(calls, kids, inner);
      SiblingsClosed(calls, kids, inner);
      var below := Siblings(calls, kids, inner);
      assert CallsOf(calls) - below.visited < CallsOf(calls) - at.visited;
      var blocks := AddBlock(at.blocks, c.head, c.notes, below.blocks);
      AddBlockTotal(at.blocks, c.head, c.notes, below.blocks);
      if |blocks| == |at.blocks| {
        ExhaustedHasNoBlocks(calls, kids, inner);
      }
      assert LastExhausted(calls, Progress(blocks, below.visited));
      SiblingsConserve(calls, todo[1..], Progress(blocks, below.visited));
    }
  }

  function TreesTotal(trees: seq<Tree>): nat {
    if trees == [] then 0 else Total(trees[0].blocks) + TreesTotal(trees[1..])
  }

  lemma {:induction false} RootsConserve(calls: seq<Call>, roots: seq<Func>, visited: set<Call>)
    requires HeadsNameCallees(calls)
    ensures var f := RenderRoots(calls, roots, visited); TreesTotal(f.trees) + |visited| == |f.visited|
  {
    if roots == [] {
    } else {
      SiblingsConserve(calls, ChildrenOf(calls, roots[0]), Progress([], visited));
      RootsConserve(calls, roots[1..], Children(calls, roots[0], visited).visited);
    }
  }

  /** The counts shown over the whole graph add up to the number of calls it shows. */
  lemma DrawConserves(calls: seq<Call>)
    requires HeadsNameCallees(calls)
    ensures TreesTotal(Draw(calls).trees) == |Draw(calls).visited|
  {
    RootsConserve(calls, Roots(calls), {});
  }
}
