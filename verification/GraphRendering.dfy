/** The renderer: it groups the record by caller, then walks it once. */
module GraphRendering {
  import opened Options
  import opened Filtering
  import opened CallGraph
  import opened CallTrees

  class GraphRenderer {
    ghost const calls: seq<Call>
    var children: map<Func, seq<Call>>
    var callerOrder: seq<Func>
    var calleeSet: set<Func>
    var visited: set<Call>

    ghost predicate Valid()
      reads `children, `callerOrder, `calleeSet
    {
      Describes(calls, children, callerOrder, calleeSet)
    }

    constructor (recorded: seq<Call>)
      ensures calls == recorded && visited == {} && Valid()
    {
      calls := recorded;
      visited := {};
      var kids: map<Func, seq<Call>>, order: seq<Func>, callees: set<Func> := map[], [], {};
      for i := 0 to |recorded|
        invariant Describes(recorded[..i], kids, order, callees)
      {
        var call := recorded[i];
        DescribesOneMore(recorded[..i], call, kids, order, callees);
        assert recorded[..i + 1] == recorded[..i] + [call];
        if call.caller !in kids {
          order := order + [call.caller];
          kids := kids[call.caller := [call]];
        } else {
          kids := kids[call.caller := kids[call.caller] + [call]];
        }
        callees := callees + {call.callee};
      }
      assert recorded[..|recorded|] == recorded;
      children, callerOrder, calleeSet := kids, order, callees;
    }

    method ListRoots() returns (roots: seq<Func>)
      requires Valid()
      ensures roots == Roots(calls)
    {
      roots := [];
      for i := 0 to |callerOrder|
        invariant roots == NotCallees(calls, callerOrder[..i])
      {
        NotCalleesStep(calls, callerOrder, i);
        assert HasCallee(calls, calleeSet, callerOrder[i]);
        if callerOrder[i] !in calleeSet {
          roots := roots + [callerOrder[i]];
        }
      }
      assert callerOrder[..|callerOrder|] == callerOrder;
      if roots == [] {
        return callerOrder;
      }
    }

    method RenderChildren(caller: Func) returns (blocks: seq<Block>)
      requires Valid()
      modifies this`visited
      ensures Progress(blocks, visited) == Children(calls, caller, old(visited))
      ensures var found := Explore(calls, ChildrenOf(calls, caller), old(visited));
        visited == found.visited && Encodes(blocks, found.nodes)
      decreases CallsOf(calls) - visited
    {
      blocks := [];
      var todo := if caller in children then children[caller] else [];
      assert todo == ChildrenOf(calls, caller) by {
        assert HasChildren(calls, children, caller);
        NoCallsWithoutEntry(calls, caller);
      }
      ghost var goal := Children(calls, caller, visited);
      for i := 0 to |todo|
        invariant Valid() && old(visited) <= visited
        invariant LeadsTo(calls, todo, i, Progress(blocks, visited), goal)
      {
        var call := todo[i];
        OneSibling(calls, todo, i, Progress(blocks, visited), goal);
        if call in visited {
          continue;
        }
        OneFewer(calls, old(visited), visited, call);
        visited := visited + {call};
        var kids := RenderChildren(call.callee);
        blocks := AddBlock(blocks, call.head, call.notes, kids);
      }
      assert Progress(blocks, visited) == goal by { assert todo[|todo|..] == []; }
      ChildrenEncode(calls, caller, old(visited));
    }
  }

  lemma NotCalleesStep(calls: seq<Call>, fs: seq<Func>, i: nat)
    requires i < |fs|
    ensures NotCallees(calls, fs[..i + 1]) ==
      NotCallees(calls, fs[..i]) + if IsCallee(calls, fs[i]) then [] else [fs[i]]
  {
    FilterStep((f: Func) => !IsCallee(calls, f), fs, i);
  }

  lemma OneFewer(calls: seq<Call>, before: set<Call>, visited: set<Call>, c: Call)
    requires c in calls && c !in visited && before <= visited
    ensures CallsOf(calls) - (visited + {c}) < CallsOf(calls) - before
  {
    assert c in CallsOf(calls) - before;
  }

  /** Rendering the siblings from i on completes the goal. */
  ghost predicate LeadsTo(calls: seq<Call>, todo: seq<Call>, i: nat, at: Progress, goal: Progress) {
    i <= |todo| && (forall c :: c in todo ==> c in calls) && Siblings(calls, todo[i..], at) == goal
  }

  lemma OneSibling(calls: seq<Call>, todo: seq<Call>, i: nat, at: Progress, goal: Progress)
    requires i < |todo| && LeadsTo(calls, todo, i, at, goal)
    ensures var c := todo[i];
      if c in at.visited then LeadsTo(calls, todo, i + 1, at, goal)
      else
        var below := Children(calls, c.callee, at.visited + {c});
        LeadsTo(calls, todo, i + 1, Progress(AddBlock(at.blocks, c.head, c.notes, below.blocks), below.visited), goal)
  {
    assert todo[i..][1..] == todo[i + 1..];
  }

  lemma NoCallsWithoutEntry(calls: seq<Call>, caller: Func)
    ensures !IsCaller(calls, caller) ==> ChildrenOf(calls, caller) == []
  {
    if ChildrenOf(calls, caller) != [] { assert ChildrenOf(calls, caller)[0] in ChildrenOf(calls, caller); }
  }

  function WithCall(kids: seq<Call>, c: Call, f: Func): seq<Call> {
    if c.caller == f then kids + [c] else kids
  }

  lemma ChildrenAppend(calls: seq<Call>, c: Call, f: Func)
    ensures ChildrenOf(calls + [c], f) == WithCall(ChildrenOf(calls, f), c, f)
  {
    FilterStep((d: Call) => d.caller == f, calls + [c], |calls|);
    assert (calls + [c])[..|calls|] == calls && (calls + [c])[..|calls| + 1] == calls + [c];
  }

  ghost predicate HasChildren(calls: seq<Call>, kids: map<Func, seq<Call>>, f: Func) {
    if f in kids then IsCaller(calls, f) && kids[f] == ChildrenOf(calls, f) else !IsCaller(calls, f)
  }

  ghost predicate MapsChildren(calls: seq<Call>, kids: map<Func, seq<Call>>) {
    forall f :: HasChildren(calls, kids, f)
  }

  ghost predicate HasCallee(calls: seq<Call>, callees: set<Func>, f: Func) {
    f in callees <==> IsCallee(calls, f)
  }

  ghost predicate HoldsCallees(calls: seq<Call>, callees: set<Func>) {
    forall f :: HasCallee(calls, callees, f)
  }

  /** The renderer's maps describe the calls. */
  ghost predicate Describes(calls: seq<Call>, kids: map<Func, seq<Call>>, order: seq<Func>, callees: set<Func>) {
    order == CallerOrder(calls) && MapsChildren(calls, kids) && HoldsCallees(calls, callees)
  }

  lemma CallerOrderAppend(calls: seq<Call>, c: Call)
    ensures CallerOrder(calls + [c]) ==
      if c.caller in CallerOrder(calls) then CallerOrder(calls) else CallerOrder(calls) + [c.caller]
  {
    assert (calls + [c])[..|calls|] == calls;
  }

  lemma ChildrenOneMore(calls: seq<Call>, c: Call, kids: map<Func, seq<Call>>)
    requires MapsChildren(calls, kids)
    ensures MapsChildren(calls + [c], kids[c.caller := if c.caller in kids then kids[c.caller] + [c] else [c]])
  {
    var kids' := kids[c.caller := if c.caller in kids then kids[c.caller] + [c] else [c]];
    NoCallsWithoutEntry(calls, c.caller);
    forall f ensures HasChildren(calls + [c], kids', f) {
      assert HasChildren(calls, kids, f);
      ChildrenAppend(calls, c, f);
      assert IsCaller(calls + [c], f) <==> IsCaller(calls, f) || f == c.caller by {
        assert c in calls + [c];
      }
    }
  }

  lemma CalleesOneMore(calls: seq<Call>, c: Call, callees: set<Func>)
    requires HoldsCallees(calls, callees)
    ensures HoldsCallees(calls + [c], callees + {c.callee})
  {
    forall f ensures HasCallee(calls + [c], callees + {c.callee}, f) {
      assert HasCallee(calls, callees, f);
      assert c in calls + [c];
      assert IsCallee(calls + [c], f) <==> IsCallee(calls, f) || f == c.callee;
    }
  }

  lemma DescribesOneMore(calls: seq<Call>, c: Call, kids: map<Func, seq<Call>>, order: seq<Func>, callees: set<Func>)
    requires Describes(calls, kids, order, callees)
    ensures Describes(calls + [c], kids[c.caller := if c.caller in kids then kids[c.caller] + [c] else [c]],
                      if c.caller in kids then order else order + [c.caller], callees + {c.callee})
  {
    CallerOrderAppend(calls, c);
    CallerOrderLists(calls, c.caller);
    assert MapsChildren(calls, kids) && HasChildren(calls, kids, c.caller);
    ChildrenOneMore(calls, c, kids);
    CalleesOneMore(calls, c, callees);
  }

  /** `DrawGraph`: nothing but a message when there are no calls. */
  method DrawGraph(calls: seq<Call>) returns (forest: Option<Forest>)
    ensures forest == if calls == [] then None else Some(Draw(calls))
    ensures forest.Some? ==> Depicts(forest.value.trees, Roots(calls), ExploreRoots(calls, Roots(calls), {}))
  {
    if |calls| == 0 {
      return None;
    }
    var g := new GraphRenderer(calls);
    var roots := g.ListRoots();
    var trees: seq<Tree> := [];
    for i := 0 to |roots|
      invariant g.Valid() && g.calls == calls
      invariant Drawn(calls, roots, i, trees, g.visited)
    {
      DrawnOneMore(calls, roots, i, trees, g.visited);
      var blocks := g.RenderChildren(roots[i]);
      trees := trees + [Tree(roots[i], blocks)];
    }
    assert roots[|roots|..] == [] && trees + [] == trees;
    forest := Some(Forest(trees, g.visited));
    assert Depicts(trees, Roots(calls), ExploreRoots(calls, Roots(calls), {})) by { DrawDepicts(calls); }
  }

  /** The first i roots are drawn and the rest would complete the graph. */
  ghost predicate Drawn(calls: seq<Call>, roots: seq<Func>, i: nat, trees: seq<Tree>, visited: set<Call>)
    requires i <= |roots|
  {
    var rest := RenderRoots(calls, roots[i..], visited);
    Forest(trees + rest.trees, rest.visited) == Draw(calls)
  }

  lemma DrawnOneMore(calls: seq<Call>, roots: seq<Func>, i: nat, trees: seq<Tree>, visited: set<Call>)
    requires i < |roots| && Drawn(calls, roots, i, trees, visited)
    ensures var next := Children(calls, roots[i], visited);
      Drawn(calls, roots, i + 1, trees + [Tree(roots[i], next.blocks)], next.visited)
  {
    var next := Children(calls, roots[i], visited);
    assert roots[i..][1..] == roots[i + 1..];
    var rest := RenderRoots(calls, roots[i + 1..], next.visited);
    var tree := Tree(roots[i], next.blocks);
    assert trees + ([tree] + rest.trees) == (trees + [tree]) + rest.trees;
  }
}
