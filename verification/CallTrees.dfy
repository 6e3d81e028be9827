/** The tree of calls a drawing stands for: every call of its own, in the order in
    which a depth-first walk first meets it. */
module CallTrees {
  import opened Filtering
  import opened CallGraph

  // ---------- the order of children and roots ----------

  /** A caller's children are its calls in the order of the record. */
  lemma ChildrenListed(calls: seq<Call>, f: Func) returns (at: seq<nat>)
    ensures KeptInOrder((c: Call) => c.caller == f, calls, ChildrenOf(calls, f), at)
  {
    at := FilterKeepsOrder((c: Call) => c.caller == f, calls);
  }

  /** No earlier call has the caller of the i-th. */
  ghost predicate FirstOfCaller(calls: seq<Call>, i: nat)
    requires i < |calls|
  {
    forall m :: 0 <= m < i ==> calls[m].caller != calls[i].caller
  }

  /** fs names the callers of the calls at the positions `at`, in order; these are the
      first calls of their callers. */
  ghost predicate FirstAppearances(calls: seq<Call>, fs: seq<Func>, at: seq<nat>) {
    && |at| == |fs|
    && (forall i, j :: 0 <= i < j < |at| ==> at[i] < at[j])
    && (forall k :: 0 <= k < |at| ==> at[k] < |calls| && fs[k] == calls[at[k]].caller)
    && (forall i: nat :: i < |calls| ==> (i in at <==> FirstOfCaller(calls, i)))
  }

  lemma {:induction false} CallersListed(calls: seq<Call>) returns (at: seq<nat>)
    ensures FirstAppearances(calls, CallerOrder(calls), at)
  {
    if calls == [] {
      at := [];
    } else {
      var n := |calls| - 1;
      var before := CallersListed(calls[..n]);
      CallerOrderLists(calls[..n], calls[n].caller);
      at := before + if calls[n].caller in CallerOrder(calls[..n]) then [] else [n];
      OneMoreCaller(calls, CallerOrder(calls[..n]), before, n);
    }
  }

  lemma OneMoreCaller(calls: seq<Call>, fs: seq<Func>, at: seq<nat>, n: nat)
    requires |calls| == n + 1 && FirstAppearances(calls[..n], fs, at)
    requires calls[n].caller in fs <==> IsCaller(calls[..n], calls[n].caller)
    ensures if calls[n].caller in fs then FirstAppearances(calls, fs, at)
            else FirstAppearances(calls, fs + [calls[n].caller], at + [n])
  {
    var front := calls[..n];
    forall i: nat | i < n ensures FirstOfCaller(calls, i) <==> FirstOfCaller(front, i) {
      FirstInFront(calls, n, i);
    }
    assert IsCaller(front, calls[n].caller) <==> !FirstOfCaller(calls, n);
    forall k | 0 <= k < |at| ensures at[k] < n && front[at[k]] == calls[at[k]] {}
    assert n !in at;
    forall i: nat ensures i in at + [n] <==> i in at || i == n {}
  }

  lemma FirstInFront(calls: seq<Call>, n: nat, i: nat)
    requires i < n <= |calls|
    ensures FirstOfCaller(calls, i) <==> FirstOfCaller(calls[..n], i)
  {
    forall m | 0 <= m <= i ensures calls[..n][m] == calls[m] {}
  }

  ghost predicate Uncalled(calls: seq<Call>, f: Func) {
    forall c :: c in calls ==> c.callee != f
  }

  /** The roots are the callers nobody calls, in order of first appearance; all
      callers when there is none such. */
  lemma RootsListed(calls: seq<Call>) returns (callers: seq<Func>, at: seq<nat>, kept: seq<nat>)
    ensures FirstAppearances(calls, callers, at)
    ensures if forall f :: f in callers ==> !Uncalled(calls, f) then Roots(calls) == callers
            else KeptInOrder((f: Func) => Uncalled(calls, f), callers, Roots(calls), kept)
  {
    callers := CallerOrder(calls);
    at := CallersListed(calls);
    forall f ensures IsCallee(calls, f) <==> !Uncalled(calls, f) {}
    FilterSame((f: Func) => !IsCallee(calls, f), (f: Func) => Uncalled(calls, f), callers);
    kept := FilterKeepsOrder((f: Func) => Uncalled(calls, f), callers);
    forall f ensures f in NotCallees(calls, callers) <==> f in callers && Uncalled(calls, f) {
      NotCalleesKeeps(calls, callers, f);
    }
    if NotCallees(calls, callers) != [] { assert NotCallees(calls, callers)[0] in NotCallees(calls, callers); }
  }

  // ---------- the tree of calls ----------

  datatype Node = Node(call: Call, kids: seq<Node>)

  datatype Explored = Explored(nodes: seq<Node>, visited: set<Call>)

  /** The calls of todo not visited yet, each with what is found below it. */
  ghost function Explore(calls: seq<Call>, todo: seq<Call>, visited: set<Call>): (r: Explored)
    requires forall c :: c in todo ==> c in calls
    ensures visited <= r.visited
    decreases CallsOf(calls) - visited, |todo|
  {
    if todo == [] then Explored([], visited)
    else if todo[0] in visited then Explore(calls, todo[1..], visited)
    else
      var c := todo[0];
      assert c in CallsOf(calls) - visited;
      var below := Explore(calls, ChildrenOf(calls, c.callee), visited + {c});
      assert CallsOf(calls) - below.visited < CallsOf(calls) - visited;
      var rest := Explore(calls, todo[1..], below.visited);
      Explored([Node(c, below.nodes)] + rest.nodes, rest.visited)
  }

  /** What is found below each of the roots. */
  ghost function ExploreRoots(calls: seq<Call>, roots: seq<Func>, visited: set<Call>): (r: seq<seq<Node>>)
    ensures |r| == |roots|
  {
    if roots == [] then []
    else
      var first := Explore(calls, ChildrenOf(calls, roots[0]), visited);
      [first.nodes] + ExploreRoots(calls, roots[1..], first.visited)
  }

  ghost function CallsIn(nodes: seq<Node>): set<Call> {
    if nodes == [] then {} else {nodes[0].call} + CallsIn(nodes[0].kids) + CallsIn(nodes[1..])
  }

  ghost function NodeCount(nodes: seq<Node>): nat {
    if nodes == [] then 0 else 1 + NodeCount(nodes[0].kids) + NodeCount(nodes[1..])
  }

  /** Each node is a call of f, and each node below it a call of its callee. */
  ghost predicate CalledBy(nodes: seq<Node>, f: Func) {
    forall i :: 0 <= i < |nodes| ==> nodes[i].call.caller == f && CalledBy(nodes[i].kids, nodes[i].call.callee)
  }

  lemma OneHereLater(visited: set<Call>, c: Call, below: set<Call>, end: set<Call>)
    requires c !in visited && visited + {c} <= below <= end
    ensures end - visited == {c} + (below - (visited + {c})) + (end - below)
    ensures |end - visited| == 1 + |below - (visited + {c})| + |end - below|
  {
    assert end - visited == {c} + (below - (visited + {c})) + (end - below);
  }

  lemma FirstNode(c: Call, kids: seq<Node>, rest: seq<Node>)
    ensures CallsIn([Node(c, kids)] + rest) == {c} + CallsIn(kids) + CallsIn(rest)
    ensures NodeCount([Node(c, kids)] + rest) == 1 + NodeCount(kids) + NodeCount(rest)
  {
    assert ([Node(c, kids)] + rest)[1..] == rest;
  }

  /** Every call newly visited is one node, wherever it is; nothing else is. */
  lemma {:induction false} ExploreOnce(calls: seq<Call>, todo: seq<Call>, visited: set<Call>)
    requires forall c :: c in todo ==> c in calls
    ensures var e := Explore(calls, todo, visited);
      CallsIn(e.nodes) == e.visited - visited && NodeCount(e.nodes) == |e.visited - visited|
    decreases CallsOf(calls) - visited, |todo|
  {
    if todo == [] {
    } else if todo[0] in visited {
      ExploreOnce(calls, todo[1..], visited);
    } else {
      var c := todo[0];
      assert c in CallsOf(calls) - visited;
      var kids := ChildrenOf(calls, c.callee);
      ExploreOnce(calls, kids, visited + {c});
      var below := Explore(calls, kids, visited + {c});
      assert CallsOf(calls) - below.visited < CallsOf(calls) - visited;
      ExploreOnce(calls, todo[1..], below.visited);
      var rest := Explore(calls, todo[1..], below.visited);
      OneHereLater(visited, c, below.visited, rest.visited);
      FirstNode(c, below.nodes, rest.nodes);
    }
  }

  /** What stands below a node are calls of its callee. */
  lemma {:induction false} ExploreFollows(calls: seq<Call>, todo: seq<Call>, visited: set<Call>, f: Func)
    requires forall c :: c in todo ==> c in calls && c.caller == f
    ensures CalledBy(Explore(calls, todo, visited).nodes, f)
    decreases CallsOf(calls) - visited, |todo|
  {
    if todo == [] {
    } else if todo[0] in visited {
      ExploreFollows(calls, todo[1..], visited, f);
    } else {
      var c := todo[0];
      assert c in CallsOf(calls) - visited;
      var kids := ChildrenOf(calls, c.callee);
      ExploreFollows(calls, kids, visited + {c}, c.callee);
      var below := Explore(calls, kids, visited + {c});
      assert CallsOf(calls) - below.visited < CallsOf(calls) - visited;
      ExploreFollows(calls, todo[1..], below.visited, f);
    }
  }

  // ---------- blocks stand for runs of equal siblings ----------

  /** What a block looks like but for its count. */
  datatype Look = Look(head: string, notes: seq<string>, kids: seq<Block>)

  function Repeat(look: Look, n: nat): seq<Look> {
    seq(n, _ => look)
  }

  /** Every block as often as its count says. */
  ghost function Expand(blocks: seq<Block>): seq<Look> {
    if blocks == [] then []
    else
      var last := blocks[|blocks| - 1];
      Expand(blocks[..|blocks| - 1]) + Repeat(Look(last.head, last.notes, last.kids), last.count)
  }

  /** Every block counts something, and no two neighbours are alike. */
  ghost predicate Collapsed(blocks: seq<Block>) {
    && (forall k :: 0 <= k < |blocks| ==> blocks[k].count > 0)
    && forall j, k :: 0 <= j && k == j + 1 && k < |blocks| ==>
         !(blocks[j].head == blocks[k].head && blocks[j].notes == blocks[k].notes && blocks[j].kids == blocks[k].kids)
  }

  /** The blocks are the nodes with equal neighbours collapsed: repeated as often as
      counted they are the nodes, in order, each with its head, its notes and what
      is below it. */
  ghost predicate Encodes(blocks: seq<Block>, nodes: seq<Node>)
    decreases nodes, 1
  {
    Collapsed(blocks) && |Expand(blocks)| == |nodes| &&
    forall i :: 0 <= i < |nodes| ==> Shows(Expand(blocks)[i], nodes[i])
  }

  ghost predicate Shows(look: Look, node: Node)
    decreases node, 0
  {
    look.head == node.call.head && look.notes == node.call.notes && Encodes(look.kids, node.kids)
  }

  /** The trees are drawn of the roots, in order, and stand for what is found below each. */
  ghost predicate Depicts(trees: seq<Tree>, roots: seq<Func>, nodes: seq<seq<Node>>) {
    |trees| == |roots| == |nodes| &&
    forall i :: 0 <= i < |trees| ==> trees[i].root == roots[i] && Encodes(trees[i].blocks, nodes[i])
  }

  lemma AddBlockExpands(blocks: seq<Block>, head: string, notes: seq<string>, kids: seq<Block>)
    ensures Expand(AddBlock(blocks, head, notes, kids)) == Expand(blocks) + [Look(head, notes, kids)]
  {
    var r, n := AddBlock(blocks, head, notes, kids), |blocks|;
    if |r| == n {
      assert r[..n - 1] == blocks[..n - 1];
    } else {
      assert r[..n] == blocks;
    }
  }

  lemma AddBlockCollapses(blocks: seq<Block>, head: string, notes: seq<string>, kids: seq<Block>)
    requires Collapsed(blocks)
    ensures Collapsed(AddBlock(blocks, head, notes, kids))
  {
  }

  lemma {:induction false} AddBlockEncodes(blocks: seq<Block>, nodes: seq<Node>, kids: seq<Block>, node: Node)
    requires Encodes(blocks, nodes) && Encodes(kids, node.kids)
    ensures Encodes(AddBlock(blocks, node.call.head, node.call.notes, kids), nodes + [node])
  {
    var head, notes := node.call.head, node.call.notes;
    AddBlockCollapses(blocks, head, notes, kids);
    AddBlockExpands(blocks, head, notes, kids);
    assert Shows(Look(head, notes, kids), node);
    OneMoreShown(AddBlock(blocks, head, notes, kids), Expand(blocks), nodes, Look(head, notes, kids), node);
  }

  lemma {:induction false} OneMoreShown(blocks: seq<Block>, looks: seq<Look>, nodes: seq<Node>, look: Look, node: Node)
    requires Collapsed(blocks) && Expand(blocks) == looks + [look] && |looks| == |nodes|
    requires Shows(look, node) && forall i :: 0 <= i < |nodes| ==> Shows(looks[i], nodes[i])
    ensures Encodes(blocks, nodes + [node])
  {
    forall i | 0 <= i < |nodes + [node]| ensures Shows(Expand(blocks)[i], (nodes + [node])[i]) {
      if i < |nodes| { assert Expand(blocks)[i] == looks[i]; }
    }
  }

  lemma NodeInFront(nodes: seq<Node>, node: Node, rest: seq<Node>)
    ensures nodes + [node] + rest == nodes + ([node] + rest)
  {
  }

  lemma {:induction false} SiblingsEncode(calls: seq<Call>, todo: seq<Call>, at: Progress, nodes: seq<Node>)
    requires forall c :: c in todo ==> c in calls
    requires Encodes(at.blocks, nodes)
    ensures var r, e := Siblings(calls, todo, at), Explore(calls, todo, at.visited);
      r.visited == e.visited && Encodes(r.blocks, nodes + e.nodes)
    decreases CallsOf(calls) - at.visited, |todo|
  {
    if todo == [] {
      assert nodes + [] == nodes;
    } else if todo[0] in at.visited {
      SiblingsEncode(calls, todo[1..], at, nodes);
    } else {
      var c := todo[0];
      assert c in CallsOf(calls) - at.visited;
      var kids := ChildrenOf(calls, c.callee);
      var inner := Progress([], at.visited + {c});
      SiblingsEncode(calls, kids, inner, []);
      var below, found := Siblings(calls, kids, inner), Explore(calls, kids, inner.visited);
      assert [] + found.nodes == found.nodes;
      assert CallsOf(calls) - below.visited < CallsOf(calls) - at.visited;
      var node := Node(c, found.nodes);
      AddBlockEncodes(at.blocks, nodes, below.blocks, node);
      var next := Progress(AddBlock(at.blocks, c.head, c.notes, below.blocks), below.visited);
      SiblingsEncode(calls, todo[1..], next, nodes + [node]);
      NodeInFront(nodes, node, Explore(calls, todo[1..], below.visited).nodes);
    }
  }

  /** What is rendered below a caller stands for what is found there. */
  lemma ChildrenEncode(calls: seq<Call>, caller: Func, visited: set<Call>)
    ensures var r, e := Children(calls, caller, visited), Explore(calls, ChildrenOf(calls, caller), visited);
      r.visited == e.visited && Encodes(r.blocks, e.nodes)
  {
    SiblingsEncode(calls, ChildrenOf(calls, caller), Progress([], visited), []);
    var e := Explore(calls, ChildrenOf(calls, caller), visited);
    assert [] + e.nodes == e.nodes;
  }

  lemma {:induction false} RootsDepict(calls: seq<Call>, roots: seq<Func>, visited: set<Call>)
    ensures Depicts(RenderRoots(calls, roots, visited).trees, roots, ExploreRoots(calls, roots, visited))
  {
    if roots == [] {
    } else {
      var first := Children(calls, roots[0], visited);
      ChildrenEncode(calls, roots[0], visited);
      RootsDepict(calls, roots[1..], first.visited);
    }
  }

  /** The drawing stands for the tree of calls. */
  lemma DrawDepicts(calls: seq<Call>)
    ensures Depicts(Draw(calls).trees, Roots(calls), ExploreRoots(calls, Roots(calls), {}))
  {
    RootsDepict(calls, Roots(calls), {});
  }
}
