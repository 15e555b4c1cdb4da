/**
 The aggregate-cluster graph of the CDS balancer: a breadth-first test that all
 of it has been received, and a depth-limited depth-first walk that flattens it.
 The graph may have cycles and shared clusters.
 */
module ClusterTree {
  import opened Common

  datatype ClusterType = Aggregate | Eds | LogicalDns

  datatype CdsUpdate = CdsUpdate(clusterType: ClusterType, name: string)

  datatype ClusterEntry = ClusterEntry(latestUpdate: Option<CdsUpdate>, children: seq<string>)

  type Tree = map<string, ClusterEntry>

  datatype DiscoveryMechanism = DiscoveryMechanism(cluster: string, clusterType: ClusterType)

  function Children(tree: Tree, node: string): seq<string> {
    if node in tree then tree[node].children else []
  }

  predicate Updated(tree: Tree, node: string) {
    node in tree && tree[node].latestUpdate.Some?
  }

  // ----- Reachability -----

  ghost predicate Edge(tree: Tree, p: seq<string>, i: nat)
    requires i < |p| - 1
  {
    p[i + 1] in Children(tree, p[i])
  }

  ghost predicate Walk(tree: Tree, p: seq<string>) {
    p != [] && forall i: nat | i < |p| - 1 :: Edge(tree, p, i)
  }

  ghost predicate Reachable(tree: Tree, root: string, node: string) {
    exists p :: Walk(tree, p) && p[0] == root && p[|p| - 1] == node
  }

  lemma RootReachable(tree: Tree, root: string)
    ensures Reachable(tree, root, root)
  {
    assert Walk(tree, [root]) && [root][0] == root;
  }

  lemma WalkAppend(tree: Tree, p: seq<string>, child: string)
    requires Walk(tree, p) && child in Children(tree, p[|p| - 1])
    ensures Walk(tree, p + [child])
  {
    forall i: nat | i < |p + [child]| - 1 ensures Edge(tree, p + [child], i) {
      if i < |p| - 1 { assert Edge(tree, p, i); }
    }
  }

  lemma ChildReachable(tree: Tree, root: string, node: string, child: string)
    requires Reachable(tree, root, node) && child in Children(tree, node)
    ensures Reachable(tree, root, child)
  {
    var p :| Walk(tree, p) && p[0] == root && p[|p| - 1] == node;
    WalkAppend(tree, p, child);
  }

  ghost predicate Closed(tree: Tree, nodes: set<string>) {
    forall n, c | n in nodes && c in Children(tree, n) :: c in nodes
  }

  lemma {:induction false} WalkStaysInside(tree: Tree, nodes: set<string>, p: seq<string>, k: nat)
    requires Closed(tree, nodes) && Walk(tree, p) && p[0] in nodes && k < |p|
    ensures p[k] in nodes
  {
    if k > 0 {
      WalkStaysInside(tree, nodes, p, k - 1);
      assert Edge(tree, p, k - 1);
    }
  }

  /** A closed set holding the root holds everything reachable. */
  lemma ClosedHoldsReachable(tree: Tree, nodes: set<string>, root: string)
    requires Closed(tree, nodes) && root in nodes
    ensures forall n | Reachable(tree, root, n) :: n in nodes
  {
    forall n | Reachable(tree, root, n) ensures n in nodes {
      var p :| Walk(tree, p) && p[0] == root && p[|p| - 1] == n;
      WalkStaysInside(tree, nodes, p, |p| - 1);
    }
  }

  ghost predicate AllUpdated(tree: Tree, root: string) {
    forall n | Reachable(tree, root, n) :: Updated(tree, n)
  }

  // ----- Breadth-first completeness test -----

  method IsClusterTreeFullyUpdated(tree: Tree, root: string) returns (r: bool)
    ensures r <==> AllUpdated(tree, root)
  {
    var toCheck := [root];
    var visited: set<string> := {};
    RootReachable(tree, root);
    while |toCheck| > 0
      invariant root in visited || root in toCheck
      invariant forall n | n in visited :: Updated(tree, n)
      invariant forall n | n in toCheck :: Reachable(tree, root, n)
      invariant forall n, c | n in visited && c in Children(tree, n) :: c in visited || c in toCheck
      decreases tree.Keys - visited, |toCheck|
    {
      var next := toCheck[0];
      ghost var before := toCheck;
      toCheck := toCheck[1..];
      assert forall n | n in before :: n == next || n in toCheck;
      if next in visited {
        continue;
      }
      visited := visited + {next};
      if !Updated(tree, next) {
        return false;
      }
      forall c | c in tree[next].children ensures Reachable(tree, root, c) {
        ChildReachable(tree, root, next, c);
      }
      toCheck := toCheck + tree[next].children;
    }
    ClosedHoldsReachable(tree, visited, root);
    return true;
  }

  // ----- First-visit order -----

  /** The first of some clusters that has not been seen. */
  function FirstUnseen(nodes: seq<string>, seen: seq<string>): Option<string> {
    if nodes == [] then None
    else if nodes[0] !in seen then Some(nodes[0])
    else FirstUnseen(nodes[1..], seen)
  }

  /** The cluster to visit after `order`: the first unseen child of the most
      recently visited cluster, no earlier than position `lo`, that has one. */
  function NextVisit(tree: Tree, order: seq<string>, hi: nat, lo: nat): Option<string>
    requires hi <= |order|
    decreases hi
  {
    if hi <= lo then None
    else
      var child := FirstUnseen(Children(tree, order[hi - 1]), order);
      if child.Some? then child else NextVisit(tree, order, hi - 1, lo)
  }

  /** `order` is the depth-first first-visit order of the clusters from `root`. */
  ghost predicate FirstVisitOrder(tree: Tree, root: string, order: seq<string>) {
    && order != [] && order[0] == root
    && (forall k | 1 <= k < |order| :: NextVisit(tree, order[..k], k, 0) == Some(order[k]))
    && NextVisit(tree, order, |order|, 0) == None
  }

  ghost function Elements(s: seq<string>): set<string> { set x | x in s }

  /** The recursive form of the walk: the clusters it visits for the first time. */
  ghost function Dfs(tree: Tree, node: string, visited: set<string>): seq<string>
    decreases tree.Keys - visited, 0
  {
    if node in visited then []
    else if node !in tree then [node]
    else [node] + DfsAll(tree, tree[node].children, visited + {node})
  }

  ghost function DfsAll(tree: Tree, nodes: seq<string>, visited: set<string>): seq<string>
    decreases tree.Keys - visited, |nodes|
  {
    if nodes == [] then []
    else
      var first := Dfs(tree, nodes[0], visited);
      first + DfsAll(tree, nodes[1..], visited + Elements(first))
  }

  lemma {:induction false} FirstUnseenSkips(nodes: seq<string>, m: nat, seen: seq<string>)
    requires m <= |nodes| && forall i | 0 <= i < m :: nodes[i] in seen
    ensures FirstUnseen(nodes, seen) == FirstUnseen(nodes[m..], seen)
  {
    if m > 0 { FirstUnseenSkips(nodes[1..], m - 1, seen); assert nodes[1..][m - 1..] == nodes[m..]; }
  }

  lemma {:induction false} FirstUnseenNone(nodes: seq<string>, seen: seq<string>)
    ensures FirstUnseen(nodes, seen).None? <==> forall n | n in nodes :: n in seen
  {
    if nodes != [] {
      FirstUnseenNone(nodes[1..], seen);
      assert forall n | n in nodes :: n == nodes[0] || n in nodes[1..];
    }
  }

  /** Positions from `lo` on have no unseen child. */
  ghost predicate Exhausted(tree: Tree, order: seq<string>, lo: nat) {
    forall i, c | lo <= i < |order| && c in Children(tree, order[i]) :: c in order
  }

  lemma {:induction false} NextVisitSkips(tree: Tree, order: seq<string>, hi: nat, mid: nat, lo: nat)
    requires lo <= mid <= hi <= |order| && Exhausted(tree, order, mid)
    ensures NextVisit(tree, order, hi, lo) == NextVisit(tree, order, mid, lo)
    decreases hi
  {
    if mid < hi {
      FirstUnseenNone(Children(tree, order[hi - 1]), order);
      NextVisitSkips(tree, order, hi - 1, mid, lo);
    }
  }

  lemma {:induction false} NextVisitLower(tree: Tree, order: seq<string>, hi: nat, mid: nat, lo: nat)
    requires lo <= mid && hi <= |order| && NextVisit(tree, order, hi, mid).Some?
    ensures NextVisit(tree, order, hi, lo) == NextVisit(tree, order, hi, mid)
    decreases hi
  {
    if FirstUnseen(Children(tree, order[hi - 1]), order).None? {
      NextVisitLower(tree, order, hi - 1, mid, lo);
    }
  }

  /** From position `from` on, every cluster of `order` is the next visit. */
  ghost predicate Greedy(tree: Tree, order: seq<string>, from: nat, lo: nat) {
    forall k | from <= k < |order| :: NextVisit(tree, order[..k], k, lo) == Some(order[k])
  }

  lemma {:induction false} GreedyJoin(tree: Tree, a: seq<string>, b: seq<string>, c: seq<string>, lo: nat)
    requires a < b <= c && lo <= |a|
    requires NextVisit(tree, a, |a|, lo) == Some(b[|a|])
    requires Greedy(tree, b, |a| + 1, |a|) && Greedy(tree, c, |b|, lo)
    ensures Greedy(tree, c, |a|, lo)
  {
    forall k | |a| <= k < |c| ensures NextVisit(tree, c[..k], k, lo) == Some(c[k]) {
      if k == |a| {
        assert c[..k] == a;
      } else if k < |b| {
        assert c[..k] == b[..k] && c[k] == b[k];
        NextVisitLower(tree, b[..k], k, |a|, lo);
      }
    }
  }

  lemma ElementsAppend(a: seq<string>, b: seq<string>)
    ensures Elements(a + b) == Elements(a) + Elements(b)
  {
  }

  lemma {:induction false} DfsGreedy(tree: Tree, node: string, done: seq<string>)
    requires node !in done
    ensures var d := Dfs(tree, node, Elements(done));
            && d != [] && d[0] == node
            && Greedy(tree, done + d, |done| + 1, |done|)
            && Exhausted(tree, done + d, |done|)
    decreases tree.Keys - Elements(done), 0
  {
    if node in tree {
      var seen := done + [node];
      ElementsAppend(done, [node]);
      assert Elements([node]) == {node};
      assert tree[node].children[0..] == tree[node].children;
      DfsAllGreedy(tree, tree[node].children, 0, seen, |done|);
      var rest := DfsAll(tree, tree[node].children, Elements(seen));
      Assoc(done, [node], rest);
    }
  }

  /** The first unseen child of the cluster at `at` is next once all later
      positions are exhausted. */
  lemma {:induction false} NextIsChild(tree: Tree, nodes: seq<string>, m: nat, done: seq<string>, at: nat)
    requires at < |done| && nodes == Children(tree, done[at]) && m < |nodes| && nodes[m] !in done
    requires Exhausted(tree, done, at + 1) && forall i | 0 <= i < m :: nodes[i] in done
    ensures NextVisit(tree, done, |done|, at) == Some(nodes[m])
  {
    NextVisitSkips(tree, done, |done|, at + 1, at);
    FirstUnseenSkips(nodes, m, done);
  }

  lemma {:induction false} DfsAllStep(tree: Tree, nodes: seq<string>, m: nat, done: seq<string>)
    requires m < |nodes|
    ensures var d := Dfs(tree, nodes[m], Elements(done));
            DfsAll(tree, nodes[m..], Elements(done)) == d + DfsAll(tree, nodes[m + 1..], Elements(done + d))
  {
    ElementsAppend(done, Dfs(tree, nodes[m], Elements(done)));
    DfsAllCons(tree, nodes, m, Elements(done));
  }

  lemma JoinWalks(tree: Tree, nodes: seq<string>, m: nat, done: seq<string>, d: seq<string>, e: seq<string>, at: nat)
    requires at < |done| && nodes == Children(tree, done[at]) && m < |nodes| && nodes[m] !in done
    requires Exhausted(tree, done, at + 1) && forall i | 0 <= i < m :: nodes[i] in done
    requires d != [] && d[0] == nodes[m] && Greedy(tree, done + d, |done| + 1, |done|)
    requires Greedy(tree, done + d + e, |done + d|, at)
    ensures Greedy(tree, done + (d + e), |done|, at)
  {
    NextIsChild(tree, nodes, m, done, at);
    assert done + (d + e) == done + d + e;
    GreedyJoin(tree, done, done + d, done + d + e, at);
  }

  /** The loop over the children of the cluster at position `at`. */
  lemma {:induction false} DfsAllGreedy(tree: Tree, nodes: seq<string>, m: nat, done: seq<string>, at: nat)
    requires at < |done| && nodes == Children(tree, done[at]) && m <= |nodes|
    requires Exhausted(tree, done, at + 1) && forall i | 0 <= i < m :: nodes[i] in done
    ensures var e := DfsAll(tree, nodes[m..], Elements(done));
            Greedy(tree, done + e, |done|, at) && Exhausted(tree, done + e, at)
    decreases tree.Keys - Elements(done), |nodes| - m
  {
    if m == |nodes| {
      assert done + [] == done;
      return;
    }
    DfsAllStep(tree, nodes, m, done);
    var d := Dfs(tree, nodes[m], Elements(done));
    var e := DfsAll(tree, nodes[m + 1..], Elements(done + d));
    assert done + (d + e) == done + d + e;
    if nodes[m] in done {
      assert done + d == done && d + e == e;
      DfsAllGreedy(tree, nodes, m + 1, done, at);
    } else {
      DfsGreedy(tree, nodes[m], done);
      StillExhausted(tree, done, d, at);
      MoreSeen(nodes, m, done, d);
      ElementsAppend(done, d);
      DfsAllGreedy(tree, nodes, m + 1, done + d, at);
      JoinWalks(tree, nodes, m, done, d, e, at);
    }
  }

  lemma MoreSeen(nodes: seq<string>, m: nat, done: seq<string>, d: seq<string>)
    requires m < |nodes| && (forall i | 0 <= i < m :: nodes[i] in done) && d != [] && d[0] == nodes[m]
    ensures forall i | 0 <= i < m + 1 :: nodes[i] in done + d
  {
  }

  lemma StillExhausted(tree: Tree, done: seq<string>, d: seq<string>, at: nat)
    requires Exhausted(tree, done, at + 1) && Exhausted(tree, done + d, |done|)
    ensures Exhausted(tree, done + d, at + 1)
  {
  }

  /** The walk visits the clusters in first-visit order. */
  lemma {:induction false} DfsIsFirstVisitOrder(tree: Tree, root: string)
    ensures FirstVisitOrder(tree, root, Dfs(tree, root, {}))
  {
    var d := Dfs(tree, root, {});
    assert Elements([]) == {};
    DfsGreedy(tree, root, []);
    assert [] + d == d;
    NextVisitSkips(tree, d, |d|, 0, 0);
  }

  lemma {:induction false} OrdersAgree(tree: Tree, root: string, a: seq<string>, b: seq<string>, k: nat)
    requires FirstVisitOrder(tree, root, a) && FirstVisitOrder(tree, root, b) && k <= |a| && k <= |b|
    ensures a[..k] == b[..k]
  {
    if k > 1 {
      OrdersAgree(tree, root, a, b, k - 1);
      assert a[..k] == a[..k - 1] + [a[k - 1]] && b[..k] == b[..k - 1] + [b[k - 1]];
    }
  }

  /** The first-visit order is unique. */
  lemma OrderIsUnique(tree: Tree, root: string, a: seq<string>, b: seq<string>)
    requires FirstVisitOrder(tree, root, a) && FirstVisitOrder(tree, root, b)
    ensures a == b
  {
    var k := Min(|a|, |b|);
    OrdersAgree(tree, root, a, b, k);
    assert a[..|a|] == a && b[..|b|] == b;
    var next := NextVisit(tree, a[..k], k, 0);
    assert next == NextVisit(tree, b[..k], k, 0);
  }

  lemma {:induction false} FirstUnseenFound(nodes: seq<string>, seen: seq<string>)
    requires FirstUnseen(nodes, seen).Some?
    ensures FirstUnseen(nodes, seen).value in nodes && FirstUnseen(nodes, seen).value !in seen
  {
    if nodes[0] in seen { FirstUnseenFound(nodes[1..], seen); }
  }

  /** The next visit is an unseen child of a visited cluster; there is none
      exactly when nothing is left to visit. */
  lemma {:induction false} NextVisitFound(tree: Tree, order: seq<string>, hi: nat)
    requires hi <= |order|
    ensures var next := NextVisit(tree, order, hi, 0);
            && (next.Some? ==> next.value !in order && exists i | 0 <= i < hi :: next.value in Children(tree, order[i]))
            && (next.None? ==> forall i, c | 0 <= i < hi && c in Children(tree, order[i]) :: c in order)
  {
    if hi > 0 {
      FirstUnseenNone(Children(tree, order[hi - 1]), order);
      if FirstUnseen(Children(tree, order[hi - 1]), order).Some? {
        FirstUnseenFound(Children(tree, order[hi - 1]), order);
      } else {
        NextVisitFound(tree, order, hi - 1);
      }
    }
  }

  lemma {:induction false} OrderSound(tree: Tree, root: string, order: seq<string>, k: nat)
    requires FirstVisitOrder(tree, root, order) && k < |order|
    ensures Reachable(tree, root, order[k]) && order[k] !in order[..k]
    decreases k
  {
    if k == 0 {
      RootReachable(tree, root);
    } else {
      NextVisitFound(tree, order[..k], k);
      var i :| 0 <= i < k && order[k] in Children(tree, order[..k][i]);
      OrderSound(tree, root, order, i);
      ChildReachable(tree, root, order[i], order[k]);
    }
  }

  lemma OrderIsReachable(tree: Tree, root: string, order: seq<string>)
    requires FirstVisitOrder(tree, root, order)
    ensures Distinct(order) && forall n :: n in order <==> Reachable(tree, root, n)
  {
    forall k | 0 <= k < |order| ensures Reachable(tree, root, order[k]) && order[k] !in order[..k] {
      OrderSound(tree, root, order, k);
    }
    forall i, j | 0 <= i < j < |order| ensures order[i] != order[j] {
      assert order[i] in order[..j];
    }
    NextVisitFound(tree, order, |order|);
    assert Closed(tree, Elements(order)) by {
      forall n, c | n in Elements(order) && c in Children(tree, n) ensures c in Elements(order) {
        var i :| 0 <= i < |order| && order[i] == n;
      }
    }
    assert order[0] in Elements(order);
    ClosedHoldsReachable(tree, Elements(order), root);
  }

  // ----- Depth-first flattening -----

  const RECURSION_DEPTH_LIMIT := 15

  datatype WalkError = TooDeep | AggregateLeaf

  datatype WalkResult = Ok(list: seq<DiscoveryMechanism>) | Err(error: WalkError)

  predicate Leaf(tree: Tree, node: string) { Children(tree, node) == [] }

  function LeavesOf(tree: Tree, order: seq<string>): seq<string> {
    if order == [] then []
    else LeavesOf(tree, order[..|order| - 1]) + (if Leaf(tree, order[|order| - 1]) then [order[|order| - 1]] else [])
  }

  lemma {:induction false} LeavesAppend(tree: Tree, a: seq<string>, b: seq<string>)
    ensures LeavesOf(tree, a + b) == LeavesOf(tree, a) + LeavesOf(tree, b)
    decreases |b|
  {
    if b == [] {
      assert a + b == a;
    } else {
      LeavesAppend(tree, a, b[..|b| - 1]);
      assert (a + b)[..|a + b| - 1] == a + b[..|b| - 1];
    }
  }

  lemma {:induction false} LeavesExact(tree: Tree, order: seq<string>)
    ensures forall n :: n in LeavesOf(tree, order) <==> n in order && Leaf(tree, n)
    ensures Distinct(order) ==> Distinct(LeavesOf(tree, order))
  {
    if order != [] {
      var front := order[..|order| - 1];
      var last := order[|order| - 1];
      LeavesExact(tree, front);
      assert forall n :: n in order <==> n in front || n == last;
      if Distinct(order) { assert last !in front; }
    }
  }

  function Mechanism(tree: Tree, node: string): DiscoveryMechanism
    requires Updated(tree, node)
  {
    DiscoveryMechanism(tree[node].latestUpdate.value.name, tree[node].latestUpdate.value.clusterType)
  }

  /** One mechanism per leaf, in order; none of them an aggregate. */
  ghost predicate Describes(tree: Tree, leaves: seq<string>, list: seq<DiscoveryMechanism>) {
    && |list| == |leaves|
    && forall i | 0 <= i < |list| ::
         && Updated(tree, leaves[i]) && list[i] == Mechanism(tree, leaves[i])
         && !tree[leaves[i]].latestUpdate.value.clusterType.Aggregate?
  }

  /** A walk one deeper than allowed whose clusters but the last all differ. */
  ghost predicate DeepWalk(tree: Tree, root: string, p: seq<string>) {
    Walk(tree, p) && p[0] == root && |p| == RECURSION_DEPTH_LIMIT + 2 && Distinct(p[..|p| - 1])
  }

  ghost predicate ChildlessAggregate(tree: Tree, root: string, node: string) {
    Reachable(tree, root, node) && Leaf(tree, node) && Updated(tree, node)
    && tree[node].latestUpdate.value.clusterType.Aggregate?
  }

  ghost predicate Explains(tree: Tree, root: string, error: WalkError) {
    match error
    case TooDeep => exists p :: DeepWalk(tree, root, p)
    case AggregateLeaf => exists n :: ChildlessAggregate(tree, root, n)
  }

  lemma DescribesAppend(tree: Tree, a: seq<string>, la: seq<DiscoveryMechanism>, b: seq<string>,
                        lb: seq<DiscoveryMechanism>)
    requires Describes(tree, a, la) && Describes(tree, b, lb)
    ensures Describes(tree, a + b, la + lb)
  {
  }

  /** Of the walk over `nodes` from `visited`, the first `i` are done, with `sofar`. */
  ghost predicate WalkedTo(tree: Tree, nodes: seq<string>, i: nat, visited: set<string>, sofar: seq<string>)
    requires i <= |nodes|
  {
    DfsAll(tree, nodes, visited) == sofar + DfsAll(tree, nodes[i..], visited + Elements(sofar))
  }

  /** One turn of the loop over the children. */
  lemma {:induction false} ChildStep(tree: Tree, nodes: seq<string>, i: nat, visited: set<string>, sofar: seq<string>)
    requires i < |nodes| && WalkedTo(tree, nodes, i, visited, sofar)
    ensures var d := Dfs(tree, nodes[i], visited + Elements(sofar));
            && WalkedTo(tree, nodes, i + 1, visited, sofar + d)
            && visited + Elements(sofar + d) == visited + Elements(sofar) + Elements(d)
            && LeavesOf(tree, sofar + d) == LeavesOf(tree, sofar) + LeavesOf(tree, d)
  {
    var d := Dfs(tree, nodes[i], visited + Elements(sofar));
    LeavesAppend(tree, sofar, d);
    ElementsAppend(sofar, d);
    assert visited + Elements(sofar + d) == visited + Elements(sofar) + Elements(d);
    DfsAllCons(tree, nodes, i, visited + Elements(sofar));
    Assoc(sofar, d, DfsAll(tree, nodes[i + 1..], visited + Elements(sofar + d)));
  }

  lemma Assoc(a: seq<string>, b: seq<string>, c: seq<string>)
    ensures a + (b + c) == a + b + c
  {
  }

  lemma {:induction false} DfsAllCons(tree: Tree, nodes: seq<string>, i: nat, visited: set<string>)
    requires i < |nodes|
    ensures var d := Dfs(tree, nodes[i], visited);
            DfsAll(tree, nodes[i..], visited) == d + DfsAll(tree, nodes[i + 1..], visited + Elements(d))
  {
  }

  // ----- When the walk throws -----

  /** How deep in the recursion each cluster of `Dfs` is visited. */
  ghost function DfsDepths(tree: Tree, node: string, visited: set<string>, depth: nat): (r: seq<nat>)
    ensures |r| == |Dfs(tree, node, visited)|
    decreases tree.Keys - visited, 0
  {
    if node in visited then []
    else if node !in tree then [depth]
    else [depth] + DfsAllDepths(tree, tree[node].children, visited + {node}, depth + 1)
  }

  ghost function DfsAllDepths(tree: Tree, nodes: seq<string>, visited: set<string>, depth: nat): (r: seq<nat>)
    ensures |r| == |DfsAll(tree, nodes, visited)|
    decreases tree.Keys - visited, |nodes|
  {
    if nodes == [] then []
    else DfsDepths(tree, nodes[0], visited, depth)
         + DfsAllDepths(tree, nodes[1..], visited + Elements(Dfs(tree, nodes[0], visited)), depth)
  }

  /** Where the cluster to visit after `order` is a child: the most recently visited
      cluster, no earlier than position `lo`, that has an unseen one. */
  function NextFrom(tree: Tree, order: seq<string>, hi: nat, lo: nat): (p: Option<nat>)
    requires hi <= |order|
    ensures p.Some? ==> lo <= p.value < hi
    decreases hi
  {
    if hi <= lo then None
    else if FirstUnseen(Children(tree, order[hi - 1]), order).Some? then Some(hi - 1)
    else NextFrom(tree, order, hi - 1, lo)
  }

  lemma {:induction false} NextFromSkips(tree: Tree, order: seq<string>, hi: nat, mid: nat, lo: nat)
    requires lo <= mid <= hi <= |order| && Exhausted(tree, order, mid)
    ensures NextFrom(tree, order, hi, lo) == NextFrom(tree, order, mid, lo)
    decreases hi
  {
    if mid < hi {
      FirstUnseenNone(Children(tree, order[hi - 1]), order);
      NextFromSkips(tree, order, hi - 1, mid, lo);
    }
  }

  lemma {:induction false} NextFromLower(tree: Tree, order: seq<string>, hi: nat, mid: nat, lo: nat)
    requires lo <= mid && hi <= |order| && NextFrom(tree, order, hi, mid).Some?
    ensures NextFrom(tree, order, hi, lo) == NextFrom(tree, order, hi, mid)
    decreases hi
  {
    if FirstUnseen(Children(tree, order[hi - 1]), order).None? {
      NextFromLower(tree, order, hi - 1, mid, lo);
    }
  }

  /** From position `from` on, a cluster is one deeper than the one it was visited from. */
  ghost predicate DepthsFrom(tree: Tree, order: seq<string>, depths: seq<nat>, from: nat, lo: nat)
    requires |order| == |depths|
  {
    forall k | from <= k < |order| :: DepthAt(tree, order, depths, k, lo)
  }

  ghost predicate DepthAt(tree: Tree, order: seq<string>, depths: seq<nat>, k: nat, lo: nat)
    requires k < |order| == |depths|
  {
    var p := NextFrom(tree, order[..k], k, lo);
    p.Some? && depths[k] == depths[p.value] + 1
  }

  /** `depths` says how far each cluster of a first-visit order is from the root. */
  ghost predicate DepthsOf(tree: Tree, order: seq<string>, depths: seq<nat>) {
    |order| == |depths| > 0 && depths[0] == 0 && DepthsFrom(tree, order, depths, 1, 0)
  }

  lemma {:induction false} DepthsAgree(tree: Tree, order: seq<string>, a: seq<nat>, b: seq<nat>, k: nat)
    requires DepthsOf(tree, order, a) && DepthsOf(tree, order, b) && k <= |order|
    ensures forall i | 0 <= i < k :: a[i] == b[i]
  {
    if k > 1 {
      DepthsAgree(tree, order, a, b, k - 1);
      assert DepthAt(tree, order, a, k - 1, 0) && DepthAt(tree, order, b, k - 1, 0);
    }
  }

  lemma DepthsJoin(tree: Tree, a: seq<string>, b: seq<string>, c: seq<string>, da: seq<nat>, db: seq<nat>, dc: seq<nat>,
                   lo: nat)
    requires a < b <= c && lo <= |a| && |a| == |da| && |b| == |db| && |c| == |dc| && da < db <= dc
    requires DepthAt(tree, b, db, |a|, lo)
    requires DepthsFrom(tree, b, db, |a| + 1, |a|) && DepthsFrom(tree, c, dc, |b|, lo)
    ensures DepthsFrom(tree, c, dc, |a|, lo)
  {
    forall k | |a| <= k < |c| ensures DepthAt(tree, c, dc, k, lo) {
      if k < |b| {
        assert c[..k] == b[..k];
        if k > |a| {
          assert DepthAt(tree, b, db, k, |a|);
          NextFromLower(tree, b[..k], k, |a|, lo);
        }
      }
    }
  }

  lemma {:induction false} DfsDepthsOk(tree: Tree, node: string, done: seq<string>, dd: seq<nat>, depth: nat)
    requires node !in done && |done| == |dd|
    ensures var order := done + Dfs(tree, node, Elements(done));
            var depths := dd + DfsDepths(tree, node, Elements(done), depth);
            && |Dfs(tree, node, Elements(done))| > 0 && DfsDepths(tree, node, Elements(done), depth)[0] == depth
            && DepthsFrom(tree, order, depths, |done| + 1, |done|)
    decreases tree.Keys - Elements(done), 0
  {
    if node in tree {
      var seen, ds := done + [node], dd + [depth];
      ElementsAppend(done, [node]);
      assert Elements([node]) == {node};
      assert tree[node].children[0..] == tree[node].children;
      DfsAllDepthsOk(tree, tree[node].children, 0, seen, ds, |done|, depth + 1);
      var rest := DfsAll(tree, tree[node].children, Elements(seen));
      assert seen + rest == done + ([node] + rest);
      var restDepths := DfsAllDepths(tree, tree[node].children, Elements(seen), depth + 1);
      assert ds + restDepths == dd + ([depth] + restDepths);
    }
  }

  lemma {:induction false} DfsAllDepthsOk(tree: Tree, nodes: seq<string>, m: nat, done: seq<string>, dd: seq<nat>,
                                          at: nat, depth: nat)
    requires at < |done| == |dd| && depth == dd[at] + 1 && nodes == Children(tree, done[at]) && m <= |nodes|
    requires Exhausted(tree, done, at + 1) && forall i | 0 <= i < m :: nodes[i] in done
    ensures DepthsFrom(tree, done + DfsAll(tree, nodes[m..], Elements(done)),
                       dd + DfsAllDepths(tree, nodes[m..], Elements(done), depth), |done|, at)
    decreases tree.Keys - Elements(done), |nodes| - m
  {
    if m == |nodes| {
      return;
    }
    DfsAllStep(tree, nodes, m, done);
    DfsAllDepthsStep(tree, nodes, m, done, depth);
    var d, ds := Dfs(tree, nodes[m], Elements(done)), DfsDepths(tree, nodes[m], Elements(done), depth);
    var e := DfsAll(tree, nodes[m + 1..], Elements(done + d));
    var es := DfsAllDepths(tree, nodes[m + 1..], Elements(done + d), depth);
    if nodes[m] in done {
      assert done + d == done && d + e == e && ds + es == es;
      DfsAllDepthsOk(tree, nodes, m + 1, done, dd, at, depth);
    } else {
      DfsGreedy(tree, nodes[m], done);
      DfsDepthsOk(tree, nodes[m], done, dd, depth);
      StillExhausted(tree, done, d, at);
      MoreSeen(nodes, m, done, d);
      assert (dd + ds)[at] == dd[at] && (done + d)[at] == done[at];
      DfsAllDepthsOk(tree, nodes, m + 1, done + d, dd + ds, at, depth);
      JoinDepths(tree, nodes, m, done, dd, d, ds, e, es, at);
    }
  }

  lemma {:induction false} DfsAllDepthsStep(tree: Tree, nodes: seq<string>, m: nat, done: seq<string>, depth: nat)
    requires m < |nodes|
    ensures var d := Dfs(tree, nodes[m], Elements(done));
            DfsAllDepths(tree, nodes[m..], Elements(done), depth)
            == DfsDepths(tree, nodes[m], Elements(done), depth)
            + DfsAllDepths(tree, nodes[m + 1..], Elements(done + d), depth)
  {
    ElementsAppend(done, Dfs(tree, nodes[m], Elements(done)));
    assert nodes[m..][1..] == nodes[m + 1..];
  }

  lemma JoinDepths(tree: Tree, nodes: seq<string>, m: nat, done: seq<string>, dd: seq<nat>, d: seq<string>,
                   ds: seq<nat>,
                   e: seq<string>, es: seq<nat>, at: nat)
    requires at < |done| == |dd| && nodes == Children(tree, done[at]) && m < |nodes| && nodes[m] !in done
    requires Exhausted(tree, done, at + 1) && forall i | 0 <= i < m :: nodes[i] in done
    requires |d| == |ds| > 0 && |e| == |es| && ds[0] == dd[at] + 1
    requires DepthsFrom(tree, done + d, dd + ds, |done| + 1, |done|)
    requires DepthsFrom(tree, done + d + e, dd + ds + es, |done + d|, at)
    ensures DepthsFrom(tree, done + (d + e), dd + (ds + es), |done|, at)
  {
    ChildDepth(tree, nodes, m, done, dd, d, ds, at);
    assert done + (d + e) == done + d + e && dd + (ds + es) == dd + ds + es;
    DepthsJoin(tree, done, done + d, done + d + e, dd, dd + ds, dd + ds + es, at);
  }

  lemma ChildDepth(tree: Tree, nodes: seq<string>, m: nat, done: seq<string>, dd: seq<nat>, d: seq<string>,
                   ds: seq<nat>, at: nat)
    requires at < |done| == |dd| && nodes == Children(tree, done[at]) && m < |nodes| && nodes[m] !in done
    requires Exhausted(tree, done, at + 1) && forall i | 0 <= i < m :: nodes[i] in done
    requires |d| == |ds| > 0 && ds[0] == dd[at] + 1
    ensures DepthAt(tree, done + d, dd + ds, |done|, at)
  {
    assert (done + d)[..|done|] == done;
    NextFromSkips(tree, done, |done|, at + 1, at);
    FirstUnseenSkips(nodes, m, done);
  }

  /** The recursion visits each cluster at its depth. */
  lemma {:induction false} DfsDepthsAreDepths(tree: Tree, root: string)
    ensures DepthsOf(tree, Dfs(tree, root, {}), DfsDepths(tree, root, {}, 0))
  {
    assert Elements([]) == {};
    DfsDepthsOk(tree, root, [], [], 0);
    assert [] + Dfs(tree, root, {}) == Dfs(tree, root, {});
    assert [] + DfsDepths(tree, root, {}, 0) == DfsDepths(tree, root, {}, 0);
  }

  /** A cluster the walk cannot handle: an aggregate without children, or one with
      children at the depth limit. */
  predicate Stops(tree: Tree, node: string, depth: nat)
    requires Updated(tree, node)
  {
    if Leaf(tree, node) then tree[node].latestUpdate.value.clusterType.Aggregate? else depth >= RECURSION_DEPTH_LIMIT
  }

  ghost predicate SomeStops(tree: Tree, nodes: seq<string>, depths: seq<nat>)
    requires |nodes| == |depths|
  {
    exists k | 0 <= k < |nodes| :: Updated(tree, nodes[k]) && Stops(tree, nodes[k], depths[k])
  }

  /** Visiting the cluster, or all of some clusters, comes to one that stops it. */
  ghost predicate StopsWithin(tree: Tree, node: string, visited: set<string>, depth: nat) {
    SomeStops(tree, Dfs(tree, node, visited), DfsDepths(tree, node, visited, depth))
  }

  ghost predicate StopsAmong(tree: Tree, nodes: seq<string>, visited: set<string>, depth: nat) {
    SomeStops(tree, DfsAll(tree, nodes, visited), DfsAllDepths(tree, nodes, visited, depth))
  }

  lemma SomeStopsAppend(tree: Tree, a: seq<string>, da: seq<nat>, b: seq<string>, db: seq<nat>)
    requires |a| == |da| && |b| == |db|
    ensures SomeStops(tree, a + b, da + db) <==> SomeStops(tree, a, da) || SomeStops(tree, b, db)
  {
    if SomeStops(tree, a, da) {
      var k :| 0 <= k < |a| && Updated(tree, a[k]) && Stops(tree, a[k], da[k]);
      assert (a + b)[k] == a[k] && (da + db)[k] == da[k];
    }
    if SomeStops(tree, b, db) {
      var k :| 0 <= k < |b| && Updated(tree, b[k]) && Stops(tree, b[k], db[k]);
      assert (a + b)[|a| + k] == b[k] && (da + db)[|a| + k] == db[k];
    }
  }

  /** One turn of the loop: the clusters from child `i` on. */
  lemma {:induction false} StopsCons(tree: Tree, nodes: seq<string>, i: nat, visited: set<string>, depth: nat)
    requires i < |nodes|
    ensures StopsAmong(tree, nodes[i..], visited, depth) <==>
              || StopsWithin(tree, nodes[i], visited, depth)
              || StopsAmong(tree, nodes[i + 1..], visited + Elements(Dfs(tree, nodes[i], visited)), depth)
  {
    var later := visited + Elements(Dfs(tree, nodes[i], visited));
    SomeStopsAppend(tree, Dfs(tree, nodes[i], visited), DfsDepths(tree, nodes[i], visited, depth),
                    DfsAll(tree, nodes[i + 1..], later), DfsAllDepths(tree, nodes[i + 1..], later, depth));
  }

  lemma StopsUnfolds(tree: Tree, node: string, visited: set<string>, depth: nat)
    requires node !in visited && Updated(tree, node)
    ensures StopsWithin(tree, node, visited, depth) <==>
              Stops(tree, node, depth) || StopsAmong(tree, tree[node].children, visited + {node}, depth + 1)
  {
    SomeStopsAppend(tree, [node], [depth], DfsAll(tree, tree[node].children, visited + {node}),
                    DfsAllDepths(tree, tree[node].children, visited + {node}, depth + 1));
    assert SomeStops(tree, [node], [depth]) <==> Stops(tree, node, depth) by {
      if Stops(tree, node, depth) { assert Updated(tree, [node][0]) && Stops(tree, [node][0], [depth][0]); }
    }
  }

  lemma {:induction false} VisitUnfolds(tree: Tree, node: string, visited: set<string>)
    requires node in tree && node !in visited
    ensures var d := Dfs(tree, node, visited);
            var e := DfsAll(tree, tree[node].children, visited + {node});
            && visited + Elements(d) == visited + {node} + Elements(e)
            && LeavesOf(tree, d) == if Leaf(tree, node) then [node] else LeavesOf(tree, e)
    ensures Leaf(tree, node) ==> Dfs(tree, node, visited) == [node]
  {
    var d, e := Dfs(tree, node, visited), DfsAll(tree, tree[node].children, visited + {node});
    assert d == [node] + e;
    ElementsAppend([node], e);
    assert Elements([node]) == {node};
    LeavesAppend(tree, [node], e);
    LeavesOfOne(tree, node);
  }

  lemma {:induction false} LeavesOfOne(tree: Tree, node: string)
    ensures LeavesOf(tree, [node]) == if Leaf(tree, node) then [node] else []
  {
    assert [node][..0] == [];
  }

  /** The calls in progress: a walk from the root over clusters that all differ and
      are visited. */
  ghost predicate Stack(tree: Tree, root: string, path: seq<string>, visited: set<string>) {
    path != [] &&
    var n := |path| - 1;
    && path[n] in visited
    && (if n == 0 then path[0] == root
        else && Stack(tree, root, path[..n], visited) && path[n] in Children(tree, path[n - 1])
             && path[n] !in path[..n])
  }

  lemma {:induction false} StackKept(tree: Tree, root: string, path: seq<string>, visited: set<string>,
                                     more: set<string>)
    requires Stack(tree, root, path, visited) && visited <= more
    ensures Stack(tree, root, path, more)
  {
    if |path| > 1 { StackKept(tree, root, path[..|path| - 1], visited, more); }
  }

  lemma {:induction false} StackIsWalk(tree: Tree, root: string, path: seq<string>, visited: set<string>)
    requires Stack(tree, root, path, visited)
    ensures Walk(tree, path) && path[0] == root && Distinct(path) && forall n | n in path :: n in visited
  {
    var n := |path| - 1;
    if n > 0 {
      StackIsWalk(tree, root, path[..n], visited);
      WalkAppend(tree, path[..n], path[n]);
      assert path == path[..n] + [path[n]];
    }
  }

  /** The node is what is called next: the root, or a child of the last on the stack. */
  ghost predicate Called(tree: Tree, root: string, callers: seq<string>, visited: set<string>, node: string) {
    if callers == [] then node == root
    else Stack(tree, root, callers, visited) && node in Children(tree, callers[|callers| - 1])
  }

  lemma CalledIsReachable(tree: Tree, root: string, callers: seq<string>, visited: set<string>, node: string)
    requires Called(tree, root, callers, visited, node)
    ensures Reachable(tree, root, node)
  {
    if callers == [] {
      RootReachable(tree, root);
    } else {
      StackIsWalk(tree, root, callers, visited);
      ChildReachable(tree, root, callers[|callers| - 1], node);
    }
  }

  lemma LeafExplains(tree: Tree, root: string, node: string)
    requires Reachable(tree, root, node) && Updated(tree, node) && tree[node].children == []
    requires tree[node].latestUpdate.value.clusterType == Aggregate
    ensures Explains(tree, root, AggregateLeaf)
  {
    assert ChildlessAggregate(tree, root, node);
  }

  lemma CalledIsDeep(tree: Tree, root: string, callers: seq<string>, visited: set<string>, node: string)
    requires Called(tree, root, callers, visited, node) && |callers| == RECURSION_DEPTH_LIMIT + 1
    ensures Explains(tree, root, TooDeep)
  {
    StackIsWalk(tree, root, callers, visited);
    WalkAppend(tree, callers, node);
    assert (callers + [node])[..|callers|] == callers;
    assert DeepWalk(tree, root, callers + [node]);
  }

  lemma {:induction false} StackGrows(tree: Tree, root: string, callers: seq<string>, visited: set<string>,
                                      node: string)
    requires Called(tree, root, callers, visited, node) && node !in visited
    ensures Stack(tree, root, callers + [node], visited + {node})
  {
    assert (callers + [node])[..|callers|] == callers;
    if callers != [] {
      StackKept(tree, root, callers, visited, visited + {node});
      StackIsWalk(tree, root, callers, visited);
    }
  }

  /** What visiting a node does: the walk from it is marked and its leaves are
      described, unless it is too deep or some cluster of the walk stops it. */
  ghost predicate VisitOk(tree: Tree, node: string, before: set<string>, after: set<string>, depth: nat,
                          r: WalkResult) {
    && (r.Ok? ==>
          var d := Dfs(tree, node, before);
          after == before + Elements(d) && Describes(tree, LeavesOf(tree, d), r.list))
    && (r.Err? <==> depth > RECURSION_DEPTH_LIMIT || StopsWithin(tree, node, before, depth))
  }

  /** The same for the children of a node at depth `depth`. */
  ghost predicate ChildrenOk(tree: Tree, nodes: seq<string>, before: set<string>, after: set<string>, depth: nat,
                             r: WalkResult) {
    && (r.Ok? ==>
          var e := DfsAll(tree, nodes, before);
          after == before + Elements(e) && Describes(tree, LeavesOf(tree, e), r.list))
    && (r.Err? <==> (depth == RECURSION_DEPTH_LIMIT && nodes != []) || StopsAmong(tree, nodes, before, depth + 1))
  }

  lemma AlreadyVisited(tree: Tree, node: string, visited: set<string>, depth: nat)
    requires node in visited && depth <= RECURSION_DEPTH_LIMIT
    ensures VisitOk(tree, node, visited, visited, depth, Ok([]))
  {
    assert visited + Elements([]) == visited;
  }

  lemma NodeVisited(tree: Tree, node: string, before: set<string>, after: set<string>, depth: nat, r: WalkResult)
    requires Updated(tree, node) && node !in before && depth <= RECURSION_DEPTH_LIMIT
    requires if tree[node].children != [] then ChildrenOk(tree, tree[node].children, before + {node}, after, depth, r)
             else && after == before + {node}
                  && r == if tree[node].latestUpdate.value.clusterType == Aggregate then Err(AggregateLeaf)
                          else Ok([Mechanism(tree, node)])
    ensures VisitOk(tree, node, before, after, depth, r)
  {
    VisitUnfolds(tree, node, before);
    StopsUnfolds(tree, node, before, depth);
  }

  /** The loop over the children of a node at depth `depth` has done the first `i`,
      and nothing has stopped it. */
  ghost predicate LoopOk(tree: Tree, nodes: seq<string>, i: nat, before: set<string>, visited: set<string>,
                         sofar: seq<string>, result: seq<DiscoveryMechanism>, depth: nat) {
    && i <= |nodes| && visited == before + Elements(sofar) && (depth == RECURSION_DEPTH_LIMIT ==> i == 0)
    && WalkedTo(tree, nodes, i, before, sofar) && Describes(tree, LeavesOf(tree, sofar), result)
    && (StopsAmong(tree, nodes, before, depth + 1) <==> StopsAmong(tree, nodes[i..], visited, depth + 1))
  }

  lemma LoopStarts(tree: Tree, nodes: seq<string>, visited: set<string>, depth: nat)
    ensures LoopOk(tree, nodes, 0, visited, visited, [], [], depth)
  {
    assert nodes[0..] == nodes && visited + Elements([]) == visited;
  }

  lemma {:induction false} LoopNext(tree: Tree, nodes: seq<string>, i: nat, before: set<string>, visited: set<string>,
                                    after: set<string>, sofar: seq<string>, result: seq<DiscoveryMechanism>, depth: nat,
                                    r: WalkResult)
    requires i < |nodes| && LoopOk(tree, nodes, i, before, visited, sofar, result, depth)
    requires depth <= RECURSION_DEPTH_LIMIT && VisitOk(tree, nodes[i], visited, after, depth + 1, r) && r.Ok?
    ensures LoopOk(tree, nodes, i + 1, before, after, sofar + Dfs(tree, nodes[i], visited), result + r.list, depth)
  {
    var d := Dfs(tree, nodes[i], visited);
    StopsCons(tree, nodes, i, visited, depth + 1);
    ChildStep(tree, nodes, i, before, sofar);
    DescribesAppend(tree, LeavesOf(tree, sofar), result, LeavesOf(tree, d), r.list);
  }

  lemma LoopStops(tree: Tree, nodes: seq<string>, i: nat, before: set<string>, visited: set<string>,
                  after: set<string>, sofar: seq<string>, result: seq<DiscoveryMechanism>, depth: nat, r: WalkResult)
    requires i < |nodes| && LoopOk(tree, nodes, i, before, visited, sofar, result, depth)
    requires depth <= RECURSION_DEPTH_LIMIT && VisitOk(tree, nodes[i], visited, after, depth + 1, r) && r.Err?
    ensures ChildrenOk(tree, nodes, before, after, depth, r)
  {
    StopsCons(tree, nodes, i, visited, depth + 1);
  }

  lemma LoopEnds(tree: Tree, nodes: seq<string>, before: set<string>, visited: set<string>, sofar: seq<string>,
                 result: seq<DiscoveryMechanism>, depth: nat)
    requires LoopOk(tree, nodes, |nodes|, before, visited, sofar, result, depth)
    ensures ChildrenOk(tree, nodes, before, visited, depth, Ok(result))
  {
    assert nodes[|nodes|..] == [];
    assert DfsAll(tree, nodes, before) == sofar + [] == sofar;
  }

  /** The closure of getDiscoveryMechanismList: a walk and its visited set. */
  class DiscoveryWalk {
    const tree: Tree
    var visited: set<string>

    constructor (tree: Tree)
      ensures this.tree == tree && visited == {}
    {
      this.tree, visited := tree, {};
    }

    /** `callers` are the calls in progress, from the root to the caller. */
    method Visit(node: string, depth: nat, ghost root: string, ghost callers: seq<string>) returns (r: WalkResult)
      requires depth == |callers| <= RECURSION_DEPTH_LIMIT + 1
      requires Called(tree, root, callers, visited, node) && AllUpdated(tree, root)
      modifies this
      ensures old(visited) <= visited
      ensures VisitOk(tree, node, old(visited), visited, depth, r)
      ensures r.Err? ==> Explains(tree, root, r.error)
      decreases tree.Keys - visited, 0
    {
      if depth > RECURSION_DEPTH_LIMIT {
        CalledIsDeep(tree, root, callers, visited, node);
        return Err(TooDeep);
      }
      if node in visited {
        AlreadyVisited(tree, node, visited, depth);
        return Ok([]);
      }
      CalledIsReachable(tree, root, callers, visited, node);
      StackGrows(tree, root, callers, visited, node);
      visited := visited + {node};
      if |tree[node].children| > 0 {
        r := VisitChildren(node, depth, root, callers + [node]);
      } else if tree[node].latestUpdate.value.clusterType == Aggregate {
        LeafExplains(tree, root, node);
        r := Err(AggregateLeaf);
      } else {
        r := Ok([Mechanism(tree, node)]);
      }
      NodeVisited(tree, node, old(visited), visited, depth, r);
    }

    /** The loop over the children of an aggregate. */
    method VisitChildren(node: string, depth: nat, ghost root: string, ghost path: seq<string>)
      returns (r: WalkResult)
      requires |path| == depth + 1 <= RECURSION_DEPTH_LIMIT + 1 && path[depth] == node && node in tree
      requires Stack(tree, root, path, visited) && AllUpdated(tree, root)
      modifies this
      ensures old(visited) <= visited
      ensures ChildrenOk(tree, tree[node].children, old(visited), visited, depth, r)
      ensures r.Err? ==> Explains(tree, root, r.error)
      decreases tree.Keys - visited, 1
    {
      var children := tree[node].children;
      var result := [];
      ghost var sofar := [];
      LoopStarts(tree, children, visited, depth);
      var i := 0;
      while i < |children|
        invariant LoopOk(tree, children, i, old(visited), visited, sofar, result, depth)
        invariant Stack(tree, root, path, visited) && old(visited) <= visited
      {
        ghost var before := visited;
        r := Visit(children[i], depth + 1, root, path);
        if r.Err? {
          LoopStops(tree, children, i, old(visited), before, visited, sofar, result, depth, r);
          return;
        }
        StackKept(tree, root, path, before, visited);
        LoopNext(tree, children, i, old(visited), before, visited, sofar, result, depth, r);
        sofar := sofar + Dfs(tree, children[i], before);
        result := result + r.list;
        i := i + 1;
      }
      LoopEnds(tree, children, old(visited), visited, sofar, result, depth);
      return Ok(result);
    }
  }

  /** Flattens a fully updated graph: every reachable leaf exactly once, in
      first-visit order. It fails exactly if some cluster of that order stops it: an
      aggregate without children, or a cluster with children whose depth in that
      order is at the limit. */
  method GetDiscoveryMechanismList(tree: Tree, root: string) returns (r: WalkResult, ghost leaves: seq<string>)
    requires AllUpdated(tree, root)
    ensures exists order :: FirstVisitOrder(tree, root, order) && leaves == LeavesOf(tree, order)
    ensures Distinct(leaves) && forall n :: n in leaves <==> Reachable(tree, root, n) && Leaf(tree, n)
    ensures r.Ok? ==> Describes(tree, leaves, r.list)
    ensures r.Err? ==> Explains(tree, root, r.error)
    ensures exists order, depths ::
              && FirstVisitOrder(tree, root, order) && DepthsOf(tree, order, depths)
              && (r.Err? <==> SomeStops(tree, order, depths))
    ensures r.Ok? ==> !exists n :: ChildlessAggregate(tree, root, n)
  {
    var walk := new DiscoveryWalk(tree);
    r := walk.Visit(root, 0, root, []);
    ghost var order := Dfs(tree, root, {});
    leaves := LeavesOf(tree, order);
    DfsIsFirstVisitOrder(tree, root);
    DfsDepthsAreDepths(tree, root);
    OrderIsReachable(tree, root, order);
    LeavesExact(tree, order);
    if r.Ok? {
      forall n ensures !ChildlessAggregate(tree, root, n) {
        if n in leaves {
          var i :| 0 <= i < |leaves| && leaves[i] == n;
        }
      }
    }
  }
}
