/** The node tree: how the listed nodes are linked into a forest, printed with indentation
    and numbered for selection. A tree node is named by its index in the list. */
module NodeForest {
  import opened Wrappers
  import opened NodeKeys

  datatype Node = Node(key: string, name: string, assets: seq<string>)

  /** The last node before `i` with the given key: what the key-to-tree map holds. */
  function LastBefore(nodes: seq<Node>, key: string, i: nat): (p: Option<nat>)
    requires i <= |nodes|
    ensures p.Some? ==> p.value < i && nodes[p.value].key == key
    ensures p.Some? ==> forall q | p.value < q < i :: nodes[q].key != key
    ensures p.None? ==> forall q | 0 <= q < i :: nodes[q].key != key
  {
    if i == 0 then None
    else if nodes[i - 1].key == key then Some(i - 1)
    else LastBefore(nodes, key, i - 1)
  }

  /** The node under which `i` is hung, if any. */
  function ParentOf(nodes: seq<Node>, i: nat): (p: Option<nat>)
    requires i < |nodes|
    ensures p.Some? ==> p.value < i
  {
    match Parent(nodes[i].key)
    case None => None
    case Some(key) => LastBefore(nodes, key, i)
  }

  /** The list holds each of the first `n` nodes hung under `p` once, and nothing else. */
  ghost predicate Collects(nodes: seq<Node>, n: nat, list: seq<nat>, p: Option<nat>)
    requires n <= |nodes|
  {
    forall c: nat :: multiset(list)[c] == if c < n && ParentOf(nodes, c) == p then 1 else 0
  }

  /** The forest of the first `n` nodes, up to the order of siblings. */
  ghost predicate IsForest(nodes: seq<Node>, n: nat, roots: seq<nat>, children: seq<seq<nat>>)
    requires n <= |nodes|
  {
    && |children| == n
    && Collects(nodes, n, roots, None)
    && forall p | 0 <= p < n :: Collects(nodes, n, children[p], Some(p))
  }

  predicate Increasing(list: seq<nat>) {
    forall a, b | 0 <= a < b < |list| :: list[a] < list[b]
  }

  lemma CollectNext(nodes: seq<Node>, n: nat, list: seq<nat>, p: Option<nat>)
    requires n < |nodes| && Collects(nodes, n, list, p) && Increasing(list)
    ensures ParentOf(nodes, n) == p ==> Collects(nodes, n + 1, list + [n], p) && Increasing(list + [n])
    ensures ParentOf(nodes, n) != p ==> Collects(nodes, n + 1, list, p)
  {
    hide ParentOf;
    forall a | 0 <= a < |list|
      ensures list[a] < n
    {
      assert list[a] in multiset(list);
    }
  }

  /** A node not yet listed has no children among the nodes before it. */
  lemma NothingYet(nodes: seq<Node>, n: nat, p: nat)
    requires n <= p && n < |nodes|
    ensures Collects(nodes, n + 1, [], Some(p))
  {
  }

  ghost predicate IsTreeMap(nodes: seq<Node>, n: nat, trees: map<string, nat>)
    requires n <= |nodes|
  {
    forall key: string ::
      LastBefore(nodes, key, n) == if key in trees then Some(trees[key]) else None
  }

  /** Links the nodes in one pass. */
  method ConvertToDisplayTrees(nodes: seq<Node>) returns (roots: seq<nat>, children: seq<seq<nat>>)
    ensures IsForest(nodes, |nodes|, roots, children)
    ensures Increasing(roots) && forall p | 0 <= p < |nodes| :: Increasing(children[p])
  {
    hide Collects, ParentOf, Increasing, Parent;
    roots, children := [], [];
    var trees: map<string, nat> := map[];
    assert Collects(nodes, 0, roots, None) && Increasing(roots) by {
      Empty(nodes);
    }
    for i := 0 to |nodes|
      invariant IsForest(nodes, i, roots, children)
      invariant Increasing(roots) && forall p | 0 <= p < i :: Increasing(children[p])
      invariant IsTreeMap(nodes, i, trees)
    {
      var key := nodes[i].key;
      var parent := Parent(key);
      ParentIs(nodes, i);
      AddedToMap(nodes, i, trees);
      GrowForest(nodes, i, roots, children);
      trees := trees[key := i];
      if parent.None? || parent.value !in trees {
        roots, children := roots + [i], children + [[]];
      } else {
        var p := trees[parent.value];
        children := children[p := children[p] + [i]] + [[]];
      }
    }
  }

  lemma Empty(nodes: seq<Node>)
    ensures Collects(nodes, 0, [], None) && Increasing([])
  {
  }

  lemma ParentIs(nodes: seq<Node>, i: nat)
    requires i < |nodes|
    ensures var parent := Parent(nodes[i].key);
      ParentOf(nodes, i) == if parent.None? then None else LastBefore(nodes, parent.value, i)
    ensures Parent(nodes[i].key) != Some(nodes[i].key)
  {
  }

  lemma AddedToMap(nodes: seq<Node>, i: nat, trees: map<string, nat>)
    requires i < |nodes| && IsTreeMap(nodes, i, trees)
    ensures IsTreeMap(nodes, i + 1, trees[nodes[i].key := i])
  {
  }

  /** Hanging node `n` where `ParentOf` says gives the forest of one more node. */
  lemma GrowForest(nodes: seq<Node>, n: nat, roots: seq<nat>, children: seq<seq<nat>>)
    requires n < |nodes| && IsForest(nodes, n, roots, children)
    requires Increasing(roots) && forall p | 0 <= p < n :: Increasing(children[p])
    ensures var q := ParentOf(nodes, n);
      var roots' := if q.None? then roots + [n] else roots;
      var children' := (if q.Some? then children[q.value := children[q.value] + [n]] else children) + [[]];
      && IsForest(nodes, n + 1, roots', children')
      && Increasing(roots')
      && forall p | 0 <= p <= n :: Increasing(children'[p])
  {
    hide Collects, ParentOf, Increasing;
    CollectNext(nodes, n, roots, None);
    NothingYet(nodes, n, n);
    assert Increasing([]) by {
      Empty(nodes);
    }
    forall p | 0 <= p < n
      ensures ParentOf(nodes, n) == Some(p) ==>
                Collects(nodes, n + 1, children[p] + [n], Some(p)) && Increasing(children[p] + [n])
      ensures ParentOf(nodes, n) != Some(p) ==> Collects(nodes, n + 1, children[p], Some(p))
    {
      CollectNext(nodes, n, children[p], Some(p));
    }
  }

  // Ancestors -----------------------------------------------------------------

  /** `j` is `i` or above it. */
  predicate Covers(nodes: seq<Node>, j: nat, i: nat)
    requires i < |nodes|
    decreases i
  {
    j == i || (ParentOf(nodes, i).Some? && Covers(nodes, j, ParentOf(nodes, i).value))
  }

  function Depth(nodes: seq<Node>, i: nat): nat
    requires i < |nodes|
    decreases i
  {
    if ParentOf(nodes, i).None? then 0 else Depth(nodes, ParentOf(nodes, i).value) + 1
  }

  lemma {:induction false} CoversIsEarlier(nodes: seq<Node>, j: nat, i: nat)
    requires i < |nodes| && Covers(nodes, j, i)
    ensures j <= i
    decreases i
  {
    if j != i {
      CoversIsEarlier(nodes, j, ParentOf(nodes, i).value);
    }
  }

  /** The node hung under `p` (or at the top) on the way down to `i`. */
  function Toward(nodes: seq<Node>, p: Option<nat>, i: nat): nat
    requires i < |nodes|
    decreases i
  {
    if ParentOf(nodes, i) == p || ParentOf(nodes, i).None? then i
    else Toward(nodes, p, ParentOf(nodes, i).value)
  }

  /** Among the nodes hung under `p` exactly one covers a node strictly below `p`. */
  lemma {:induction false} OneWayDown(nodes: seq<Node>, p: Option<nat>, c: nat, i: nat)
    requires c < |nodes| && i < |nodes| && ParentOf(nodes, c) == p
    ensures Covers(nodes, c, i) <==>
      c == Toward(nodes, p, i) && (p.None? || (p.value != i && Covers(nodes, p.value, i)))
    decreases i
  {
    hide ParentOf;
    var q := ParentOf(nodes, i);
    if c == i && p.Some? {
      assert Covers(nodes, p.value, p.value);
    } else if c != i && q.Some? {
      if Covers(nodes, c, q.value) {
        CoversIsEarlier(nodes, c, q.value);
      }
      if q != p {
        OneWayDown(nodes, p, c, q.value);
      }
    }
  }

  lemma {:induction false} TowardIsHung(nodes: seq<Node>, p: Option<nat>, i: nat)
    requires i < |nodes|
    requires p.None? || (p.value != i && Covers(nodes, p.value, i))
    ensures Toward(nodes, p, i) < |nodes| && ParentOf(nodes, Toward(nodes, p, i)) == p
    decreases i
  {
    hide ParentOf;
    var q := ParentOf(nodes, i);
    if q != p {
      TowardIsHung(nodes, p, q.value);
    }
  }

  // Printing ------------------------------------------------------------------

  datatype Line = Line(node: nat, depth: nat)

  predicate Within(list: seq<nat>, low: nat, n: nat) {
    forall k | 0 <= k < |list| :: low <= list[k] < n
  }

  /** Links go from earlier to later nodes. */
  predicate Downward(children: seq<seq<nat>>) {
    forall p | 0 <= p < |children| :: Within(children[p], p + 1, |children|)
  }

  function PrintTree(children: seq<seq<nat>>, j: nat, depth: nat): seq<Line>
    requires Downward(children) && j < |children|
    decreases |children| - j, 0
  {
    [Line(j, depth)] + PrintForest(children, children[j], j + 1, depth + 1)
  }

  /** The lines of the listed trees; all of them are rooted at `low` or later. */
  function PrintForest(children: seq<seq<nat>>, list: seq<nat>, low: nat, depth: nat): seq<Line>
    requires Downward(children) && Within(list, low, |children|) && low <= |children|
    decreases |children| - low, |list| + 1
  {
    if list == [] then []
    else PrintTree(children, list[0], depth) + PrintForest(children, list[1..], low, depth)
  }

  lemma ForestIsDownward(nodes: seq<Node>, roots: seq<nat>, children: seq<seq<nat>>)
    requires IsForest(nodes, |nodes|, roots, children)
    ensures Downward(children) && Within(roots, 0, |nodes|)
  {
    hide ParentOf;
    forall p, k | 0 <= p < |children| && 0 <= k < |children[p]|
      ensures p < children[p][k] < |children|
    {
      assert children[p][k] in multiset(children[p]);
    }
    forall k | 0 <= k < |roots|
      ensures roots[k] < |nodes|
    {
      assert roots[k] in multiset(roots);
    }
  }

  /** How many of the listed nodes cover `i`. */
  function Covering(nodes: seq<Node>, list: seq<nat>, i: nat): nat
    requires i < |nodes|
  {
    if list == [] then 0
    else (if Covers(nodes, list[0], i) then 1 else 0) + Covering(nodes, list[1..], i)
  }

  lemma {:induction false} CoveringByOne(nodes: seq<Node>, list: seq<nat>, i: nat, t: nat)
    requires i < |nodes|
    requires forall c | c in list :: Covers(nodes, c, i) <==> c == t
    ensures Covering(nodes, list, i) == multiset(list)[t]
  {
    hide Covers;
    if list != [] {
      CoveringByOne(nodes, list[1..], i, t);
      assert list == [list[0]] + list[1..];
    }
  }

  lemma {:induction false} CoveringByNone(nodes: seq<Node>, list: seq<nat>, i: nat)
    requires i < |nodes|
    requires forall c | c in list :: !Covers(nodes, c, i)
    ensures Covering(nodes, list, i) == 0
  {
    hide Covers;
    if list != [] {
      CoveringByNone(nodes, list[1..], i);
    }
  }

  /** Of the nodes hung under `p`, one covers `i` if `i` lies strictly below `p`, else none. */
  lemma CoveringChildren(nodes: seq<Node>, list: seq<nat>, p: Option<nat>, i: nat)
    requires i < |nodes| && Collects(nodes, |nodes|, list, p)
    ensures Covering(nodes, list, i) ==
      if p.None? || (p.value != i && Covers(nodes, p.value, i)) then 1 else 0
  {
    hide Covers, Toward, ParentOf, Covering;
    var t := Toward(nodes, p, i);
    forall c | c in list
      ensures c < |nodes| && ParentOf(nodes, c) == p
    {
      assert multiset(list)[c] > 0;
    }
    forall c | c in list
      ensures Covers(nodes, c, i) <==> c == t && (p.None? || (p.value != i && Covers(nodes, p.value, i)))
    {
      OneWayDown(nodes, p, c, i);
    }
    if p.None? || (p.value != i && Covers(nodes, p.value, i)) {
      TowardIsHung(nodes, p, i);
      CoveringByOne(nodes, list, i, t);
    } else {
      CoveringByNone(nodes, list, i);
    }
  }

  ghost predicate AllAt(nodes: seq<Node>, list: seq<nat>, depth: nat) {
    forall k | 0 <= k < |list| :: list[k] < |nodes| && Depth(nodes, list[k]) == depth
  }

  lemma ChildrenAreDeeper(nodes: seq<Node>, list: seq<nat>, p: Option<nat>)
    requires Collects(nodes, |nodes|, list, p) && (p.Some? ==> p.value < |nodes|)
    ensures AllAt(nodes, list, if p.None? then 0 else Depth(nodes, p.value) + 1)
  {
    hide ParentOf;
    forall k | 0 <= k < |list|
      ensures list[k] < |nodes| && ParentOf(nodes, list[k]) == p
    {
      assert list[k] in multiset(list);
    }
  }

  /** A printed tree has a line for exactly the nodes its root covers, each once and at its
      depth. */
  lemma {:induction false} TreeLines(nodes: seq<Node>, roots: seq<nat>, children: seq<seq<nat>>,
                                     j: nat, i: nat, depth: nat)
    requires IsForest(nodes, |nodes|, roots, children) && Downward(children)
    requires j < |nodes| && i < |nodes|
    ensures multiset(PrintTree(children, j, Depth(nodes, j)))[Line(i, depth)] ==
      if Covers(nodes, j, i) && depth == Depth(nodes, i) then 1 else 0
    decreases |children| - j, 0
  {
    hide Collects, Covering, Depth, PrintForest;
    var d := Depth(nodes, j);
    ChildrenAreDeeper(nodes, children[j], Some(j));
    ForestLines(nodes, roots, children, children[j], j + 1, d + 1, i, depth);
    CoveringChildren(nodes, children[j], Some(j), i);
  }

  lemma {:induction false} ForestLines(nodes: seq<Node>, roots: seq<nat>, children: seq<seq<nat>>,
                                       list: seq<nat>, low: nat, d: nat, i: nat, depth: nat)
    requires IsForest(nodes, |nodes|, roots, children) && Downward(children)
    requires Within(list, low, |children|) && low <= |children| && i < |nodes|
    requires AllAt(nodes, list, d)
    ensures multiset(PrintForest(children, list, low, d))[Line(i, depth)] ==
      if depth == Depth(nodes, i) then Covering(nodes, list, i) else 0
    decreases |children| - low, |list| + 1
  {
    hide Collects, Covers, Depth, PrintTree;
    if list != [] {
      TreeLines(nodes, roots, children, list[0], i, depth);
      ForestLines(nodes, roots, children, list[1..], low, d, i, depth);
    }
  }

  /** Every listed node is printed exactly once, indented by the number of its ancestors,
      however siblings are ordered. */
  lemma EveryNodeOnce(nodes: seq<Node>, roots: seq<nat>, children: seq<seq<nat>>, i: nat, depth: nat)
    requires IsForest(nodes, |nodes|, roots, children) && i < |nodes|
    ensures Downward(children) && Within(roots, 0, |children|)
    ensures multiset(PrintForest(children, roots, 0, 0))[Line(i, depth)] ==
      if depth == Depth(nodes, i) then 1 else 0
  {
    ForestIsDownward(nodes, roots, children);
    ChildrenAreDeeper(nodes, roots, None);
    ForestLines(nodes, roots, children, roots, 0, 0, i, depth);
    CoveringChildren(nodes, roots, None, i);
  }

  // Indentation ---------------------------------------------------------------

  /** Reading upwards from line `k`, the first line indented less is the line of `p`, one
      level out. */
  ghost predicate Under(lines: seq<Line>, k: nat, p: nat)
    requires k < |lines|
  {
    exists m: nat | m < k ::
      && lines[m].node == p
      && lines[m].depth + 1 == lines[k].depth
      && forall q | m < q < k :: lines[q].depth >= lines[k].depth
  }

  predicate NotAbove(lines: seq<Line>, depth: nat) {
    forall k | 0 <= k < |lines| :: lines[k].depth >= depth
  }

  lemma UnderInContext(before: seq<Line>, lines: seq<Line>, after: seq<Line>, k: nat, p: nat)
    requires k < |lines| && Under(lines, k, p)
    ensures Under(before + lines + after, |before| + k, p)
  {
    var m: nat :| m < k && lines[m].node == p && lines[m].depth + 1 == lines[k].depth
      && forall q | m < q < k :: lines[q].depth >= lines[k].depth;
    var all := before + lines + after;
    assert all[|before| + m] == lines[m] && all[|before| + k] == lines[k];
    forall q | |before| + m < q < |before| + k
      ensures all[q].depth >= all[|before| + k].depth
    {
      assert all[q] == lines[q - |before|];
    }
  }

  /** Line `k` of a printed forest is a root of it or stands under its parent. */
  ghost predicate WellPlaced(nodes: seq<Node>, list: seq<nat>, depth: nat, lines: seq<Line>, k: nat)
    requires k < |lines|
  {
    var line := lines[k];
    || (line.depth == depth && line.node in list)
    || (line.node < |nodes| && ParentOf(nodes, line.node).Some?
        && Under(lines, k, ParentOf(nodes, line.node).value))
  }

  lemma {:induction false} TreeIsIndented(nodes: seq<Node>, roots: seq<nat>, children: seq<seq<nat>>,
                                          j: nat, depth: nat, k: nat)
    requires IsForest(nodes, |nodes|, roots, children) && Downward(children) && j < |nodes|
    requires k < |PrintTree(children, j, depth)|
    ensures NotAbove(PrintTree(children, j, depth), depth)
    ensures WellPlaced(nodes, [j], depth, PrintTree(children, j, depth), k)
    decreases |children| - j, 0
  {
    hide ParentOf, PrintForest;
    var first, rest := [Line(j, depth)], PrintForest(children, children[j], j + 1, depth + 1);
    var lines := first + rest;
    if rest != [] {
      var r: nat := if k == 0 then 0 else k - 1;
      ForestIsIndented(nodes, roots, children, children[j], j + 1, depth + 1, r);
      var node := rest[r].node;
      if rest[r].depth == depth + 1 && node in children[j] {
        assert multiset(children[j])[node] > 0;
        assert lines[r + 1] == rest[r];
        assert lines[0].node == j && forall q | 0 < q < r + 1 :: lines[q] == rest[q - 1];
        assert Under(lines, r + 1, j);
      } else {
        UnderInContext(first, rest, [], r, ParentOf(nodes, node).value);
        assert first + rest + [] == lines;
      }
    }
  }

  lemma {:induction false} ForestIsIndented(nodes: seq<Node>, roots: seq<nat>, children: seq<seq<nat>>,
                                            list: seq<nat>, low: nat, depth: nat, k: nat)
    requires IsForest(nodes, |nodes|, roots, children) && Downward(children)
    requires Within(list, low, |children|) && low <= |children|
    requires k < |PrintForest(children, list, low, depth)|
    ensures NotAbove(PrintForest(children, list, low, depth), depth)
    ensures WellPlaced(nodes, list, depth, PrintForest(children, list, low, depth), k)
    decreases |children| - low, |list| + 1
  {
    hide ParentOf, PrintTree, Collects, Under;
    var tree := PrintTree(children, list[0], depth);
    var rest := PrintForest(children, list[1..], low, depth);
    assert |tree| > 0 by {
      TreeIsNotEmpty(children, list[0], depth);
    }
    TreeIsIndented(nodes, roots, children, list[0], depth, if k < |tree| then k else 0);
    if rest != [] {
      ForestIsIndented(nodes, roots, children, list[1..], low, depth, if k < |tree| then 0 else k - |tree|);
    }
    if k < |tree| {
      assert (tree + rest)[k] == tree[k] && [] + tree + rest == tree + rest;
      if tree[k].node != list[0] || tree[k].depth != depth {
        UnderInContext([], tree, rest, k, ParentOf(nodes, tree[k].node).value);
      }
    } else {
      var r := k - |tree|;
      assert (tree + rest)[k] == rest[r] && tree + rest + [] == tree + rest;
      if rest[r].node !in list[1..] || rest[r].depth != depth {
        UnderInContext(tree, rest, [], r, ParentOf(nodes, rest[r].node).value);
      }
    }
  }

  lemma TreeIsNotEmpty(children: seq<seq<nat>>, j: nat, depth: nat)
    requires Downward(children) && j < |children|
    ensures PrintTree(children, j, depth) != []
  {
  }

  /** The printed tree can be read back: the nearest line above that is indented less is the
      parent, and lines without indentation are exactly those of nodes without a parent. */
  lemma IndentationShowsParents(nodes: seq<Node>, roots: seq<nat>, children: seq<seq<nat>>, k: nat)
    requires IsForest(nodes, |nodes|, roots, children) && Downward(children) && Within(roots, 0, |children|)
    requires k < |PrintForest(children, roots, 0, 0)|
    ensures var lines := PrintForest(children, roots, 0, 0);
      && lines[k].node < |nodes|
      && match ParentOf(nodes, lines[k].node)
         case None => lines[k].depth == 0
         case Some(p) => Under(lines, k, p)
  {
    hide PrintForest, Under;
    var lines := PrintForest(children, roots, 0, 0);
    ForestIsIndented(nodes, roots, children, roots, 0, 0, k);
    if lines[k].node in roots {
      assert multiset(roots)[lines[k].node] > 0;
    }
  }

  // Keys ----------------------------------------------------------------------

  /** What sorting by the key comparison leaves: no node compares before an earlier one. */
  predicate SortedByKey(nodes: seq<Node>) {
    forall i, j | 0 <= i < j < |nodes| :: !KeySort(nodes[j].key, nodes[i].key)
  }

  predicate DistinctKeys(nodes: seq<Node>) {
    forall i, j | 0 <= i < j < |nodes| :: nodes[i].key != nodes[j].key
  }

  lemma {:induction false} LessReflexive(a: seq<string>)
    ensures Less(a, a)
  {
    if a != [] {
      LessReflexive(a[1..]);
    }
  }

  /** In a sorted list every node hangs under the listed node that has its parent key. */
  lemma ParentsAreFound(nodes: seq<Node>, i: nat, p: nat)
    requires SortedByKey(nodes) && i < |nodes| && p < |nodes|
    ensures DistinctKeys(nodes)
    ensures ParentOf(nodes, i) == Some(p) <==> Parent(nodes[i].key) == Some(nodes[p].key)
  {
    forall a, b | 0 <= a < b < |nodes|
      ensures nodes[a].key != nodes[b].key
    {
      LessReflexive(Split(nodes[a].key));
    }
    if Parent(nodes[i].key) == Some(nodes[p].key) {
      ParentSortsFirst(nodes[i].key);
    }
  }

  /** The number shown for each key. */
  method IndexKeys(nodes: seq<Node>) returns (index: map<string, nat>)
    ensures IsTreeMap(nodes, |nodes|, index)
  {
    index := map[];
    for i := 0 to |nodes|
      invariant IsTreeMap(nodes, i, index)
    {
      AddedToMap(nodes, i, index);
      index := index[nodes[i].key := i];
    }
  }

  /** What `g` followed by a number selects. */
  function Selected(nodes: seq<Node>, number: int): Option<Node> {
    if 0 < number <= |nodes| then Some(nodes[number - 1]) else None
  }

  /** The number printed beside a node selects a node with its key; it selects the node itself,
      for every node of the list, exactly when no key is listed twice. */
  lemma NumbersSelect(nodes: seq<Node>, index: map<string, nat>)
    requires IsTreeMap(nodes, |nodes|, index)
    ensures forall i | 0 <= i < |nodes| ::
      && nodes[i].key in index
      && Selected(nodes, index[nodes[i].key] + 1).Some?
      && Selected(nodes, index[nodes[i].key] + 1).value.key == nodes[i].key
    ensures DistinctKeys(nodes) <==>
      forall i | 0 <= i < |nodes| :: nodes[i].key in index && index[nodes[i].key] == i
  {
    forall i | 0 <= i < |nodes|
      ensures nodes[i].key in index && LastBefore(nodes, nodes[i].key, |nodes|) == Some(index[nodes[i].key])
    {
      assert LastBefore(nodes, nodes[i].key, |nodes|).Some?;
    }
  }
}
