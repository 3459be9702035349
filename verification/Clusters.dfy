/**
 Tag clustering: items whose tag sets are similar enough are joined, and the
 connected components that are large enough become clusters.
 */
module Clusters {
  import opened Forest
  import opened Text

  /** One scored queue item; topicTags is the raw tag column. */
  datatype Item = Item(id: int, topicTags: string)

  /** parseTags, whose JSON decoding is a library call. */
  type TagParser = string -> seq<string>

  // ---------------------------------------------------------------- similarity

  /** The Jaccard index of two tag sets, 0 when both are empty. */
  ghost function Jaccard(a: set<string>, b: set<string>): real {
    if a + b == {} then 0.0 else |a * b| as real / |a + b| as real
  }

  lemma JaccardSymmetric(a: set<string>, b: set<string>)
    ensures Jaccard(a, b) == Jaccard(b, a)
  {
    assert a + b == b + a && a * b == b * a;
  }

  method TagSet(tags: seq<string>) returns (s: set<string>)
    ensures s == Elements(tags)
  {
    s := {};
    for i := 0 to |tags|
      invariant s == Elements(tags[..i])
    {
      s := s + {tags[i]};
    }
    assert tags[..|tags|] == tags;
  }

  lemma OneMoreCommon(counted: set<string>, b: set<string>, t: string)
    requires t !in counted
    ensures |(counted + {t}) * b| == |counted * b| + if t in b then 1 else 0
  {
    assert (counted + {t}) * b == if t in b then counted * b + {t} else counted * b;
  }

  /** How many members of `a` are also in `b`, counted one by one in any order. */
  method CountCommon(a: set<string>, b: set<string>) returns (count: nat)
    ensures count == |a * b|
  {
    count := 0;
    var rest := a;
    ghost var counted: set<string> := {};
    while rest != {}
      invariant counted + rest == a && counted !! rest
      invariant count == |counted * b|
      decreases |rest|
    {
      var t :| t in rest;
      OneMoreCommon(counted, b, t);
      if t in b {
        count := count + 1;
      }
      rest, counted := rest - {t}, counted + {t};
    }
    assert counted == a;
  }

  method JaccardSimilarity(a: seq<string>, b: seq<string>) returns (r: real)
    ensures r == Jaccard(Elements(a), Elements(b))
  {
    if |a| == 0 && |b| == 0 {
      return 0.0;
    }
    var setA := TagSet(a);
    var setB := TagSet(b);
    assert (if a != [] then a[0] in setA else b[0] in setB);
    var intersection := CountCommon(setA, setB);
    var union := |setA| + |setB| - intersection;
    assert union == |setA + setB|;
    if union == 0 {
      return 0.0;
    }
    r := intersection as real / union as real;
  }

  /** The index is a similarity: within [0,1], 1 exactly on equal non-empty sets, 0 exactly on disjoint ones. */
  lemma JaccardRange(a: set<string>, b: set<string>)
    ensures 0.0 <= Jaccard(a, b) <= 1.0
    ensures Jaccard(a, b) == 1.0 <==> a == b != {}
    ensures Jaccard(a, b) == 0.0 <==> a !! b
  {
    var common, rest := a * b, (a + b) - a * b;
    assert a + b == common + rest;
    assert |a + b| == |common| + |rest|;
    if a + b != {} {
      RatioRange(|common|, |a + b|);
      assert rest == {} <==> a == b;
    }
  }

  lemma RatioRange(n: nat, d: nat)
    requires n <= d && d > 0
    ensures 0.0 <= n as real / d as real <= 1.0
    ensures n as real / d as real == 1.0 <==> n == d
    ensures n as real / d as real == 0.0 <==> n == 0
  {
  }

  // ------------------------------------------------------------ linked items

  /** Items i and j are joined directly: both have tags and they are similar enough. */
  ghost predicate Edge(tags: seq<seq<string>>, threshold: real, i: nat, j: nat) {
    && i < |tags| && j < |tags| && i != j
    && tags[i] != [] && tags[j] != []
    && Jaccard(Elements(tags[i]), Elements(tags[j])) >= threshold
  }

  /** Counted out: the shared tags are at least the threshold's part of all their tags. */
  lemma EdgeIff(tags: seq<seq<string>>, threshold: real, i: nat, j: nat)
    ensures Edge(tags, threshold, i, j) <==>
            && i < |tags| && j < |tags| && i != j && |tags[i]| > 0 && |tags[j]| > 0
            && |Elements(tags[i]) * Elements(tags[j])| as real >=
               threshold * |Elements(tags[i]) + Elements(tags[j])| as real
  {
    hide Jaccard, Elements;
    if i < |tags| && j < |tags| && tags[i] != [] {
      HasElements(tags[i]);
      JaccardAtLeast(Elements(tags[i]), Elements(tags[j]), threshold);
    }
  }

  lemma HasElements(tags: seq<string>)
    requires tags != []
    ensures Elements(tags) != {}
  {
    assert tags[0] in Elements(tags);
  }

  lemma JaccardAtLeast(a: set<string>, b: set<string>, threshold: real)
    requires a != {}
    ensures Jaccard(a, b) >= threshold <==> |a * b| as real >= threshold * |a + b| as real
  {
    var t :| t in a;
    assert t in a + b;
    RatioAtLeast(|a * b|, |a + b|, threshold);
  }

  lemma RatioAtLeast(n: nat, d: nat, threshold: real)
    requires d > 0
    ensures n as real / d as real >= threshold <==> n as real >= threshold * d as real
  {
    var q := n as real / d as real;
    assert q * d as real == n as real;
  }

  /** A chain of directly joined items. */
  ghost predicate IsChain(tags: seq<seq<string>>, threshold: real, path: seq<nat>) {
    && path != []
    && (forall k :: 0 <= k < |path| ==> path[k] < |tags|)
    && (forall k :: 0 < k < |path| ==> Edge(tags, threshold, path[k - 1], path[k]))
  }

  ghost predicate ChainFromTo(tags: seq<seq<string>>, threshold: real, path: seq<nat>, i: nat, j: nat) {
    IsChain(tags, threshold, path) && path[0] == i && path[|path| - 1] == j
  }

  /** Some chain of edges leads from i to j. */
  ghost predicate Linked(tags: seq<seq<string>>, threshold: real, i: nat, j: nat) {
    exists path :: ChainFromTo(tags, threshold, path, i, j)
  }

  lemma LinkedReflexive(tags: seq<seq<string>>, threshold: real, i: nat)
    requires i < |tags|
    ensures Linked(tags, threshold, i, i)
  {
    assert ChainFromTo(tags, threshold, [i], i, i);
  }

  lemma LinkedTransitive(tags: seq<seq<string>>, threshold: real, i: nat, j: nat, k: nat)
    requires Linked(tags, threshold, i, j) && Linked(tags, threshold, j, k)
    ensures Linked(tags, threshold, i, k)
  {
    var p :| ChainFromTo(tags, threshold, p, i, j);
    var q :| ChainFromTo(tags, threshold, q, j, k);
    assert ChainFromTo(tags, threshold, p + q[1..], i, k);
  }

  lemma LinkedSymmetric(tags: seq<seq<string>>, threshold: real, i: nat, j: nat)
    requires Linked(tags, threshold, i, j)
    ensures Linked(tags, threshold, j, i)
  {
    var p :| ChainFromTo(tags, threshold, p, i, j);
    var q := seq(|p|, k requires 0 <= k < |p| => p[|p| - 1 - k]);
    forall k | 0 < k < |q| ensures Edge(tags, threshold, q[k - 1], q[k]) {
      var m := |p| - k;
      assert Edge(tags, threshold, p[m - 1], p[m]);
      JaccardSymmetric(Elements(tags[p[m - 1]]), Elements(tags[p[m]]));
    }
    assert ChainFromTo(tags, threshold, q, j, i);
  }

  lemma EdgeIsLink(tags: seq<seq<string>>, threshold: real, i: nat, j: nat)
    requires Edge(tags, threshold, i, j)
    ensures Linked(tags, threshold, i, j)
  {
    assert ChainFromTo(tags, threshold, [i, j], i, j);
  }

  /** Raising the threshold only ever splits clusters: links at t are links at every lower threshold. */
  lemma LowerThresholdKeepsLinks(tags: seq<seq<string>>, t: real, lower: real, i: nat, j: nat)
    requires lower <= t && Linked(tags, t, i, j)
    ensures Linked(tags, lower, i, j)
  {
    var p :| ChainFromTo(tags, t, p, i, j);
    assert ChainFromTo(tags, lower, p, i, j);
  }

  // --------------------------------------------------------------- components

  /** `group` lists, in increasing order, exactly the items linked to any one of its members. */
  ghost predicate IsComponent(tags: seq<seq<string>>, threshold: real, group: seq<nat>) {
    && group != []
    && Increasing(group)
    && (forall i :: i in group ==> i < |tags|)
    && (forall i, j: nat :: i in group && j < |tags| ==> (j in group <==> Linked(tags, threshold, i, j)))
  }

  ghost predicate Increasing(group: seq<nat>) {
    forall a, b :: 0 <= a < b < |group| ==> group[a] < group[b]
  }

  lemma {:induction false} IncreasingFits(group: seq<nat>, n: nat)
    requires Increasing(group) && forall i :: i in group ==> i < n
    ensures |group| <= n
  {
    if group != [] {
      var last := group[|group| - 1];
      var front := group[..|group| - 1];
      assert last in group;
      IncreasingFits(front, last);
    }
  }

  lemma IncreasingTail(a: seq<nat>)
    requires Increasing(a) && a != []
    ensures forall i :: i in a ==> a[0] <= i
    ensures forall i :: i in a[1..] <==> i in a && i != a[0]
  {
    assert a == [a[0]] + a[1..];
    forall i | i in a[1..] ensures i != a[0] {
      var k :| 0 <= k < |a| - 1 && a[1..][k] == i;
      assert a[0] < a[k + 1];
    }
  }

  lemma {:induction false} IncreasingUnique(a: seq<nat>, b: seq<nat>)
    requires Increasing(a) && Increasing(b)
    requires forall i :: i in a <==> i in b
    ensures a == b
  {
    if a == [] {
      assert forall k :: 0 <= k < |b| ==> b[k] in a;
    } else {
      assert a[0] in b;
      IncreasingTail(a);
      IncreasingTail(b);
      assert b[0] in a;
      IncreasingUnique(a[1..], b[1..]);
      assert a == [a[0]] + a[1..] && b == [b[0]] + b[1..];
    }
  }

  /** Two components sharing an item are one component. */
  lemma ComponentsShareNothing(tags: seq<seq<string>>, threshold: real, a: seq<nat>, b: seq<nat>, i: nat)
    requires IsComponent(tags, threshold, a) && IsComponent(tags, threshold, b)
    requires i in a && i in b
    ensures a == b
  {
    forall j: nat ensures j in a <==> j in b {
      assert j < |tags| ==> (j in a <==> Linked(tags, threshold, i, j));
    }
    IncreasingUnique(a, b);
  }

  /** `groups` holds every component of at least minItems items, each once, and nothing else. */
  ghost predicate AreTheClusters(tags: seq<seq<string>>, threshold: real, minItems: int, groups: seq<seq<nat>>) {
    && (forall g :: g in groups <==> IsComponent(tags, threshold, g) && |g| >= minItems)
    && (forall k, l :: 0 <= k < l < |groups| ==> groups[k] != groups[l])
  }

  function Pick(items: seq<Item>, group: seq<nat>): (picked: seq<Item>)
    requires forall i :: i in group ==> i < |items|
    ensures |picked| == |group|
    ensures forall k :: 0 <= k < |group| ==> group[k] in group && picked[k] == items[group[k]]
  {
    seq(|group|, k requires 0 <= k < |group| => assert group[k] in group; items[group[k]])
  }

  ghost function ParsedTags(items: seq<Item>, parseTags: TagParser): seq<seq<string>> {
    seq(|items|, i requires 0 <= i < |items| => parseTags(items[i].topicTags))
  }

  // ------------------------------------------------------------ buildClusters

  /** The forest says the same about i and j as the chains of edges do, as far as the edges were seen. */
  ghost predicate Sound(tags: seq<seq<string>>, threshold: real, p: seq<nat>, depth: seq<nat>)
    requires IsForest(p, depth) && |p| == |tags|
  {
    forall i: nat, j: nat :: i < |p| && j < |p| && Root(p, depth, i) == Root(p, depth, j) ==>
      Linked(tags, threshold, i, j)
  }

  ghost predicate Joined(p: seq<nat>, depth: seq<nat>, i: nat, j: nat)
    requires IsForest(p, depth) && i < |p| && j < |p|
  {
    Root(p, depth, i) == Root(p, depth, j)
  }

  /** Every edge among the pairs already visited is inside one class. */
  ghost predicate Covers(tags: seq<seq<string>>, threshold: real, p: seq<nat>, depth: seq<nat>, i: nat, j: nat)
    requires IsForest(p, depth) && |p| == |tags|
  {
    forall a: nat, b: nat :: a < b < |p| && (a < i || (a == i && b < j)) && Edge(tags, threshold, a, b) ==>
      Joined(p, depth, a, b)
  }

  /** Joining the two ends of an edge keeps the classes sound. */
  lemma JoiningAnEdgeIsSound(tags: seq<seq<string>>, threshold: real, p: seq<nat>, d: seq<nat>, q: seq<nat>,
      e: seq<nat>, a: nat, b: nat)
    requires IsForest(p, d) && IsForest(q, e) && |p| == |q| == |tags| && a < |p| && b < |p|
    requires Sound(tags, threshold, p, d) && Edge(tags, threshold, a, b)
    requires forall i :: 0 <= i < |p| ==>
               Root(q, e, i) == if Root(p, d, i) == Root(p, d, a) then Root(p, d, b) else Root(p, d, i)
    ensures Sound(tags, threshold, q, e)
  {
    EdgeIsLink(tags, threshold, a, b);
    LinkedSymmetric(tags, threshold, a, b);
    forall i: nat, j: nat | i < |p| && j < |p| && Root(q, e, i) == Root(q, e, j)
      ensures Linked(tags, threshold, i, j)
    {
      if Root(p, d, i) != Root(p, d, j) {
        var (x, y) := if Root(p, d, i) == Root(p, d, a) then (a, b) else (b, a);
        assert Root(p, d, i) == Root(p, d, x) && Root(p, d, j) == Root(p, d, y);
        LinkedTransitive(tags, threshold, i, x, y);
        LinkedTransitive(tags, threshold, i, y, j);
      }
    }
  }

  /** If every edge is inside one class, so is every chain. */
  lemma {:induction false} ChainsStayInOneClass(tags: seq<seq<string>>, threshold: real, p: seq<nat>, d: seq<nat>,
      path: seq<nat>)
    requires IsForest(p, d) && |p| == |tags|
    requires Covers(tags, threshold, p, d, |p|, 0)
    requires IsChain(tags, threshold, path)
    ensures Joined(p, d, path[0], path[|path| - 1])
  {
    if |path| > 1 {
      var front := path[..|path| - 1];
      ChainsStayInOneClass(tags, threshold, p, d, front);
      var a, b := path[|path| - 2], path[|path| - 1];
      assert Edge(tags, threshold, a, b);
      JaccardSymmetric(Elements(tags[a]), Elements(tags[b]));
      assert Edge(tags, threshold, b, a);
      assert if a < b then Joined(p, d, a, b) else Joined(p, d, b, a);
    }
  }

  lemma SingletonsAreSound(tags: seq<seq<string>>, threshold: real, p: seq<nat>, depth: seq<nat>)
    requires IsForest(p, depth) && |p| == |tags| && forall i :: 0 <= i < |p| ==> p[i] == i
    ensures Sound(tags, threshold, p, depth)
  {
    forall i: nat | i < |p| ensures Linked(tags, threshold, i, i) { LinkedReflexive(tags, threshold, i); }
  }

  method JoinEdges(parent: array<nat>, ghost depth0: seq<nat>, tags: seq<seq<string>>, threshold: real)
    returns (ghost depth: seq<nat>)
    requires parent.Length == |tags|
    requires IsForest(parent[..], depth0) && forall i :: 0 <= i < parent.Length ==> parent[i] == i
    modifies parent
    ensures IsForest(parent[..], depth)
    ensures forall i: nat, j: nat :: i < |tags| && j < |tags| ==>
              (Joined(parent[..], depth, i, j) <==> Linked(tags, threshold, i, j))
  {
    hide Root, Jaccard, Linked, IsForest;
    var n := parent.Length;
    depth := depth0;
    SingletonsAreSound(tags, threshold, parent[..], depth);
    for i := 0 to n
      invariant IsForest(parent[..], depth)
      invariant Sound(tags, threshold, parent[..], depth)
      invariant Covers(tags, threshold, parent[..], depth, i, 0)
    {
      if |tags[i]| == 0 {
        continue;
      }
      for j := i + 1 to n
        invariant IsForest(parent[..], depth)
        invariant Sound(tags, threshold, parent[..], depth)
        invariant Covers(tags, threshold, parent[..], depth, i, j)
      {
        if |tags[j]| == 0 {
          continue;
        }
        var similarity := JaccardSimilarity(tags[i], tags[j]);
        if similarity >= threshold {
          ghost var p, d := parent[..], depth;
          depth := Union(parent, depth, i, j);
          JoiningAnEdgeIsSound(tags, threshold, p, d, parent[..], depth, i, j);
        }
      }
    }
    forall i: nat, j: nat | i < n && j < n && Linked(tags, threshold, i, j) ensures Joined(parent[..], depth, i, j) {
      LinkedAreJoined(tags, threshold, parent[..], depth, i, j);
    }
  }

  lemma LinkedAreJoined(tags: seq<seq<string>>, threshold: real, p: seq<nat>, d: seq<nat>, i: nat, j: nat)
    requires IsForest(p, d) && |p| == |tags| && i < |p| && j < |p|
    requires Covers(tags, threshold, p, d, |p|, 0) && Linked(tags, threshold, i, j)
    ensures Joined(p, d, i, j)
  {
    var path :| ChainFromTo(tags, threshold, path, i, j);
    ChainsStayInOneClass(tags, threshold, p, d, path);
  }

  /** `list` holds, in order, the items seen so far whose root is r. */
  ghost predicate IsClassSoFar(list: seq<nat>, roots: seq<nat>, r: nat, seen: nat)
    requires seen <= |roots|
  {
    Increasing(list) && forall i: nat :: i in list <==> i < seen && roots[i] == r
  }

  /** The components map lists, for each root, the items seen so far below it. */
  ghost predicate Collected(components: map<nat, seq<nat>>, roots: seq<nat>, seen: nat)
    requires seen <= |roots|
  {
    && (forall i :: 0 <= i < seen ==> roots[i] in components)
    && (forall r :: r in components ==> components[r] != [] && IsClassSoFar(components[r], roots, r, seen))
  }

  lemma ClassGrows(list: seq<nat>, roots: seq<nat>, r: nat, i: nat)
    requires i < |roots| && IsClassSoFar(list, roots, r, i)
    ensures IsClassSoFar(if roots[i] == r then list + [i] else list, roots, r, i + 1)
  {
    assert forall k :: 0 <= k < |list| ==> list[k] in list;
  }

  function Appended(components: map<nat, seq<nat>>, root: nat, i: nat): map<nat, seq<nat>> {
    components[root := (if root in components then components[root] else []) + [i]]
  }

  lemma CollectNext(components: map<nat, seq<nat>>, roots: seq<nat>, i: nat)
    requires i < |roots| && Collected(components, roots, i)
    ensures Collected(Appended(components, roots[i], i), roots, i + 1)
  {
    hide IsClassSoFar;
    var after := Appended(components, roots[i], i);
    forall r | r in after ensures after[r] != [] && IsClassSoFar(after[r], roots, r, i + 1) {
      var before := if r in components then components[r] else [];
      assert IsClassSoFar(before, roots, r, i) by {
        if r !in components { NothingSoFar(components, roots, r, i); }
      }
      ClassGrows(before, roots, r, i);
    }
  }

  lemma NothingSoFar(components: map<nat, seq<nat>>, roots: seq<nat>, r: nat, i: nat)
    requires i <= |roots| && Collected(components, roots, i) && r !in components
    ensures IsClassSoFar([], roots, r, i)
  {
  }

  /** A fully collected class is a component, and every component is a collected class. */
  lemma CollectedAreComponents(tags: seq<seq<string>>, threshold: real, components: map<nat, seq<nat>>, roots: seq<nat>)
    requires |roots| == |tags| && Collected(components, roots, |roots|)
    requires forall i: nat, j: nat :: i < |tags| && j < |tags| ==>
             (roots[i] == roots[j] <==> Linked(tags, threshold, i, j))
    ensures forall r :: r in components ==> IsComponent(tags, threshold, components[r])
    ensures forall g :: IsComponent(tags, threshold, g) ==>
            g[0] < |roots| && roots[g[0]] in components && components[roots[g[0]]] == g
  {
    forall g | IsComponent(tags, threshold, g)
      ensures g[0] < |roots| && roots[g[0]] in components && components[roots[g[0]]] == g
    {
      assert g[0] in g;
      var c := components[roots[g[0]]];
      assert g[0] in c;
      ComponentsShareNothing(tags, threshold, c, g, g[0]);
    }
  }

  method CollectComponents(parent: array<nat>, ghost depth: seq<nat>)
    returns (components: map<nat, seq<nat>>, ghost roots: seq<nat>)
    requires IsForest(parent[..], depth)
    modifies parent
    ensures |roots| == parent.Length
    ensures forall i :: 0 <= i < |roots| ==> roots[i] == Root(old(parent[..]), depth, i)
    ensures Collected(components, roots, |roots|)
  {
    var n := parent.Length;
    ghost var joined := parent[..];
    roots := seq(n, i requires 0 <= i < n => Root(joined, depth, i));
    components := map[];
    for i := 0 to n
      invariant IsForest(parent[..], depth)
      invariant forall j :: 0 <= j < n ==> Root(parent[..], depth, j) == roots[j]
      invariant Collected(components, roots, i)
    {
      var root: nat := Find(parent, depth, i);
      CollectNext(components, roots, i);
      components := Appended(components, root, i);
    }
  }

  /** The classes of at least minItems items among those of the given roots. */
  ghost predicate AreLargeClasses(components: map<nat, seq<nat>>, done: set<nat>, minItems: int,
      groups: seq<seq<nat>>) {
    && (forall g :: g in groups <==> |g| >= minItems && exists r :: r in done && r in components && components[r] == g)
    && (forall k, l :: 0 <= k < l < |groups| ==> groups[k] != groups[l])
  }

  lemma NextClass(components: map<nat, seq<nat>>, done: set<nat>, minItems: int, groups: seq<seq<nat>>, root: nat)
    requires AreLargeClasses(components, done, minItems, groups) && root in components && root !in done
    requires forall r, q :: r in components && q in components && r != q ==> components[r] != components[q]
    ensures AreLargeClasses(components, done + {root}, minItems,
                            if |components[root]| >= minItems then groups + [components[root]] else groups)
  {
    assert components[root] !in groups;
    assert forall k :: 0 <= k < |groups| ==> groups[k] in groups;
  }

  /** Each cluster holds the items of its group, in the original order. */
  ghost predicate AreItemsOf(items: seq<Item>, clusters: seq<seq<Item>>, groups: seq<seq<nat>>) {
    && |clusters| == |groups|
    && forall k :: 0 <= k < |groups| ==>
         (forall i :: i in groups[k] ==> i < |items|) && clusters[k] == Pick(items, groups[k])
  }

  lemma OneMoreCluster(items: seq<Item>, clusters: seq<seq<Item>>, groups: seq<seq<nat>>, group: seq<nat>)
    requires AreItemsOf(items, clusters, groups) && forall i :: i in group ==> i < |items|
    ensures AreItemsOf(items, clusters + [Pick(items, group)], groups + [group])
  {
  }

  /** Lists of items, no two alike. */
  ghost predicate AreClasses(components: map<nat, seq<nat>>, n: nat) {
    && (forall r :: r in components ==> forall i :: i in components[r] ==> i < n)
    && (forall r, q :: r in components && q in components && r != q ==> components[r] != components[q])
  }

  lemma ClassFits(components: map<nat, seq<nat>>, n: nat, root: nat)
    requires AreClasses(components, n) && root in components
    ensures forall i :: i in components[root] ==> i < n
  {
  }

  /** The clusters of the classes done so far. */
  ghost predicate AreEmitted(items: seq<Item>, components: map<nat, seq<nat>>, done: set<nat>, minItems: int,
      clusters: seq<seq<Item>>, groups: seq<seq<nat>>) {
    AreLargeClasses(components, done, minItems, groups) && AreItemsOf(items, clusters, groups)
  }

  lemma EmitNext(items: seq<Item>, components: map<nat, seq<nat>>, done: set<nat>, minItems: int,
      clusters: seq<seq<Item>>, groups: seq<seq<nat>>, root: nat)
    requires AreEmitted(items, components, done, minItems, clusters, groups)
    requires root in components && root !in done && AreClasses(components, |items|)
    ensures (forall i :: i in components[root] ==> i < |items|) &&
            var indices := components[root];
            if |indices| >= minItems
            then AreEmitted(items, components, done + {root}, minItems, clusters + [Pick(items, indices)],
                            groups + [indices])
            else AreEmitted(items, components, done + {root}, minItems, clusters, groups)
  {
    hide AreLargeClasses, AreItemsOf, Pick;
    NextClass(components, done, minItems, groups, root);
    OneMoreCluster(items, clusters, groups, components[root]);
  }

  /** Lists the large enough classes, in whatever order the map yields them. */
  method EmitClusters(items: seq<Item>, components: map<nat, seq<nat>>, minItems: int)
    returns (clusters: seq<seq<Item>>, ghost groups: seq<seq<nat>>)
    requires AreClasses(components, |items|)
    ensures AreLargeClasses(components, components.Keys, minItems, groups)
    ensures AreItemsOf(items, clusters, groups)
  {
    hide AreEmitted, Pick, AreClasses;
    clusters, groups := [], [];
    var todo := components.Keys;
    ghost var done: set<nat> := {};
    NoClassesYet(items, components, minItems);
    while todo != {}
      invariant todo + done == components.Keys && todo !! done
      invariant AreEmitted(items, components, done, minItems, clusters, groups)
      decreases |todo|
    {
      var root :| root in todo;
      var indices := components[root];
      ClassFits(components, |items|, root);
      EmitNext(items, components, done, minItems, clusters, groups, root);
      if |indices| >= minItems {
        clusters := clusters + [Pick(items, indices)];
        groups := groups + [indices];
      }
      todo, done := todo - {root}, done + {root};
    }
    assert done == components.Keys;
    EmittedAll(items, components, minItems, clusters, groups);
  }

  lemma EmittedAll(items: seq<Item>, components: map<nat, seq<nat>>, minItems: int, clusters: seq<seq<Item>>,
      groups: seq<seq<nat>>)
    requires AreEmitted(items, components, components.Keys, minItems, clusters, groups)
    ensures AreLargeClasses(components, components.Keys, minItems, groups) && AreItemsOf(items, clusters, groups)
  {
  }

  lemma NoClassesYet(items: seq<Item>, components: map<nat, seq<nat>>, minItems: int)
    ensures AreEmitted(items, components, {}, minItems, [], [])
  {
  }

  /**
   The clusters are exactly the connected components of at least minItems
   items, each listed once, its items in their original order.
   */
  method BuildClusters(items: seq<Item>, parseTags: TagParser, threshold: real, minItems: int)
    returns (clusters: seq<seq<Item>>, ghost groups: seq<seq<nat>>)
    ensures AreTheClusters(ParsedTags(items, parseTags), threshold, minItems, groups)
    ensures AreItemsOf(items, clusters, groups)
  {
    var n := |items|;
    ghost var spec := ParsedTags(items, parseTags);
    if n < minItems {
      forall g | IsComponent(spec, threshold, g) ensures |g| < minItems { IncreasingFits(g, n); }
      return [], [];
    }
    var tags: seq<seq<string>> := [];
    for i := 0 to n
      invariant tags == spec[..i]
    {
      tags := tags + [parseTags(items[i].topicTags)];
    }
    assert tags == spec;
    var parent := new nat[n](i => i);
    ghost var depth := JoinEdges(parent, seq(n, i => 0), tags, threshold);
    ghost var joined := parent[..];
    var components, roots := CollectComponents(parent, depth);
    assert forall i: nat, j: nat :: i < n && j < n ==> (Joined(joined, depth, i, j) <==> roots[i] == roots[j]);
    CollectedAreComponents(tags, threshold, components, roots);
    forall r | r in components ensures components[r][0] in components[r] {}
    clusters, groups := EmitClusters(items, components, minItems);
  }

  /** The items some chain of edges links to i, itself included. */
  ghost function LinkedTo(tags: seq<seq<string>>, threshold: real, i: nat): set<nat> {
    set k: nat | k < |tags| && Linked(tags, threshold, i, k)
  }

  /** The numbers of a set below n, in increasing order. */
  ghost function Listed(s: set<nat>, n: nat): (list: seq<nat>)
    ensures Increasing(list)
    ensures forall k :: k in list <==> k in s && k < n
  {
    if n == 0 then []
    else
      var list := Listed(s, n - 1);
      assert forall a :: 0 <= a < |list| ==> list[a] in list;
      if n - 1 in s then list + [n - 1] else list
  }

  lemma {:induction false} IncreasingSize(list: seq<nat>)
    requires Increasing(list)
    ensures |Elements(list)| == |list|
  {
    if list != [] {
      IncreasingTail(list);
      IncreasingSize(list[1..]);
      assert Elements(list) == {list[0]} + Elements(list[1..]);
      assert list[0] !in list[1..];
    }
  }

  lemma ComponentIsLinkedTo(tags: seq<seq<string>>, threshold: real, g: seq<nat>, i: nat)
    requires IsComponent(tags, threshold, g) && i in g
    ensures |g| == |LinkedTo(tags, threshold, i)|
  {
    IncreasingSize(g);
    assert Elements(g) == LinkedTo(tags, threshold, i);
  }

  /** Every item has a component: the items linked to it. */
  lemma ComponentOf(tags: seq<seq<string>>, threshold: real, i: nat)
    requires i < |tags|
    ensures var g := Listed(LinkedTo(tags, threshold, i), |tags|); IsComponent(tags, threshold, g) && i in g
  {
    var g := Listed(LinkedTo(tags, threshold, i), |tags|);
    LinkedReflexive(tags, threshold, i);
    assert i in g;
    forall j, k: nat | j in g && k < |tags| ensures k in g <==> Linked(tags, threshold, j, k) {
      if k in g {
        LinkedSymmetric(tags, threshold, i, j);
        LinkedTransitive(tags, threshold, j, i, k);
      } else if Linked(tags, threshold, j, k) {
        LinkedTransitive(tags, threshold, i, j, k);
      }
    }
  }

  /** An item is in a returned cluster exactly when chains of edges link it to enough items. */
  lemma InAClusterIff(tags: seq<seq<string>>, threshold: real, minItems: int, groups: seq<seq<nat>>, i: nat)
    requires AreTheClusters(tags, threshold, minItems, groups) && i < |tags|
    ensures (exists g :: g in groups && i in g) <==> |LinkedTo(tags, threshold, i)| >= minItems
  {
    hide IsComponent;
    ComponentOf(tags, threshold, i);
    ComponentIsLinkedTo(tags, threshold, Listed(LinkedTo(tags, threshold, i), |tags|), i);
    if g :| g in groups && i in g {
      ComponentIsLinkedTo(tags, threshold, g, i);
    }
  }

  /** Two items share one exactly when, besides, a chain of edges links them. */
  lemma ShareAClusterIffLinked(tags: seq<seq<string>>, threshold: real, minItems: int, groups: seq<seq<nat>>, i: nat,
      j: nat)
    requires AreTheClusters(tags, threshold, minItems, groups) && i < |tags| && j < |tags|
    ensures (exists g :: g in groups && i in g && j in g) <==>
            Linked(tags, threshold, i, j) && |LinkedTo(tags, threshold, i)| >= minItems
  {
    InAClusterIff(tags, threshold, minItems, groups, i);
    if g :| g in groups && i in g {
      assert IsComponent(tags, threshold, g);
    }
  }

  // ------------------------------------------------------------ clusterTheme

  method TagIntersection(a: seq<string>, b: seq<string>) returns (common: seq<string>)
    ensures common == SortedList(Elements(a) * Elements(b))
  {
    var setA := TagSet(a);
    common := [];
    var seen: set<string> := {};
    for i := 0 to |b|
      invariant seen == Elements(common) == setA * Elements(b[..i])
      invariant forall j, k :: 0 <= j < k < |common| ==> common[j] != common[k]
    {
      if b[i] in setA && b[i] !in seen {
        assert forall j :: 0 <= j < |common| ==> common[j] in Elements(common);
        common := common + [b[i]];
        seen := seen + {b[i]};
      }
    }
    assert b[..|b|] == b;
    SortOfDistinct(common);
    common := Sort(common);
    StrictlySortedUnique(common, SortedList(setA * Elements(b)));
  }

  /** The tags carried by every item. */
  ghost function CommonTags(tags: seq<seq<string>>): set<string>
    requires tags != []
  {
    set t | t in tags[0] && forall k :: 0 <= k < |tags| ==> t in tags[k]
  }

  lemma CommonTagsOfOneMore(tags: seq<seq<string>>, more: seq<string>)
    requires tags != []
    ensures CommonTags(tags + [more]) == CommonTags(tags) * Elements(more)
  {
    var all := tags + [more];
    assert all[|tags|] == more;
    forall t | t in CommonTags(all) ensures t in CommonTags(tags) {
      forall k | 0 <= k < |tags| ensures t in tags[k] { assert all[k] == tags[k]; }
    }
  }

  ghost function ThemeOf(common: seq<string>): string {
    if common == [] then "mixed" else Join(common, ", ")
  }

  /** What the items have in common: one item keeps its own tag list, more items share the sorted common tags. */
  ghost function Shared(tags: seq<seq<string>>): seq<string>
    requires tags != []
  {
    if |tags| == 1 then tags[0] else SortedList(CommonTags(tags))
  }

  lemma SharedWithOneMore(tags: seq<seq<string>>, more: seq<string>)
    requires tags != []
    ensures SortedList(Elements(Shared(tags)) * Elements(more)) == Shared(tags + [more])
  {
    assert Elements(Shared(tags)) == CommonTags(tags);
    CommonTagsOfOneMore(tags, more);
  }

  ghost function Theme(tags: seq<seq<string>>): string {
    if tags == [] then "" else ThemeOf(Shared(tags))
  }

  method ClusterTheme(items: seq<Item>, parseTags: TagParser) returns (theme: string)
    ensures theme == Theme(ParsedTags(items, parseTags))
  {
    hide SortedList, CommonTags, Join;
    ghost var tags := ParsedTags(items, parseTags);
    if |items| == 0 {
      return "";
    }
    var common := parseTags(items[0].topicTags);
    for i := 1 to |items|
      invariant common == Shared(tags[..i])
    {
      SharedWithOneMore(tags[..i], tags[i]);
      common := TagIntersection(common, parseTags(items[i].topicTags));
      assert tags[..i + 1] == tags[..i] + [tags[i]];
    }
    assert tags[..|items|] == tags;
    return if |common| == 0 then "mixed" else Join(common, ", ");
  }

  /**
   The theme lists the tags every item carries, each once and in order, or one
   item's own tags; "mixed" stands for none.
   */
  lemma ThemeExact(tags: seq<seq<string>>)
    ensures tags == [] ==> Theme(tags) == ""
    ensures |tags| == 1 ==> Theme(tags) == if tags[0] == [] then "mixed" else Join(tags[0], ", ")
    ensures |tags| >= 2 ==>
              exists list :: IsStrictlySorted(list) &&
                (forall t :: t in list <==> forall k :: 0 <= k < |tags| ==> t in tags[k]) &&
                Theme(tags) == if list == [] then "mixed" else Join(list, ", ")
  {
    if |tags| >= 2 {
      var list := SortedList(CommonTags(tags));
      hide SortedList;
      forall t ensures t in list <==> forall k :: 0 <= k < |tags| ==> t in tags[k] {
        if forall k :: 0 <= k < |tags| ==> t in tags[k] { assert t in tags[0]; }
      }
    }
  }

  ghost function TagSets(tags: seq<seq<string>>): set<set<string>> {
    set k | 0 <= k < |tags| :: Elements(tags[k])
  }

  /** The theme of two or more items depends only on which tag sets occur: not on order, nor on repeats. */
  lemma ThemeIgnoresOrderAndRepeats(tags: seq<seq<string>>, others: seq<seq<string>>)
    requires |tags| >= 2 && |others| >= 2 && TagSets(tags) == TagSets(others)
    ensures Theme(tags) == Theme(others)
  {
    assert CommonTags(tags) == CommonTags(others) by {
      CommonTagsOfSets(tags);
      CommonTagsOfSets(others);
    }
  }

  lemma CommonTagsOfSets(tags: seq<seq<string>>)
    requires tags != []
    ensures forall t :: t in CommonTags(tags) <==> forall s :: s in TagSets(tags) ==> t in s
  {
    forall t | forall s :: s in TagSets(tags) ==> t in s ensures t in CommonTags(tags) {
      forall k | 0 <= k < |tags| ensures t in tags[k] {
        assert Elements(tags[k]) in TagSets(tags);
      }
    }
  }

  /**
   "mixed" announces an empty intersection, except that a cluster whose only
   common tag is itself "mixed" has the same theme.
   */
  lemma MixedTheme(tags: seq<seq<string>>)
    requires |tags| >= 2
    ensures Theme(tags) == "mixed" <==> CommonTags(tags) == {} || CommonTags(tags) == {"mixed"}
  {
    hide SortedList, CommonTags;
    var list := SortedList(CommonTags(tags));
    if list == [] {
      assert CommonTags(tags) == {};
    } else if |list| == 1 {
      assert list[0] in list;
      assert CommonTags(tags) == {list[0]};
    } else {
      JoinHasComma(list);
      assert list[0] in list && list[1] in list;
    }
  }

  lemma JoinHasComma(list: seq<string>)
    requires |list| >= 2
    ensures Join(list, ", ") != "mixed"
  {
    var joined := Join(list, ", ");
    assert joined[|list[0]|] == ',';
  }

  /** Two items tagged "mixed" and nothing else have one tag in common and the theme of items that have none. */
  lemma MixedByName()
    ensures CommonTags([["mixed"], ["mixed"]]) == {"mixed"} && Theme([["mixed"], ["mixed"]]) == "mixed"
  {
    hide SortedList;
    var tags := [["mixed"], ["mixed"]];
    assert "mixed" in tags[0] && "mixed" in tags[1];
    MixedTheme(tags);
  }
}
