/**
 The disjoint-set forest of buildClusters: one parent array, path-compressing
 find, and a union that links one root below the other without ranks.

 The ghost `depth` witnesses that the parent links are acyclic: it decreases
 strictly along every link.  No run-time value depends on it.
 */
module Forest {

  ghost predicate IsForest(p: seq<nat>, depth: seq<nat>) {
    && |depth| == |p|
    && (forall i :: 0 <= i < |p| ==> p[i] < |p|)
    && (forall i :: 0 <= i < |p| && p[i] != i ==> depth[p[i]] < depth[i])
  }

  /** The representative that following parent links from i arrives at. */
  ghost function Root(p: seq<nat>, depth: seq<nat>, i: nat): (r: nat)
    requires IsForest(p, depth) && i < |p|
    ensures r < |p| && p[r] == r
    ensures r != i ==> depth[r] < depth[i]
    decreases depth[i]
  {
    if p[i] == i then i else Root(p, depth, p[i])
  }

  /** Pointing x straight at its root keeps the forest and every root in it. */
  lemma {:induction false} CompressionKeepsRoots(p: seq<nat>, depth: seq<nat>, x: nat, i: nat)
    requires IsForest(p, depth) && x < |p| && i < |p|
    ensures IsForest(p[x := Root(p, depth, x)], depth)
    ensures Root(p[x := Root(p, depth, x)], depth, i) == Root(p, depth, i)
    decreases depth[i]
  {
    var r := Root(p, depth, x);
    var q := p[x := r];
    if i == x {
      assert q[r] == r;
      assert Root(q, depth, r) == r;
    } else if p[i] != i {
      CompressionKeepsRoots(p, depth, x, p[i]);
    }
  }

  /** The depths after linking root a below root b: a's whole tree moves down. */
  ghost function LinkedDepth(p: seq<nat>, depth: seq<nat>, a: nat, b: nat): (d: seq<nat>)
    requires IsForest(p, depth) && a < |p| && b < |p|
  {
    seq(|p|, i requires 0 <= i < |p| => if Root(p, depth, i) == a then depth[i] + depth[b] + 1 else depth[i])
  }

  /** Linking root a below another root b merges exactly those two trees. */
  lemma {:induction false} LinkMergesTwoTrees(p: seq<nat>, depth: seq<nat>, a: nat, b: nat, i: nat)
    requires IsForest(p, depth) && a < |p| && b < |p| && i < |p|
    requires p[a] == a && p[b] == b && a != b
    ensures IsForest(p[a := b], LinkedDepth(p, depth, a, b))
    ensures Root(p[a := b], LinkedDepth(p, depth, a, b), i) ==
            if Root(p, depth, i) == a then b else Root(p, depth, i)
    decreases depth[i]
  {
    var q, d := p[a := b], LinkedDepth(p, depth, a, b);
    assert Root(p, depth, b) == b;
    assert forall j :: 0 <= j < |p| && p[j] != j ==> Root(p, depth, p[j]) == Root(p, depth, j);
    assert IsForest(q, d);
    assert Root(q, d, b) == b;
    if i != a && p[i] != i {
      LinkMergesTwoTrees(p, depth, a, b, p[i]);
    }
  }

  /** find: returns x's root, pointing every link it walked at that root. */
  method Find(parent: array<nat>, ghost depth: seq<nat>, x: nat) returns (r: nat)
    requires IsForest(parent[..], depth) && x < parent.Length
    modifies parent
    ensures IsForest(parent[..], depth)
    ensures r == Root(old(parent[..]), depth, x)
    ensures parent[x] == r
    ensures forall i :: 0 <= i < parent.Length ==> Root(parent[..], depth, i) == Root(old(parent[..]), depth, i)
    ensures forall i :: 0 <= i < parent.Length ==> parent[i] == old(parent[i]) || parent[i] == r
    decreases depth[x]
  {
    if parent[x] != x {
      var up: nat := Find(parent, depth, parent[x]);
      ghost var p := parent[..];
      assert Root(p, depth, x) == up;
      forall i | 0 <= i < |p| ensures Root(p[x := up], depth, i) == Root(p, depth, i) {
        CompressionKeepsRoots(p, depth, x, i);
      }
      parent[x] := up;
      assert parent[..] == p[x := up];
    }
    r := parent[x];
  }

  /** union: the classes of a and b become one, represented by b's root; no other class changes. */
  method Union(parent: array<nat>, ghost depth: seq<nat>, a: nat, b: nat) returns (ghost newDepth: seq<nat>)
    requires IsForest(parent[..], depth) && a < parent.Length && b < parent.Length
    modifies parent
    ensures IsForest(parent[..], newDepth)
    ensures forall i :: 0 <= i < parent.Length ==>
              Root(parent[..], newDepth, i) ==
              var was := Root(old(parent[..]), depth, i);
              if was == Root(old(parent[..]), depth, a) then Root(old(parent[..]), depth, b) else was
  {
    var ra: nat := Find(parent, depth, a);
    var rb: nat := Find(parent, depth, b);
    newDepth := depth;
    if ra != rb {
      ghost var p := parent[..];
      newDepth := LinkedDepth(p, depth, ra, rb);
      forall i | 0 <= i < |p|
        ensures IsForest(p[ra := rb], newDepth)
        ensures Root(p[ra := rb], newDepth, i) == if Root(p, depth, i) == ra then rb else Root(p, depth, i)
      {
        LinkMergesTwoTrees(p, depth, ra, rb, i);
      }
      parent[ra] := rb;
      assert parent[..] == p[ra := rb];
    }
  }
}
