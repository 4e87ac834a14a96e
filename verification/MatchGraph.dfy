/**
  Bipartite graphs between elements (left) and matchers (right), matchings in them, and the
  duality between matchings and vertex covers that certifies a matching as maximum.
 */
module MatchGraph {

  type Pair = (nat, nat)

  /** The connectivity matrix, flattened in left-major order. */
  datatype Graph = Graph(lhs: nat, rhs: nat, cells: seq<bool>) {

    ghost predicate Valid() {
      |cells| == lhs * rhs
    }

    predicate InRange(l: int, r: int) {
      0 <= l < lhs && 0 <= r < rhs
    }

    function SpaceIndex(l: int, r: int): (k: nat)
      requires InRange(l, r)
      ensures k < lhs * rhs
    {
      assert l * rhs + r < (l + 1) * rhs;
      assert (l + 1) * rhs <= lhs * rhs;
      l * rhs + r
    }

    predicate HasEdge(l: int, r: int)
      requires Valid()
    {
      InRange(l, r) && cells[SpaceIndex(l, r)]
    }
  }

  /** Different pairs of nodes have different cells. */
  lemma SpaceIndexInjective(g: Graph, l: int, r: int, l': int, r': int)
    requires g.InRange(l, r) && g.InRange(l', r') && g.SpaceIndex(l, r) == g.SpaceIndex(l', r')
    ensures l == l' && r == r'
  {
    if l < l' {
      RowsApart(l, l', g.rhs);
    } else if l' < l {
      RowsApart(l', l, g.rhs);
    }
  }

  lemma {:induction false} RowsApart(a: nat, b: nat, width: nat)
    requires a < b
    ensures (a + 1) * width <= b * width
    decreases b
  {
    if a + 1 < b {
      RowsApart(a, b - 1, width);
    }
  }

  /** A set of edges listed one by one, no left and no right node used twice. */
  ghost predicate IsMatching(g: Graph, m: seq<Pair>)
    requires g.Valid()
  {
    && (forall i :: 0 <= i < |m| ==> g.HasEdge(m[i].0, m[i].1))
    && Disjoint(m)
  }

  ghost predicate Disjoint(m: seq<Pair>) {
    forall i, j :: 0 <= i < j < |m| ==> m[i].0 != m[j].0 && m[i].1 != m[j].1
  }

  /** Every edge of `g` has its left end in `ls` or its right end in `rs`. */
  ghost predicate IsCover(g: Graph, ls: set<nat>, rs: set<nat>)
    requires g.Valid()
  {
    forall l: nat, r: nat :: g.HasEdge(l, r) ==> l in ls || r in rs
  }

  /** An assignment of a distinct element to each matcher, along edges. */
  ghost predicate IsAssignment(g: Graph, f: seq<nat>)
    requires g.Valid()
  {
    && |f| == g.rhs
    && (forall r :: 0 <= r < |f| ==> g.HasEdge(f[r], r))
    && (forall r, r' :: 0 <= r < r' < |f| ==> f[r] != f[r'])
  }

  /** The elements that some matcher in `rs` accepts. */
  ghost function Neighbours(g: Graph, rs: set<nat>): set<nat>
    requires g.Valid()
  {
    set l: nat, r: nat | l < g.lhs && r in rs && g.HasEdge(l, r) :: l
  }

  /** Hall's condition fails at `rs`: these matchers accept fewer elements than there are of them. */
  ghost predicate HallViolator(g: Graph, rs: set<nat>)
    requires g.Valid()
  {
    && (forall r :: r in rs ==> r < g.rhs)
    && |Neighbours(g, rs)| < |rs|
  }

  // ---------- cardinalities ----------

  ghost predicate Injective(f: seq<nat>, a: set<nat>)
    requires forall x :: x in a ==> x < |f|
  {
    forall x, y :: x in a && y in a && x != y ==> f[x] != f[y]
  }

  lemma {:induction false} InjectionCardinality(a: set<nat>, b: set<nat>, f: seq<nat>)
    requires forall x :: x in a ==> x < |f| && f[x] in b
    requires Injective(f, a)
    ensures |a| <= |b|
  {
    if a != {} {
      var x :| x in a;
      InjectionCardinality(a - {x}, b - {f[x]}, f);
    }
  }

  /** The nodes 0 to n - 1. */
  ghost function Below(n: nat): (s: set<nat>)
    ensures forall x: nat :: x in s <==> x < n
    ensures |s| == n
  {
    if n == 0 then {} else Below(n - 1) + {n - 1}
  }

  lemma InjectionAvoids(f: seq<nat>, all: set<nat>, y: nat)
    requires forall x :: x in all ==> x < |f| && f[x] in all && f[x] != y
    requires Injective(f, all)
    ensures y !in all
  {
    hide Injective;
    InjectionCardinality(all, all - {y}, f);
  }

  lemma DistinctIsInjective(f: seq<nat>)
    requires forall x, x' :: 0 <= x < x' < |f| ==> f[x] != f[x']
    ensures Injective(f, Below(|f|))
  {
  }

  /** An injection of [0, n) into itself reaches everything. */
  lemma Pigeonhole(f: seq<nat>, y: nat)
    requires forall x :: 0 <= x < |f| ==> f[x] < |f|
    requires forall x, x' :: 0 <= x < x' < |f| ==> f[x] != f[x']
    requires y < |f|
    ensures y in f
  {
    hide Injective;
    DistinctIsInjective(f);
    if y !in f {
      InjectionAvoids(f, Below(|f|), y);
    }
  }

  // ---------- weak duality ----------

  lemma {:induction false} MatchingBoundedByCover(m: seq<Pair>, ls: set<nat>, rs: set<nat>)
    requires Disjoint(m)
    requires forall i :: 0 <= i < |m| ==> m[i].0 in ls || m[i].1 in rs
    ensures |m| <= |ls| + |rs|
  {
    if m != [] {
      var k := |m| - 1;
      if m[k].0 in ls {
        MatchingBoundedByCover(m[..k], ls - {m[k].0}, rs);
      } else {
        MatchingBoundedByCover(m[..k], ls, rs - {m[k].1});
      }
    }
  }

  /** A matching as large as some vertex cover is maximum, and the cover is smallest. */
  lemma WeakDuality(g: Graph, m: seq<Pair>, ls: set<nat>, rs: set<nat>)
    requires g.Valid() && IsMatching(g, m) && IsCover(g, ls, rs)
    ensures |m| <= |ls| + |rs|
  {
    MatchingBoundedByCover(m, ls, rs);
  }

  /** A cover smaller than the right side leaves a set of matchers that violates Hall's condition. */
  lemma SmallCoverViolatesHall(g: Graph, ls: set<nat>, rs: set<nat>)
    requires g.Valid() && IsCover(g, ls, rs)
    requires forall r :: r in rs ==> r < g.rhs
    requires |ls| + |rs| < g.rhs
    ensures HallViolator(g, Below(g.rhs) - rs)
  {
    var all := Below(g.rhs);
    assert rs <= all;
    var open := all - rs;
    assert |open| == g.rhs - |rs|;
    var ns := Neighbours(g, open);
    assert ns <= ls;
    SubsetCardinality(ns, ls);
  }

  lemma {:induction false} SubsetCardinality(a: set<nat>, b: set<nat>)
    requires a <= b
    ensures |a| <= |b|
  {
    if a != {} {
      var x :| x in a;
      SubsetCardinality(a - {x}, b - {x});
    }
  }

  /** The easy half of Hall's theorem: a violating set rules out every assignment. */
  lemma HallViolatorBlocksAssignment(g: Graph, rs: set<nat>, f: seq<nat>)
    requires g.Valid() && HallViolator(g, rs)
    ensures !IsAssignment(g, f)
  {
    if IsAssignment(g, f) {
      forall r | r in rs ensures f[r] in Neighbours(g, rs) {
        assert g.HasEdge(f[r], r);
      }
      InjectionCardinality(rs, Neighbours(g, rs), f);
      assert false;
    }
  }

  // ---------- assignments and matchings of full size ----------

  lemma {:induction false} RightEndsDistinct(m: seq<Pair>, rs: set<nat>)
    requires Disjoint(m)
    requires rs == set i | 0 <= i < |m| :: m[i].1
    ensures |rs| == |m|
  {
    if m == [] {
      assert rs == {};
    } else {
      var k := |m| - 1;
      var rest := set i | 0 <= i < k :: m[..k][i].1;
      RightEndsDistinct(m[..k], rest);
      assert forall i :: 0 <= i < k ==> m[..k][i] == m[i];
      assert m[k].1 !in rest;
      assert rs == rest + {m[k].1};
    }
  }

  /** A matching with as many edges as there are matchers uses every matcher. */
  lemma AllMatchersUsed(g: Graph, m: seq<Pair>) returns (rs: set<nat>)
    requires g.Valid() && IsMatching(g, m) && |m| == g.rhs
    ensures rs == (set i | 0 <= i < |m| :: m[i].1) && forall r: nat :: r < g.rhs ==> r in rs
  {
    rs := set i | 0 <= i < |m| :: m[i].1;
    RightEndsDistinct(m, rs);
    var all := Below(g.rhs);
    forall r | r in rs ensures r in all {
      var i :| 0 <= i < |m| && m[i].1 == r;
      assert g.HasEdge(m[i].0, m[i].1);
    }
    EqualCardinalitySubset(rs, all);
  }

  /** ... and gives every matcher an element. */
  lemma FullMatchingGivesAssignment(g: Graph, m: seq<Pair>) returns (f: seq<nat>)
    requires g.Valid() && IsMatching(g, m) && |m| == g.rhs
    ensures IsAssignment(g, f)
  {
    hide Graph.HasEdge;
    var rs := AllMatchersUsed(g, m);
    var edgeOf := seq(g.rhs, r requires 0 <= r < g.rhs => EdgeAt(m, rs, r));
    f := seq(g.rhs, r requires 0 <= r < g.rhs => m[edgeOf[r]].0);
  }

  ghost function EdgeAt(m: seq<Pair>, rs: set<nat>, r: nat): (i: nat)
    requires rs == set i | 0 <= i < |m| :: m[i].1
    requires r in rs
    ensures i < |m| && m[i].1 == r
  {
    var i :| 0 <= i < |m| && m[i].1 == r; i
  }

  lemma EqualCardinalitySubset(a: set<nat>, b: set<nat>)
    requires a <= b && |a| == |b|
    ensures a == b
  {
    if x :| x in b && x !in a {
      SubsetCardinality(a, b - {x});
      assert false;
    }
  }
}
