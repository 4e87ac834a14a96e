/**
  Google Mock's maximum bipartite matching: an augmenting-path search that relinks two mutually
  referring arrays while it recurses, and the decision procedures built on it.
 */
module BipartiteMatching {
  import opened MatchGraph

  /** The marker for a node without a partner. */
  const UNUSED := -1

  // ---------- the state of the search, as values ----------

  /** Entries are UNUSED or nodes of the other side, and left-to-right links are edges. */
  ghost predicate Typed(g: Graph, left: seq<int>, right: seq<int>)
    requires g.Valid()
  {
    && |left| == g.lhs && |right| == g.rhs
    && (forall l :: 0 <= l < |left| ==> left[l] == UNUSED || g.HasEdge(l, left[l]))
    && (forall r :: 0 <= r < |right| ==> right[r] == UNUSED || 0 <= right[r] < g.lhs)
  }

  /** Used entries refer to each other, except that the partner of `stale` may have moved on. */
  ghost predicate MutualExcept(g: Graph, left: seq<int>, right: seq<int>, stale: int)
    requires g.Valid()
  {
    && Typed(g, left, right)
    && (forall l :: 0 <= l < |left| && left[l] != UNUSED ==> right[left[l]] == l)
    && (forall r :: 0 <= r < |right| && r != stale && right[r] != UNUSED ==> left[right[r]] == r)
  }

  ghost predicate Mutual(g: Graph, left: seq<int>, right: seq<int>)
    requires g.Valid()
  {
    MutualExcept(g, left, right, UNUSED)
  }

  /** All elements' neighbours are marked. */
  ghost predicate Explored(g: Graph, l: int, seen: seq<bool>)
    requires g.Valid() && |seen| == g.rhs
  {
    forall r :: 0 <= r < |seen| && g.HasEdge(l, r) ==> seen[r]
  }

  ghost predicate Within(g: Graph, l: int, rs: set<nat>)
    requires g.Valid()
  {
    forall r: nat :: g.HasEdge(l, r) ==> r in rs
  }

  /**
    A dead region: every right node in it has a partner, and the partner's edges do not leave it.
    No augmenting path passes through it.
   */
  ghost predicate Dead(g: Graph, right: seq<int>, dead: set<nat>)
    requires g.Valid() && |right| == g.rhs
  {
    forall r :: r in dead ==> r < g.rhs && right[r] != UNUSED && Within(g, right[r], dead)
  }

  /** Marks only grow, and the links of right nodes marked before stay. */
  ghost predicate Progress(right0: seq<int>, seen0: seq<bool>, right1: seq<int>, seen1: seq<bool>)
    requires |seen0| == |right0| == |right1| == |seen1|
  {
    forall r :: 0 <= r < |seen0| && seen0[r] ==> seen1[r] && right1[r] == right0[r]
  }

  /** `free` is the one right node that has no partner in `right0` and has one in `right1`. */
  ghost predicate OnlyGain(right0: seq<int>, right1: seq<int>, free: int)
    requires |right0| == |right1|
  {
    && 0 <= free < |right0| && right0[free] == UNUSED
    && forall r :: 0 <= r < |right0| ==> (right1[r] == UNUSED <==> r != free && right0[r] == UNUSED)
  }

  /**
    What a successful search from `l` does: `l` moves to a new partner, exactly one right node gains
    one, no other left node gains or loses one, and only the link back from `l`'s old partner is stale.
   */
  ghost predicate Augmented(g: Graph, l: nat, left0: seq<int>, right0: seq<int>, seen0: seq<bool>,
                            left1: seq<int>, right1: seq<int>, seen1: seq<bool>)
    requires g.Valid() && l < g.lhs == |left0| && |right0| == g.rhs == |seen0|
  {
    && |left1| == |left0| && |right1| == |right0| && |seen1| == |seen0|
    && MutualExcept(g, left1, right1, left0[l])
    && left1[l] != UNUSED && left1[l] != left0[l]
    && (forall k :: 0 <= k < |left0| && k != l ==> (left1[k] == UNUSED <==> left0[k] == UNUSED))
    && Progress(right0, seen0, right1, seen1)
    && exists free :: OnlyGain(right0, right1, free)
  }

  /**
    What a failed search from `l` leaves behind: `l` is explored, and every right node it marked has
    a partner that is explored as well.
   */
  ghost predicate Exhausted(g: Graph, l: nat, right: seq<int>, seen0: seq<bool>, seen1: seq<bool>)
    requires g.Valid() && |right| == g.rhs == |seen0|
  {
    && |seen1| == |seen0|
    && Explored(g, l, seen1)
    && AllMarkedExplored(g, right, seen0, seen1)
  }

  ghost predicate AllMarkedExplored(g: Graph, right: seq<int>, seen0: seq<bool>, seen1: seq<bool>)
    requires g.Valid() && |right| == g.rhs == |seen0| == |seen1|
  {
    forall r :: 0 <= r < |seen1| && seen1[r] && !seen0[r] ==> right[r] != UNUSED && Explored(g, right[r], seen1)
  }

  /** The search tries `r` and it is free. */
  lemma AugmentedDirectly(g: Graph, l: nat, r: nat, left: seq<int>, right: seq<int>, seen: seq<bool>)
    requires g.Valid() && l < g.lhs == |left| && r < g.rhs == |right| == |seen|
    requires Mutual(g, left, right) && g.HasEdge(l, r) && right[r] == UNUSED
    requires !seen[r] && (left[l] != UNUSED ==> seen[left[l]])
    ensures Augmented(g, l, left, right, seen, left[l := r], right[r := l], seen[r := true])
  {
    assert OnlyGain(right, right[r := l], r);
  }

  /** The search goes on from the partner `k` of `r`, and `k` gives up `r` to `l`. */
  lemma AugmentedThrough(g: Graph, l: nat, r: nat, left: seq<int>, right: seq<int>, seen: seq<bool>,
                         left1: seq<int>, right1: seq<int>, seen1: seq<bool>)
    requires g.Valid() && l < g.lhs == |left| && r < g.rhs == |right| == |seen|
    requires Mutual(g, left, right) && g.HasEdge(l, r) && right[r] != UNUSED
    requires !seen[r] && (left[l] != UNUSED ==> seen[left[l]])
    requires Augmented(g, right[r], left, right, seen[r := true], left1, right1, seen1)
    ensures Augmented(g, l, left, right, seen, left1[l := r], right1[r := l], seen1)
  {
    var k := right[r];
    assert left[k] == r && k != l;
    assert seen[r := true][r] && right1[r] == k;
    assert left1[l] == left[l] by {
      if left[l] != UNUSED {
        assert right1[left[l]] == right[left[l]] == l;
      }
    }
    var free :| OnlyGain(right, right1, free);
    assert OnlyGain(right, right1[r := l], free);
  }

  lemma Relinked(g: Graph, l: nat, r: nat, left: seq<int>, right: seq<int>, seen0: seq<bool>, seen: seq<bool>,
                 left1: seq<int>, right1: seq<int>, seen1: seq<bool>)
    requires g.Valid() && l < g.lhs == |left| && r < g.rhs == |right| == |seen| == |seen0|
    requires Mutual(g, left, right) && g.HasEdge(l, r)
    requires !seen[r] && (left[l] != UNUSED ==> seen[left[l]])
    requires forall k :: 0 <= k < |seen| && seen0[k] ==> seen[k]
    requires if right[r] == UNUSED then left1 == left && right1 == right && seen1 == seen[r := true]
             else Augmented(g, right[r], left, right, seen[r := true], left1, right1, seen1)
    ensures Augmented(g, l, left, right, seen0, left1[l := r], right1[r := l], seen1)
  {
    if right[r] == UNUSED {
      AugmentedDirectly(g, l, r, left, right, seen);
    } else {
      AugmentedThrough(g, l, r, left, right, seen, left1, right1, seen1);
    }
  }

  ghost function Unseen(seen: seq<bool>): nat
  {
    if seen == [] then 0 else Unseen(seen[..|seen| - 1]) + (if seen[|seen| - 1] then 0 else 1)
  }

  lemma {:induction false} UnseenMonotone(before: seq<bool>, after: seq<bool>)
    requires |before| == |after|
    requires forall r :: 0 <= r < |before| && before[r] ==> after[r]
    ensures Unseen(after) <= Unseen(before)
    ensures (exists r :: 0 <= r < |before| && !before[r] && after[r]) ==> Unseen(after) < Unseen(before)
  {
    if before != [] {
      var k := |before| - 1;
      UnseenMonotone(before[..k], after[..k]);
      if r :| 0 <= r < |before| && !before[r] && after[r] {
        if r < k {
          assert !before[..k][r] && after[..k][r];
        }
      }
    }
  }

  // ---------- maximality of the final state ----------

  ghost function Marked(seen: seq<bool>): (rs: set<nat>)
    ensures forall r: nat :: r in rs <==> r < |seen| && seen[r]
  {
    set r: nat | r < |seen| && seen[r]
  }

  /** Every unmatched left node before `n` was searched in vain: its edges stay in the dead region. */
  ghost predicate SearchedInVain(g: Graph, left: seq<int>, n: nat, dead: set<nat>)
    requires g.Valid() && n <= |left|
  {
    forall l :: 0 <= l < n && left[l] == UNUSED ==> Within(g, l, dead)
  }

  /** A failed search from `l`, started without marks, adds its marks to the dead region. */
  lemma DeadRegionGrows(g: Graph, l: nat, left: seq<int>, right: seq<int>, seen: seq<bool>, dead: set<nat>)
    requires g.Valid() && l < |left| && |right| == g.rhs && Dead(g, right, dead)
    requires Exhausted(g, l, right, seq(g.rhs, _ => false), seen)
    requires SearchedInVain(g, left, l, dead)
    ensures Dead(g, right, dead + Marked(seen))
    ensures SearchedInVain(g, left, l + 1, dead + Marked(seen))
  {
  }

  /** A successful search from the next unmatched node leaves the dead region and the failed nodes alone. */
  lemma SuccessKeeps(g: Graph, l: nat, left0: seq<int>, right0: seq<int>, seen0: seq<bool>,
                     left1: seq<int>, right1: seq<int>, seen1: seq<bool>, dead: set<nat>)
    requires g.Valid() && l < g.lhs == |left0| && |right0| == g.rhs == |seen0| && left0[l] == UNUSED
    requires Augmented(g, l, left0, right0, seen0, left1, right1, seen1)
    requires Dead(g, right0, dead) && SearchedInVain(g, left0, l, dead)
    requires |right1| == g.rhs && forall r :: r in dead ==> r < g.rhs && right1[r] == right0[r]
    ensures Mutual(g, left1, right1) && Dead(g, right1, dead) && SearchedInVain(g, left1, l + 1, dead)
    ensures forall k :: 0 <= k < |left1| && k != l ==> (left1[k] == UNUSED <==> left0[k] == UNUSED)
  {
    hide Within;
  }

  lemma NothingSearched(g: Graph, left: seq<int>, right: seq<int>)
    requires g.Valid() && |left| == g.lhs && |right| == g.rhs
    requires forall l :: 0 <= l < |left| ==> left[l] == UNUSED
    requires forall r :: 0 <= r < |right| ==> right[r] == UNUSED
    ensures Mutual(g, left, right) && Dead(g, right, {}) && SearchedInVain(g, left, 0, {})
  {
  }

  lemma Certify(g: Graph, left: seq<int>, right: seq<int>, dead: set<nat>)
    requires g.Valid() && Mutual(g, left, right) && Dead(g, right, dead)
    requires SearchedInVain(g, left, |left|, dead)
    ensures CertifiedMaximum(g, Links(left))
  {
    LinksAreAMatching(g, left, right);
    KoenigCovers(g, left, right, dead);
    KoenigCounts(g, left, right, dead);
    DeadInRange(g, right, dead);
  }

  /** The links of `left`, as {left, right} pairs in increasing left order. */
  ghost function Links(left: seq<int>): (m: seq<Pair>)
    requires forall l :: 0 <= l < |left| ==> left[l] == UNUSED || 0 <= left[l]
  {
    if left == [] then []
    else
      var k := |left| - 1;
      Links(left[..k]) + if left[k] == UNUSED then [] else [(k, left[k])]
  }

  lemma {:induction false} LinksAreOrdered(left: seq<int>)
    requires forall l :: 0 <= l < |left| ==> left[l] == UNUSED || 0 <= left[l]
    ensures forall i :: 0 <= i < |Links(left)| ==>
              Links(left)[i].0 < |left| && left[Links(left)[i].0] == Links(left)[i].1
    ensures forall i, j :: 0 <= i < j < |Links(left)| ==> Links(left)[i].0 < Links(left)[j].0
  {
    if left != [] {
      LinksAreOrdered(left[..|left| - 1]);
    }
  }

  lemma {:induction false} LinksCount(left: seq<int>, ls: set<nat>)
    requires forall l :: 0 <= l < |left| ==> left[l] == UNUSED || 0 <= left[l]
    requires forall l :: l in ls ==> l < |left| && left[l] != UNUSED
    ensures |ls| <= |Links(left)|
  {
    if left == [] {
      assert ls == {};
    } else {
      var k := |left| - 1;
      LinksCount(left[..k], ls - {k});
    }
  }

  lemma LinksAreAMatching(g: Graph, left: seq<int>, right: seq<int>)
    requires g.Valid() && Mutual(g, left, right)
    ensures IsMatching(g, Links(left))
  {
    LinksAreOrdered(left);
    var m := Links(left);
    forall i, j | 0 <= i < j < |m| ensures m[i].0 != m[j].0 && m[i].1 != m[j].1 {
      assert right[m[i].1] == m[i].0 && right[m[j].1] == m[j].0;
    }
  }

  /** The vertex cover the search leaves behind: the dead region, and every other matched left node. */
  ghost function LeftCover(left: seq<int>, dead: set<nat>): set<nat>
  {
    set l: nat | l < |left| && left[l] != UNUSED && left[l] !in dead
  }

  /** Koenig: when all unmatched left nodes look into the dead region only, this is a vertex cover ... */
  lemma KoenigCovers(g: Graph, left: seq<int>, right: seq<int>, dead: set<nat>)
    requires g.Valid() && Mutual(g, left, right) && Dead(g, right, dead)
    requires SearchedInVain(g, left, |left|, dead)
    ensures IsCover(g, LeftCover(left, dead), dead)
  {
  }

  /** ... and it is no larger than the matching, because the dead nodes' partners are matched left nodes. */
  lemma KoenigCounts(g: Graph, left: seq<int>, right: seq<int>, dead: set<nat>)
    requires g.Valid() && Mutual(g, left, right) && Dead(g, right, dead)
    ensures |LeftCover(left, dead)| + |dead| <= |Links(left)|
  {
    var partners := set l: nat | l < |left| && left[l] != UNUSED && left[l] in dead;
    DeadPartners(g, left, right, dead, partners);
    var cover := LeftCover(left, dead);
    LinksCount(left, cover + partners);
    assert cover !! partners;
  }

  lemma DeadInRange(g: Graph, right: seq<int>, dead: set<nat>)
    requires g.Valid() && |right| == g.rhs && Dead(g, right, dead)
    ensures dead <= Below(g.rhs)
  {
  }

  lemma DeadPartners(g: Graph, left: seq<int>, right: seq<int>, dead: set<nat>, partners: set<nat>)
    requires g.Valid() && Mutual(g, left, right) && Dead(g, right, dead)
    requires partners == set l: nat | l < |left| && left[l] != UNUSED && left[l] in dead
    ensures |dead| <= |partners|
  {
    var back: seq<nat> := seq(|right|, r requires 0 <= r < |right| => if right[r] == UNUSED then 0 else right[r]);
    forall r | r in dead ensures back[r] in partners && left[back[r]] == r {
      assert left[right[r]] == r;
    }
    InjectionCardinality(dead, partners, back);
  }

  /** A matching together with the existence of a cover of no greater size. */
  ghost predicate CertifiedMaximum(g: Graph, m: seq<Pair>)
    requires g.Valid()
  {
    && IsMatching(g, m)
    && exists ls, rs :: IsCover(g, ls, rs) && |ls| + |rs| <= |m| && rs <= Below(g.rhs)
  }

  lemma CertifiedIsMaximum(g: Graph, m: seq<Pair>, other: seq<Pair>)
    requires g.Valid() && CertifiedMaximum(g, m) && IsMatching(g, other)
    ensures |other| <= |m|
  {
    var ls, rs :| IsCover(g, ls, rs) && |ls| + |rs| <= |m| && rs <= Below(g.rhs);
    WeakDuality(g, other, ls, rs);
  }

  class MaxBipartiteMatchState {
    const graph: Graph
    const left: array<int>
    const right: array<int>

    ghost predicate Shape()
    {
      graph.Valid() && left != right && left.Length == graph.lhs && right.Length == graph.rhs
    }

    constructor (g: Graph)
      requires g.Valid()
      ensures Shape() && graph == g && fresh(left) && fresh(right)
      ensures forall l :: 0 <= l < left.Length ==> left[l] == UNUSED
      ensures forall r :: 0 <= r < right.Length ==> right[r] == UNUSED
    {
      graph := g;
      left := new int[g.lhs](_ => UNUSED);
      right := new int[g.rhs](_ => UNUSED);
    }

    /**
      Depth-first search from left node `l`, marking the right nodes it tries in `seen`. The right
      node `l` was linked to on entry, if any, has already been marked; on success its link back to
      `l` is stale and the caller overwrites it. A dead region is neither crossed nor altered.
     */
    method TryAugment(l: nat, seen: array<bool>, ghost dead: set<nat>) returns (found: bool)
      requires Shape() && seen.Length == graph.rhs && l < graph.lhs
      requires Mutual(graph, left[..], right[..])
      requires left[l] != UNUSED ==> seen[left[l]]
      requires Dead(graph, right[..], dead)
      modifies left, right, seen
      ensures found ==> Augmented(graph, l, old(left[..]), old(right[..]), old(seen[..]), left[..], right[..], seen[..])
      ensures !found ==> left[..] == old(left[..]) && right[..] == old(right[..])
      ensures !found ==> Exhausted(graph, l, right[..], old(seen[..]), seen[..])
      ensures forall r :: 0 <= r < seen.Length && old(seen[r]) ==> seen[r]
      ensures found ==> !Within(graph, l, dead)
      ensures forall r :: r in dead ==> right[r] == old(right[r])
      decreases Unseen(seen[..])
    {
      hide Augmented, Unseen;
      ghost var left0, right0, seen0 := left[..], right[..], seen[..];
      for r := 0 to graph.rhs
        invariant left[..] == left0 && right[..] == right0
        invariant forall k :: 0 <= k < seen.Length && seen0[k] ==> seen[k]
        invariant forall k :: 0 <= k < r && graph.HasEdge(l, k) ==> seen[k]
        invariant AllMarkedExplored(graph, right0, seen0, seen[..])
      {
        if seen[r] {
          continue;
        }
        if !graph.HasEdge(l, r) {
          continue;
        }
        ghost var seen1 := seen[..];
        seen[r] := true;
        assert seen[..] == seen1[r := true];
        UnseenMonotone(seen0, seen[..]);
        var done := right[r] == UNUSED;
        if !done {
          done := TryAugment(right[r], seen, dead);
        }
        if done {
          Relinked(graph, l, r, left0, right0, seen0, seen1, left[..], right[..], seen[..]);
          ghost var left1, right1 := left[..], right[..];
          left[l] := r;
          right[r] := l;
          assert left[..] == left1[l := r] && right[..] == right1[r := l];
          return true;
        }
      }
      return false;
    }

    /** Searches once from each left node, then lists the links. */
    method Compute() returns (result: seq<Pair>)
      requires Shape()
      requires forall l :: 0 <= l < left.Length ==> left[l] == UNUSED
      requires forall r :: 0 <= r < right.Length ==> right[r] == UNUSED
      modifies left, right
      ensures CertifiedMaximum(graph, result)
      ensures Mutual(graph, left[..], right[..]) && result == Links(left[..])
    {
      hide Augmented, Exhausted, SearchedInVain, Within, CertifiedMaximum;
      ghost var dead: set<nat> := {};
      NothingSearched(graph, left[..], right[..]);
      for l := 0 to graph.lhs
        invariant Mutual(graph, left[..], right[..])
        invariant forall k :: l <= k < graph.lhs ==> left[k] == UNUSED
        invariant Dead(graph, right[..], dead)
        invariant SearchedInVain(graph, left[..], l, dead)
      {
        // The fatal check at this point never fires.
        assert left[l] == UNUSED;
        var seen := new bool[graph.rhs](_ => false);
        assert seen[..] == seq(graph.rhs, _ => false);
        ghost var left0, right0, seen0 := left[..], right[..], seen[..];
        var found := TryAugment(l, seen, dead);
        if found {
          SuccessKeeps(graph, l, left0, right0, seen0, left[..], right[..], seen[..], dead);
        } else {
          DeadRegionGrows(graph, l, left[..], right[..], seen[..], dead);
          dead := dead + Marked(seen[..]);
        }
      }
      Certify(graph, left[..], right[..], dead);
      ghost var linked := left[..];
      result := [];
      for l := 0 to left.Length
        invariant left[..] == linked
        invariant result == Links(linked[..l])
      {
        assert linked[..l + 1][..l] == linked[..l];
        var r := left[l];
        if r == UNUSED {
          continue;
        }
        result := result + [(l, r)];
      }
      assert linked[..left.Length] == linked;
    }
  }

  method FindMaxBipartiteMatching(g: Graph) returns (matches: seq<Pair>)
    requires g.Valid()
    ensures IsMatching(g, matches)
    ensures forall other :: IsMatching(g, other) ==> |other| <= |matches|
    ensures CertifiedMaximum(g, matches)
  {
    var state := new MaxBipartiteMatchState(g);
    matches := state.Compute();
    forall other | IsMatching(g, other) ensures |other| <= |matches| {
      CertifiedIsMaximum(g, matches, other);
    }
  }

  // ---------- pairing all matchers ----------

  lemma MatchingFitsRightSide(g: Graph, m: seq<Pair>)
    requires g.Valid() && IsMatching(g, m)
    ensures |m| <= g.rhs
  {
    WeakDuality(g, m, {}, Below(g.rhs));
  }

  /** Koenig's certificate, read at the right side: all matchers are paired, or Hall's condition fails. */
  lemma FullOrBlocked(g: Graph, m: seq<Pair>)
    requires g.Valid() && CertifiedMaximum(g, m)
    ensures |m| == g.rhs ==> exists f :: IsAssignment(g, f)
    ensures |m| != g.rhs ==> exists rs :: HallViolator(g, rs)
  {
    if |m| == g.rhs {
      var f := FullMatchingGivesAssignment(g, m);
    } else {
      MatchingFitsRightSide(g, m);
      var ls, rs :| IsCover(g, ls, rs) && |ls| + |rs| <= |m| && rs <= Below(g.rhs);
      SmallCoverViolatesHall(g, ls, rs);
    }
  }

  /** Pairs all matchers with distinct elements they accept, exactly when that can be done. */
  method FindPairing(g: Graph) returns (result: bool)
    requires g.Valid()
    ensures result <==> exists f :: IsAssignment(g, f)
    ensures !result <==> exists rs :: HallViolator(g, rs)
  {
    var matches := FindMaxBipartiteMatching(g);
    result := |matches| == g.rhs;
    FullOrBlocked(g, matches);
    forall f, rs ensures !(IsAssignment(g, f) && HallViolator(g, rs)) {
      if HallViolator(g, rs) {
        HallViolatorBlocksAssignment(g, rs, f);
      }
    }
  }

  ghost predicate ElementMatched(g: Graph, l: int)
    requires g.Valid()
  {
    exists r :: g.HasEdge(l, r)
  }

  ghost predicate MatcherMatched(g: Graph, r: int)
    requires g.Valid()
  {
    exists l :: g.HasEdge(l, r)
  }

  ghost predicate AllMatched(g: Graph)
    requires g.Valid()
  {
    && (forall l :: 0 <= l < g.lhs ==> ElementMatched(g, l))
    && (forall r :: 0 <= r < g.rhs ==> MatcherMatched(g, r))
  }

  ghost predicate RowHit(g: Graph, l: int, n: int)
    requires g.Valid()
  {
    exists r :: 0 <= r < n && g.HasEdge(l, r)
  }

  ghost predicate ColumnHit(g: Graph, r: int, n: int)
    requires g.Valid()
  {
    exists l :: 0 <= l < n && g.HasEdge(l, r)
  }

  /** The flags say which rows and columns have an edge among the cells before (l, r) in row-major order. */
  ghost predicate Scanned(g: Graph, l: int, r: int, elements: seq<bool>, matchers: seq<bool>)
    requires g.Valid()
  {
    && |elements| == g.lhs && |matchers| == g.rhs
    && (forall k :: 0 <= k < |elements| ==>
          (elements[k] <==> RowHit(g, k, if k < l then g.rhs else if k == l then r else 0)))
    && (forall k :: 0 <= k < |matchers| ==> (matchers[k] <==> ColumnHit(g, k, if k < r then l + 1 else l)))
  }

  lemma ScanCell(g: Graph, l: int, r: int, elements: seq<bool>, matchers: seq<bool>)
    requires g.Valid() && g.InRange(l, r) && Scanned(g, l, r, elements, matchers)
    ensures Scanned(g, l, r + 1, elements[l := elements[l] || g.HasEdge(l, r)],
                    matchers[r := matchers[r] || g.HasEdge(l, r)])
  {
  }

  lemma ScanEnds(g: Graph, elements: seq<bool>, matchers: seq<bool>)
    requires g.Valid() && Scanned(g, g.lhs, 0, elements, matchers)
    ensures AllMatched(g) <==>
            && (forall k :: 0 <= k < |matchers| ==> matchers[k])
            && (forall k :: 0 <= k < |elements| ==> elements[k])
  {
    forall l | 0 <= l < g.lhs ensures elements[l] <==> ElementMatched(g, l) {
      assert elements[l] <==> RowHit(g, l, g.rhs);
      if ElementMatched(g, l) {
        var r :| g.HasEdge(l, r);
        assert 0 <= r < g.rhs && g.HasEdge(l, r);
      }
    }
    forall r | 0 <= r < g.rhs ensures matchers[r] <==> MatcherMatched(g, r) {
      assert matchers[r] <==> ColumnHit(g, r, g.lhs);
      if MatcherMatched(g, r) {
        var l :| g.HasEdge(l, r);
        assert 0 <= l < g.lhs && g.HasEdge(l, r);
      }
    }
  }

  /** The cheap necessary condition: no row and no column of the matrix is empty. */
  method VerifyAllElementsAndMatchersAreMatched(g: Graph) returns (result: bool)
    requires g.Valid()
    ensures result <==> AllMatched(g)
  {
    result := true;
    var elementMatched := new bool[g.lhs](_ => false);
    var matcherMatched := new bool[g.rhs](_ => false);
    for l := 0 to g.lhs
      invariant Scanned(g, l, 0, elementMatched[..], matcherMatched[..])
    {
      for r := 0 to g.rhs
        invariant Scanned(g, l, r, elementMatched[..], matcherMatched[..])
      {
        ghost var elements, matchers := elementMatched[..], matcherMatched[..];
        var matched := g.HasEdge(l, r);
        elementMatched[l] := elementMatched[l] || matched;
        matcherMatched[r] := matcherMatched[r] || matched;
        ScanCell(g, l, r, elements, matchers);
        assert elementMatched[..] == elements[l := elements[l] || matched];
        assert matcherMatched[..] == matchers[r := matchers[r] || matched];
      }
    }
    ScanEnds(g, elementMatched[..], matcherMatched[..]);
    for r := 0 to matcherMatched.Length
      invariant result <==> forall k :: 0 <= k < r ==> matcherMatched[k]
    {
      if !matcherMatched[r] {
        result := false;
      }
    }
    for l := 0 to elementMatched.Length
      invariant result <==>
                && (forall k :: 0 <= k < matcherMatched.Length ==> matcherMatched[k])
                && (forall k :: 0 <= k < l ==> elementMatched[k])
    {
      if !elementMatched[l] {
        result := false;
      }
    }
  }

  /** With as many elements as matchers, a pairing of all matchers uses all elements. */
  lemma PairingMatchesAll(g: Graph, f: seq<nat>)
    requires g.Valid() && g.lhs == g.rhs && IsAssignment(g, f)
    ensures AllMatched(g)
  {
    forall l | 0 <= l < g.lhs ensures ElementMatched(g, l) {
      Pigeonhole(f, l);
      var r :| 0 <= r < |f| && f[r] == l;
      assert g.HasEdge(l, r);
    }
    forall r | 0 <= r < g.rhs ensures MatcherMatched(g, r) {
      assert g.HasEdge(f[r], r);
    }
  }

  /**
    The verdict of UnorderedElementsAre: some permutation of the elements satisfies all matchers. The
    pre-check in front of the pairing never rejects an input that has one.
   */
  method MatchAndExplain(g: Graph) returns (result: bool)
    requires g.Valid()
    ensures result <==> g.lhs == g.rhs && exists f :: IsAssignment(g, f)
  {
    if g.lhs == 0 && g.rhs == 0 {
      assert IsAssignment(g, []);
      return true;
    }
    if g.lhs != g.rhs {
      return false;
    }
    result := VerifyAllElementsAndMatchersAreMatched(g);
    if f :| IsAssignment(g, f) {
      PairingMatchesAll(g, f);
    }
    if result {
      result := FindPairing(g);
    }
  }

  // ---------- stepping through all graphs ----------

  /** A row of cells read as a binary number, lowest bit first. */
  ghost function Value(bits: seq<bool>): nat
  {
    if bits == [] then 0 else (if bits[0] then 1 else 0) + 2 * Value(bits[1..])
  }

  lemma {:induction false} ValueInjective(a: seq<bool>, b: seq<bool>)
    requires |a| == |b| && Value(a) == Value(b)
    ensures a == b
  {
    if a != [] {
      ValueInjective(a[1..], b[1..]);
      assert a == [a[0]] + a[1..] && b == [b[0]] + b[1..];
    }
  }

  ghost function Pow2(n: nat): (p: nat)
    ensures p >= 1
  {
    if n == 0 then 1 else 2 * Pow2(n - 1)
  }

  lemma {:induction false} ValueBound(bits: seq<bool>)
    ensures Value(bits) < Pow2(|bits|)
  {
    if bits != [] {
      ValueBound(bits[1..]);
    }
  }

  /** A carry has run through the first `k` cells, all set, and cleared them. */
  ghost predicate Carried(before: seq<bool>, now: seq<bool>, k: nat)
  {
    && k <= |before| == |now|
    && (forall j :: 0 <= j < k ==> before[j] && !now[j])
    && before[k..] == now[k..]
  }

  lemma CarryOn(before: seq<bool>, now: seq<bool>, k: nat)
    requires k < |now| && Carried(before, now, k) && now[k]
    ensures Carried(before, now[k := false], k + 1)
  {
  }

  /** The carry stops at a clear cell and sets it. */
  lemma {:induction false} CarryStopsValue(before: seq<bool>, now: seq<bool>, k: nat)
    requires k < |now| && Carried(before, now, k) && !now[k]
    ensures Value(now[k := true]) == Value(before) + 1
  {
    assert before[k] == before[k..][0] == now[k..][0];
    if k == 0 {
      assert before[1..] == before[0..][1..] == now[0..][1..] == now[0 := true][1..];
    } else {
      assert before[1..][k - 1..] == before[k..] && now[1..][k - 1..] == now[k..];
      CarryStopsValue(before[1..], now[1..], k - 1);
      assert now[k := true][1..] == now[1..][k - 1 := true];
    }
  }

  lemma CarryStops(before: seq<bool>, now: seq<bool>, k: nat)
    requires k < |now| && Carried(before, now, k) && !now[k]
    ensures Value(now[k := true]) == Successor(before) != 0
  {
    CarryStopsValue(before, now, k);
    ValueBound(now[k := true]);
  }

  /** The next number that fits, or 0 after the last. */
  ghost function Successor(bits: seq<bool>): nat
  {
    if Value(bits) + 1 == Pow2(|bits|) then 0 else Value(bits) + 1
  }

  /** The carry runs off the end. */
  lemma {:induction false} CarryWraps(before: seq<bool>, now: seq<bool>)
    requires Carried(before, now, |now|)
    ensures Value(now) == 0 == Successor(before) && Value(before) + 1 == Pow2(|before|)
  {
    if before != [] {
      CarryWraps(before[1..], now[1..]);
    }
  }

  /**
    Counting from the empty graph meets every graph once before it comes back: the numbers from 0 on
    stand for the graphs, each for one.
   */
  lemma CountingMeetsAll(n: nat, visited: seq<seq<bool>>)
    requires |visited| == Pow2(n) && forall i :: 0 <= i < |visited| ==> |visited[i]| == n && Value(visited[i]) == i
    ensures forall bits: seq<bool> :: |bits| == n ==> Value(bits) < |visited| && visited[Value(bits)] == bits
    ensures forall i, j :: 0 <= i < j < |visited| ==> visited[i] != visited[j]
  {
    forall bits: seq<bool> | |bits| == n ensures Value(bits) < |visited| && visited[Value(bits)] == bits {
      ValueBound(bits);
      ValueInjective(visited[Value(bits)], bits);
    }
  }

  class MatchMatrix {
    const numElements: nat
    const numMatchers: nat
    const matched: array<bool>

    constructor (numElements: nat, numMatchers: nat)
      ensures View() == Graph(numElements, numMatchers, seq(numElements * numMatchers, _ => false))
      ensures fresh(matched)
    {
      this.numElements := numElements;
      this.numMatchers := numMatchers;
      matched := new bool[numElements * numMatchers](_ => false);
    }

    function View(): Graph
      reads matched
    {
      Graph(numElements, numMatchers, matched[..])
    }

    method SetEdge(l: nat, r: nat, b: bool)
      requires View().Valid() && View().InRange(l, r)
      modifies matched
      ensures View().Valid()
      ensures forall l', r' :: View().HasEdge(l', r') <==> if l' == l && r' == r then b else old(View()).HasEdge(l', r')
    {
      ghost var g := View();
      forall l', r' | g.InRange(l', r') && g.SpaceIndex(l', r') == g.SpaceIndex(l, r) ensures l' == l && r' == r {
        SpaceIndexInjective(g, l, r, l', r');
      }
      matched[View().SpaceIndex(l, r)] := b;
    }

    /** Adds one to the matrix read as a binary number; false if that made it empty. */
    method NextGraph() returns (more: bool)
      requires View().Valid()
      modifies matched
      ensures Value(matched[..]) == Successor(old(matched[..]))
      ensures more <==> Value(matched[..]) != 0
    {
      ghost var before := matched[..];
      var k := 0;
      for l := 0 to numElements
        invariant k == l * numMatchers && Carried(before, matched[..], k)
      {
        for r := 0 to numMatchers
          invariant k == l * numMatchers + r && Carried(before, matched[..], k)
        {
          assert k == View().SpaceIndex(l, r);
          ghost var now := matched[..];
          if !matched[k] {
            matched[k] := true;
            CarryStops(before, now, k);
            assert matched[..] == now[k := true];
            return true;
          }
          matched[k] := false;
          CarryOn(before, now, k);
          assert matched[..] == now[k := false];
          k := k + 1;
        }
      }
      CarryWraps(before, matched[..]);
      return false;
    }
  }

  lemma {:induction false} EmptyIsZero(bits: seq<bool>)
    requires forall k :: 0 <= k < |bits| ==> !bits[k]
    ensures Value(bits) == 0
  {
    if bits != [] {
      EmptyIsZero(bits[1..]);
    }
  }

  /** Going through all graphs of a size with NextGraph: each is met exactly once. */
  method AllGraphs(numElements: nat, numMatchers: nat) returns (graphs: seq<Graph>)
    ensures forall i :: 0 <= i < |graphs| ==>
              graphs[i].Valid() && graphs[i].lhs == numElements && graphs[i].rhs == numMatchers
    ensures forall g: Graph :: g.Valid() && g.lhs == numElements && g.rhs == numMatchers ==> g in graphs
    ensures forall i, j :: 0 <= i < j < |graphs| ==> graphs[i] != graphs[j]
  {
    var m := new MatchMatrix(numElements, numMatchers);
    ghost var n := numElements * numMatchers;
    ghost var visited: seq<seq<bool>> := [];
    graphs := [];
    var more := true;
    EmptyIsZero(m.matched[..]);
    while more
      invariant m.View().Valid() && m.numElements == numElements && m.numMatchers == numMatchers && fresh(m.matched)
      invariant |graphs| == |visited| <= Pow2(n) && more == (|visited| < Pow2(n))
      invariant more ==> Value(m.matched[..]) == |visited|
      invariant forall i :: 0 <= i < |visited| ==> |visited[i]| == n && Value(visited[i]) == i
      invariant forall i :: 0 <= i < |visited| ==> graphs[i] == Graph(numElements, numMatchers, visited[i])
      decreases Pow2(n) - |visited|
    {
      graphs := graphs + [m.View()];
      visited := visited + [m.matched[..]];
      more := m.NextGraph();
    }
    CountingMeetsAll(n, visited);
    forall g: Graph | g.Valid() && g.lhs == numElements && g.rhs == numMatchers ensures g in graphs {
      assert graphs[Value(g.cells)] == g;
    }
  }
}
