/**
  Google Mock's graph of expectations: prerequisites recorded by sequences, calls that retire them,
  and the traversals that take short cuts through satisfied or retired parts of the graph.
 */
module Expectations {

  /** The expectation graph is acyclic because edges lead to expectations set earlier. */
  ghost predicate Graph(nodes: set<Expectation>)
    reads nodes`prerequisites
  {
    forall e, p :: e in nodes && p in e.prerequisites ==> p in nodes && p.birth < e.birth
  }

  /** `q` is a prerequisite of `e`, directly or through others. */
  ghost predicate Reaches(nodes: set<Expectation>, e: Expectation, q: Expectation)
    requires Graph(nodes) && e in nodes
    reads nodes`prerequisites
    decreases e.birth
  {
    q in e.prerequisites || exists p :: p in e.prerequisites && Reaches(nodes, p, q)
  }

  /** `p` itself or one of its prerequisites. */
  ghost predicate ReachesOrIs(nodes: set<Expectation>, p: Expectation, q: Expectation)
    requires Graph(nodes) && p in nodes
    reads nodes`prerequisites
  {
    q == p || Reaches(nodes, p, q)
  }

  /** Nothing is retired before all its prerequisites are. */
  ghost predicate RetiredClosed(nodes: set<Expectation>)
    reads nodes`prerequisites, nodes`retired
  {
    forall e, p :: e in nodes && p in nodes && e.retired && p in e.prerequisites ==> p.retired
  }

  lemma {:induction false} ClosedUnderReaches(nodes: set<Expectation>, e: Expectation, q: Expectation)
    requires Graph(nodes) && e in nodes && RetiredClosed(nodes) && e.retired && Reaches(nodes, e, q)
    ensures q.retired
    decreases e.birth
  {
    if q !in e.prerequisites {
      var p :| p in e.prerequisites && Reaches(nodes, p, q);
      ClosedUnderReaches(nodes, p, q);
    }
  }

  lemma {:induction false} ReachesInside(nodes: set<Expectation>, e: Expectation, q: Expectation)
    requires Graph(nodes) && e in nodes && Reaches(nodes, e, q)
    ensures q in nodes && q.birth < e.birth
    decreases e.birth
  {
    if q !in e.prerequisites {
      var p :| p in e.prerequisites && Reaches(nodes, p, q);
      ReachesInside(nodes, p, q);
    }
  }

  lemma {:induction false} ReachesTransitive(nodes: set<Expectation>, e: Expectation, p: Expectation, q: Expectation)
    requires Graph(nodes) && e in nodes && p in nodes && Reaches(nodes, e, p) && Reaches(nodes, p, q)
    ensures Reaches(nodes, e, q)
    decreases e.birth
  {
    if p !in e.prerequisites {
      var p' :| p' in e.prerequisites && Reaches(nodes, p', p);
      ReachesTransitive(nodes, p', p, q);
    }
  }

  /** `q` is among `ps` or a prerequisite of one of them. */
  ghost predicate ReachedFrom(nodes: set<Expectation>, ps: set<Expectation>, q: Expectation)
    requires Graph(nodes) && ps <= nodes
    reads nodes`prerequisites
  {
    exists p :: p in ps && ReachesOrIs(nodes, p, q)
  }

  lemma ReachesIffReachedFrom(nodes: set<Expectation>, e: Expectation, q: Expectation)
    requires Graph(nodes) && e in nodes
    ensures e.prerequisites <= nodes
    ensures Reaches(nodes, e, q) <==> ReachedFrom(nodes, e.prerequisites, q)
  {
  }

  /** All prerequisites of `e`, at any distance, are satisfied. */
  ghost predicate AllSatisfied(nodes: set<Expectation>, e: Expectation)
    requires Graph(nodes) && e in nodes
    reads nodes`prerequisites, nodes`callCount
  {
    forall q :: q in nodes && Reaches(nodes, e, q) ==> q.min <= q.callCount <= q.max
  }

  ghost predicate SelfAndAllSatisfied(nodes: set<Expectation>, p: Expectation)
    requires Graph(nodes) && p in nodes
    reads nodes`prerequisites, nodes`callCount
  {
    p.min <= p.callCount <= p.max && AllSatisfied(nodes, p)
  }

  lemma AllSatisfiedIff(nodes: set<Expectation>, e: Expectation)
    requires Graph(nodes) && e in nodes
    ensures AllSatisfied(nodes, e) <==> forall p :: p in e.prerequisites ==> SelfAndAllSatisfied(nodes, p)
  {
  }

  /**
    `q` is reported as blocking `e`: it is unsatisfied, and the path to it passes only through
    satisfied expectations that were never called.
   */
  ghost predicate Blocks(nodes: set<Expectation>, e: Expectation, q: Expectation)
    requires Graph(nodes) && e in nodes
    reads nodes`prerequisites, nodes`callCount
    decreases e.birth, 0
  {
    exists p :: p in e.prerequisites && p in nodes && p.birth < e.birth && BlocksVia(nodes, p, q)
  }

  ghost predicate BlocksVia(nodes: set<Expectation>, p: Expectation, q: Expectation)
    requires Graph(nodes) && p in nodes
    reads nodes`prerequisites, nodes`callCount
    decreases p.birth, 1
  {
    if p.min <= p.callCount <= p.max then p.callCount == 0 && Blocks(nodes, p, q) else q == p
  }

  /** What is reported as blocking `e`. */
  ghost function Blocking(nodes: set<Expectation>, e: Expectation): set<Expectation>
    requires Graph(nodes) && e in nodes
    reads nodes`prerequisites, nodes`callCount
  {
    set q | q in nodes && Blocks(nodes, e, q)
  }

  ghost function BlockingVia(nodes: set<Expectation>, ps: set<Expectation>): set<Expectation>
    requires Graph(nodes) && ps <= nodes
    reads nodes`prerequisites, nodes`callCount
  {
    set q | q in nodes && exists p :: p in ps && BlocksVia(nodes, p, q)
  }

  lemma BlockingSplits(nodes: set<Expectation>, e: Expectation)
    requires Graph(nodes) && e in nodes
    ensures e.prerequisites <= nodes
    ensures Blocking(nodes, e) == BlockingVia(nodes, e.prerequisites)
  {
  }

  lemma BlockingViaOne(nodes: set<Expectation>, ps: set<Expectation>, p: Expectation)
    requires Graph(nodes) && p in nodes && ps <= nodes
    ensures BlockingVia(nodes, ps + {p}) == BlockingVia(nodes, ps) +
            if !(p.min <= p.callCount <= p.max) then {p} else if p.callCount == 0 then Blocking(nodes, p) else {}
  {
  }

  class Expectation {
    /** The order in which expectations were set; used by the proofs only. */
    ghost const birth: nat
    // The cardinality: how many calls satisfy and how many saturate the expectation.
    const min: nat
    const max: nat
    const retiresOnSaturation: bool
    var prerequisites: set<Expectation>
    var callCount: nat
    var retired: bool

    /** Negative bounds count as none, and an upper bound below the lower one as the lower one. */
    constructor (ghost birth: nat, min: int, max: int, retiresOnSaturation: bool)
      ensures this.birth == birth && this.min == (if min >= 0 then min else 0)
      ensures this.max == (if max >= this.min then max else this.min)
      ensures this.retiresOnSaturation == retiresOnSaturation
      ensures prerequisites == {} && callCount == 0 && !retired
    {
      this.birth := birth;
      var lower := if min >= 0 then min else 0;
      this.min := lower;
      this.max := if max >= lower then max else lower;
      this.retiresOnSaturation := retiresOnSaturation;
      prerequisites := {};
      callCount := 0;
      retired := false;
    }

    predicate IsSatisfied()
      reads this`callCount
    {
      min <= callCount <= max
    }

    predicate IsSaturated()
      reads this`callCount
    {
      callCount >= max
    }

    /**
      Retires exactly the transitive prerequisites, although it stops at whatever is retired already.
     */
    method RetireAllPreRequisites(ghost nodes: set<Expectation>)
      requires Graph(nodes) && this in nodes && RetiredClosed(nodes)
      modifies nodes`retired
      ensures RetiredClosed(nodes)
      ensures forall q :: q in nodes ==> (q.retired <==> old(q.retired) || Reaches(nodes, this, q))
      decreases birth
    {
      if retired {
        forall q | q in nodes && Reaches(nodes, this, q) ensures q.retired {
          ClosedUnderReaches(nodes, this, q);
        }
        return;
      }
      var todo := prerequisites;
      ghost var done: set<Expectation> := {};
      while todo != {}
        invariant todo + done == prerequisites && RetiredClosed(nodes)
        invariant forall q :: q in nodes ==> (q.retired <==> old(q.retired) || ReachedFrom(nodes, done, q))
      {
        var p :| p in todo;
        label before:
        if !p.retired {
          p.RetireAllPreRequisites(nodes);
          p.retired := true;
        } else {
          forall q | q in nodes && Reaches(nodes, p, q) ensures q.retired {
            ClosedUnderReaches(nodes, p, q);
          }
        }
        assert forall q :: q in nodes ==> (q.retired <==> old@before(q.retired) || ReachesOrIs(nodes, p, q));
        forall q | q in nodes
          ensures ReachedFrom(nodes, done + {p}, q) <==> ReachedFrom(nodes, done, q) || ReachesOrIs(nodes, p, q)
        {
        }
        todo := todo - {p};
        done := done + {p};
      }
      forall q | q in nodes ensures Reaches(nodes, this, q) <==> ReachedFrom(nodes, done, q) {
        ReachesIffReachedFrom(nodes, this, q);
      }
    }

    method AllPrerequisitesAreSatisfied(ghost nodes: set<Expectation>) returns (all: bool)
      requires Graph(nodes) && this in nodes
      ensures all <==> forall q :: q in nodes && Reaches(nodes, this, q) ==> q.min <= q.callCount <= q.max
      decreases birth
    {
      AllSatisfiedIff(nodes, this);
      var todo := prerequisites;
      while todo != {}
        invariant todo <= prerequisites
        invariant forall p :: p in prerequisites - todo ==> SelfAndAllSatisfied(nodes, p)
      {
        var p :| p in todo;
        var all := p.IsSatisfied();
        if all {
          all := p.AllPrerequisitesAreSatisfied(nodes);
        }
        if !all {
          return false;
        }
        todo := todo - {p};
      }
      assert prerequisites - todo == prerequisites;
      return true;
    }

    method FindUnsatisfiedPrerequisites(result: set<Expectation>, ghost nodes: set<Expectation>)
      returns (found: set<Expectation>)
      requires Graph(nodes) && this in nodes
      ensures found == result + Blocking(nodes, this)
      decreases birth
    {
      found := result;
      var todo := prerequisites;
      ghost var done: set<Expectation> := {};
      while todo != {}
        invariant todo + done == prerequisites
        invariant found == result + BlockingVia(nodes, done)
      {
        var p :| p in todo;
        BlockingViaOne(nodes, done, p);
        if p.IsSatisfied() {
          if p.callCount == 0 {
            found := p.FindUnsatisfiedPrerequisites(found, nodes);
          }
        } else {
          found := found + {p};
        }
        todo := todo - {p};
        done := done + {p};
      }
      assert done == prerequisites;
      BlockingSplits(nodes, this);
    }

    /** Whether the expectation may handle a call that its matchers accept. */
    method ShouldHandle(matches: bool, ghost nodes: set<Expectation>) returns (should: bool)
      requires Graph(nodes) && this in nodes
      ensures should <==> matches && !retired && AllSatisfied(nodes, this)
    {
      should := !retired;
      if should {
        should := AllPrerequisitesAreSatisfied(nodes);
      }
      should := should && matches;
    }

    /** Counts a call; unless it is excessive, everything that had to come before is retired. */
    method HandleCall(ghost nodes: set<Expectation>) returns (excessive: bool)
      requires Valid(nodes) && this in nodes && !retired && AllSatisfied(nodes, this)
      modifies nodes`retired, this`callCount
      ensures Valid(nodes)
      ensures callCount == old(callCount) + 1
      ensures excessive <==> old(callCount) >= max
      ensures forall q :: q in nodes ==>
                (q.retired <==> old(q.retired)
                                || (!excessive && Reaches(nodes, this, q))
                                || (!excessive && q == this && retiresOnSaturation && callCount >= max))
      ensures (forall q, call: Call :: q in nodes && Reaches(nodes, this, q) ==> !CanHandle(nodes, call, q))
              <==> max > 0 || old(forall p :: p in prerequisites ==> p.retired)
    {
      PrerequisitesAreReached(nodes, this);
      if IsSaturated() {
        callCount := callCount + 1;
        ClosedIffRetired(nodes, this);
        return true;
      }
      callCount := callCount + 1;
      RetireAllPreRequisites(nodes);
      if retiresOnSaturation && IsSaturated() {
        retired := true;
      }
      ClosedIffRetired(nodes, this);
      return false;
    }
  }

  // ---------- what every call keeps ----------

  /**
    The expectation has handled a call that was not excessive. Every call is excessive for one that
    expects none.
   */
  ghost predicate Accepted(e: Expectation)
    reads e`callCount
  {
    e.callCount > 0 && e.max > 0
  }

  /** An expectation that has accepted a call is done with its prerequisites: satisfied, and retired for good. */
  ghost predicate AcceptedAreDone(nodes: set<Expectation>)
    requires Graph(nodes)
    reads nodes`prerequisites, nodes`callCount, nodes`retired
  {
    forall e, q :: e in nodes && q in nodes && Accepted(e) && Reaches(nodes, e, q) ==>
      q.retired && q.min <= q.callCount <= q.max
  }

  ghost predicate Valid(nodes: set<Expectation>)
    reads nodes`prerequisites, nodes`callCount, nodes`retired
  {
    && Graph(nodes) && RetiredClosed(nodes) && AcceptedAreDone(nodes)
    && forall e :: e in nodes ==> e.min <= e.max
  }

  // ---------- the explanation of a refused call ----------

  /** What is reported is an unsatisfied prerequisite. */
  lemma {:induction false} BlocksSound(nodes: set<Expectation>, e: Expectation, q: Expectation)
    requires Graph(nodes) && e in nodes && Blocks(nodes, e, q)
    ensures Reaches(nodes, e, q) && !(q.min <= q.callCount <= q.max)
    decreases e.birth
  {
    var p :| p in e.prerequisites && p in nodes && p.birth < e.birth && BlocksVia(nodes, p, q);
    if p.min <= p.callCount <= p.max {
      BlocksSound(nodes, p, q);
    }
  }

  /**
    Skipping the prerequisites of what has been called loses nothing: every unsatisfied prerequisite
    is reported itself or comes before one that is.
   */
  lemma {:induction false} BlocksComplete(nodes: set<Expectation>, e: Expectation, q: Expectation)
    returns (u: Expectation)
    requires Valid(nodes) && e in nodes && q in nodes && Reaches(nodes, e, q)
    requires !(q.min <= q.callCount <= q.max)
    ensures u in nodes && Blocks(nodes, e, u) && ReachesOrIs(nodes, u, q)
    decreases e.birth
  {
    var p: Expectation;
    if q in e.prerequisites {
      p := q;
    } else {
      p :| p in e.prerequisites && Reaches(nodes, p, q);
    }
    if !(p.min <= p.callCount <= p.max) {
      u := p;
    } else {
      // Had the satisfied expectation been called, its prerequisites would be satisfied.
      assert p.callCount == 0;
      u := BlocksComplete(nodes, p, q);
    }
    assert BlocksVia(nodes, p, u);
  }

  /** The collector finds nothing exactly when all prerequisites are satisfied. */
  lemma NothingBlocksIffSatisfied(nodes: set<Expectation>, e: Expectation)
    requires Valid(nodes) && e in nodes
    ensures Blocking(nodes, e) == {} <==> AllSatisfied(nodes, e)
  {
    if AllSatisfied(nodes, e) {
      forall q | q in Blocking(nodes, e) ensures false {
        BlocksSound(nodes, e, q);
      }
    } else {
      var q :| q in nodes && Reaches(nodes, e, q) && !(q.min <= q.callCount <= q.max);
      var u := BlocksComplete(nodes, e, q);
      assert u in Blocking(nodes, e);
    }
  }

  // ---------- growing the graph ----------

  /** Changing the newest expectation's prerequisites does not change what older ones reach. */
  lemma {:induction false} ReachesOlder(nodes: set<Expectation>, newest: Expectation, e: Expectation, q: Expectation)
    requires Graph(nodes) && newest in nodes && e in nodes && e != newest
    requires forall x :: x in nodes && x != newest ==> x.birth < newest.birth
    ensures Graph(nodes - {newest})
    ensures Reaches(nodes, e, q) <==> Reaches(nodes - {newest}, e, q)
    decreases e.birth
  {
    forall p | p in e.prerequisites ensures Reaches(nodes, p, q) <==> Reaches(nodes - {newest}, p, q) {
      ReachesOlder(nodes, newest, p, q);
    }
  }

  lemma OlderStaySame(nodes: set<Expectation>, newest: Expectation)
    requires Graph(nodes) && newest in nodes
    requires forall x :: x in nodes && x != newest ==> x.birth < newest.birth
    ensures Graph(nodes - {newest})
    ensures forall e, q :: e in nodes && e != newest && q in nodes ==>
              (Reaches(nodes, e, q) <==> Reaches(nodes - {newest}, e, q))
  {
    forall e, q | e in nodes && e != newest && q in nodes
      ensures Graph(nodes - {newest}) && (Reaches(nodes, e, q) <==> Reaches(nodes - {newest}, e, q))
    {
      ReachesOlder(nodes, newest, e, q);
    }
  }

  /** An ordered sequence of expectations. */
  class Sequence {
    var last: Expectation?
    /** The expectations added, in order. */
    ghost var members: seq<Expectation>

    constructor ()
      ensures last == null && members == []
    {
      last := null;
      members := [];
    }

    ghost predicate InOrder(nodes: set<Expectation>)
      reads this, nodes`prerequisites
    {
      && (last == null <==> members == [])
      && (last != null ==> last == members[|members| - 1])
      && (forall k :: 0 <= k < |members| ==> members[k] in nodes)
      && (forall k :: 0 <= k < |members| - 1 ==> members[k] in members[k + 1].prerequisites)
    }

    /** Appends the expectation set last to the sequence; doing so twice changes nothing. */
    method AddExpectation(e: Expectation, ghost nodes: set<Expectation>)
      requires Valid(nodes) && e in nodes && InOrder(nodes)
      requires forall x :: x in nodes && x != e ==> x.birth < e.birth
      requires e.callCount == 0 && !e.retired
      modifies this, e`prerequisites
      ensures Valid(nodes) && InOrder(nodes)
      ensures members == if old(last) == e then old(members) else old(members) + [e]
      ensures last == e
      ensures e.prerequisites == old(e.prerequisites) + if old(last) == e || old(last) == null then {} else {old(last)}
    {
      OlderStaySame(nodes, e);
      if last != e {
        if last != null {
          assert last.birth < e.birth;
          e.prerequisites := e.prerequisites + {last};
        }
        last := e;
        members := members + [e];
      }
      OlderStaySame(nodes, e);
    }

    /** Everything earlier in a sequence is a prerequisite of everything later. */
    lemma {:induction false} EarlierIsReached(nodes: set<Expectation>, i: nat, j: nat)
      requires Graph(nodes) && InOrder(nodes) && i < j < |members|
      ensures Reaches(nodes, members[j], members[i])
      decreases j
    {
      assert members[j - 1] in members[j].prerequisites;
      if i < j - 1 {
        EarlierIsReached(nodes, i, j - 1);
      }
    }
  }

  // ---------- calls ----------

  /** A call of a mock function: its expectations in the order they were set, and those whose matchers accept. */
  datatype Call = Call(expectations: seq<Expectation>, accepting: set<Expectation>)

  ghost predicate CanHandle(nodes: set<Expectation>, call: Call, e: Expectation)
    requires Graph(nodes) && e in nodes
    reads nodes`prerequisites, nodes`callCount, nodes`retired
  {
    e in call.accepting && !e.retired && AllSatisfied(nodes, e)
  }

  /** Nothing before `e` can handle any call exactly when all that is directly before `e` is retired. */
  lemma ClosedIffRetired(nodes: set<Expectation>, e: Expectation)
    requires Graph(nodes) && RetiredClosed(nodes) && e in nodes && AllSatisfied(nodes, e)
    ensures (forall q, call: Call :: q in nodes && Reaches(nodes, e, q) ==> !CanHandle(nodes, call, q))
            <==> forall p :: p in e.prerequisites ==> p.retired
  {
    if forall p :: p in e.prerequisites ==> p.retired {
      forall q | q in nodes && Reaches(nodes, e, q) ensures q.retired {
        if q !in e.prerequisites {
          var p :| p in e.prerequisites && Reaches(nodes, p, q);
          ClosedUnderReaches(nodes, p, q);
        }
      }
    } else {
      var p :| p in e.prerequisites && !p.retired;
      AllSatisfiedIff(nodes, e);
      assert Reaches(nodes, e, p) && CanHandle(nodes, Call([], {p}), p);
    }
  }

  /** Direct prerequisites are among all prerequisites, and nothing is among its own. */
  lemma PrerequisitesAreReached(nodes: set<Expectation>, e: Expectation)
    requires Graph(nodes) && e in nodes
    ensures forall p :: p in e.prerequisites ==> p in nodes && Reaches(nodes, e, p)
    ensures forall q :: q in nodes && Reaches(nodes, e, q) ==> q != e && !Reaches(nodes, q, e)
  {
    forall q | q in nodes && Reaches(nodes, e, q) ensures q != e && !Reaches(nodes, q, e) {
      ReachesInside(nodes, e, q);
      if Reaches(nodes, q, e) {
        ReachesInside(nodes, q, e);
      }
    }
  }

  /** The newest expectation that can handle the call. */
  method FindMatchingExpectation(call: Call, ghost nodes: set<Expectation>) returns (e: Expectation?)
    requires Graph(nodes) && forall x :: x in call.expectations ==> x in nodes
    ensures e == null ==> forall x :: x in call.expectations ==> !CanHandle(nodes, call, x)
    ensures e != null ==> e in nodes && CanHandle(nodes, call, e)
    ensures e != null ==> exists k :: 0 <= k < |call.expectations| && call.expectations[k] == e
                            && forall j :: k < j < |call.expectations| ==> !CanHandle(nodes, call, call.expectations[j])
  {
    var k := |call.expectations|;
    while k > 0
      invariant 0 <= k <= |call.expectations|
      invariant forall j :: k <= j < |call.expectations| ==> !CanHandle(nodes, call, call.expectations[j])
    {
      k := k - 1;
      var x := call.expectations[k];
      var should := x.ShouldHandle(x in call.accepting, nodes);
      if should {
        return x;
      }
    }
    return null;
  }

  /** No call is handled by a prerequisite of what has accepted a call before. */
  ghost predicate RespectsOrder(nodes: set<Expectation>, log: seq<Expectation?>)
    requires Graph(nodes)
    reads nodes`prerequisites
  {
    forall i, j :: 0 <= i < j < |log| && log[i] != null && log[j] != null && log[i] in nodes && log[i].max > 0 ==>
      !Reaches(nodes, log[i], log[j])
  }

  /** When a call was handled, every prerequisite had been called as often as its cardinality wants. */
  ghost predicate PrerequisitesFirst(nodes: set<Expectation>, before: map<Expectation, nat>, log: seq<Expectation?>)
    requires Graph(nodes) && before.Keys == nodes
    reads nodes`prerequisites
  {
    forall i, q :: 0 <= i < |log| && log[i] != null && log[i] in nodes && q in nodes && Reaches(nodes, log[i], q) ==>
      q.min <= before[q] + multiset(log[..i])[q] <= q.max
  }

  /** The log says how often each expectation was called. */
  ghost predicate Counted(nodes: set<Expectation>, before: map<Expectation, nat>, log: seq<Expectation?>)
    requires before.Keys == nodes
    reads nodes`callCount
  {
    && (forall e :: e in nodes ==> e.callCount == before[e] + multiset(log)[e])
    && (forall e :: e in log && e != null ==> e in nodes)
  }

  lemma OrderExtends(nodes: set<Expectation>, before: map<Expectation, nat>, log: seq<Expectation?>, e: Expectation?)
    requires Valid(nodes) && before.Keys == nodes && Counted(nodes, before, log)
    requires RespectsOrder(nodes, log) && (e != null ==> e in nodes && !e.retired)
    ensures RespectsOrder(nodes, log + [e])
  {
  }

  lemma PrerequisitesFirstExtends(nodes: set<Expectation>, before: map<Expectation, nat>, log: seq<Expectation?>,
                                  e: Expectation?)
    requires Graph(nodes) && before.Keys == nodes && Counted(nodes, before, log)
    requires PrerequisitesFirst(nodes, before, log)
    requires e != null ==> e in nodes && AllSatisfied(nodes, e)
    ensures PrerequisitesFirst(nodes, before, log + [e])
  {
    forall i, q | 0 <= i < |log + [e]| && (log + [e])[i] != null && (log + [e])[i] in nodes
                  && q in nodes && Reaches(nodes, (log + [e])[i], q)
      ensures q.min <= before[q] + multiset((log + [e])[..i])[q] <= q.max
    {
      assert (log + [e])[..i] == log[..i];
      if i == |log| {
        assert log[..i] == log;
        assert q.min <= q.callCount <= q.max;
      } else {
        assert (log + [e])[i] == log[i];
      }
    }
  }

  // ---------- who answers which call, from the calls before it ----------

  /** How often `q` had been called before the i-th call. */
  ghost function Count(before: map<Expectation, nat>, log: seq<Expectation?>, i: nat, q: Expectation): int
    requires q in before && i <= |log|
  {
    before[q] + multiset(log[..i])[q]
  }

  /** The j-th call was not excessive and retired `q`: as a prerequisite, or because it saturated it. */
  ghost predicate RetiredBy(nodes: set<Expectation>, before: map<Expectation, nat>, log: seq<Expectation?>, j: nat,
                            q: Expectation)
    requires Graph(nodes) && before.Keys == nodes && j < |log| && q in nodes
    reads nodes`prerequisites
  {
    && log[j] != null && log[j] in nodes && Count(before, log, j, log[j]) < log[j].max
    && (Reaches(nodes, log[j], q)
        || (log[j] == q && q.retiresOnSaturation && Count(before, log, j, q) + 1 >= q.max))
  }

  /** `q` was retired before the i-th call; `gone` is what was retired before all calls. */
  ghost predicate RetiredThen(nodes: set<Expectation>, before: map<Expectation, nat>, gone: set<Expectation>,
                              log: seq<Expectation?>, i: nat, q: Expectation)
    requires Graph(nodes) && before.Keys == nodes && i <= |log| && q in nodes
    reads nodes`prerequisites
  {
    q in gone || exists j :: 0 <= j < i && RetiredBy(nodes, before, log, j, q)
  }

  /** The i-th call could be handled by `x`: accepted, not retired, and all prerequisites within their bounds. */
  ghost predicate CouldThen(nodes: set<Expectation>, before: map<Expectation, nat>, gone: set<Expectation>,
                            log: seq<Expectation?>, i: nat, call: Call, x: Expectation)
    requires Graph(nodes) && before.Keys == nodes && i <= |log| && x in nodes
    reads nodes`prerequisites
  {
    && x in call.accepting && !RetiredThen(nodes, before, gone, log, i, x)
    && forall q :: q in nodes && Reaches(nodes, x, q) ==> q.min <= Count(before, log, i, q) <= q.max
  }

  /** The i-th call is handled by the newest expectation that could handle it, and by none if none could. */
  ghost predicate AnsweredAt(nodes: set<Expectation>, before: map<Expectation, nat>, gone: set<Expectation>,
                             log: seq<Expectation?>, i: nat, call: Call)
    requires Graph(nodes) && before.Keys == nodes && i < |log| && forall x :: x in call.expectations ==> x in nodes
    reads nodes`prerequisites
  {
    var xs := call.expectations;
    if log[i] == null then
      forall k :: 0 <= k < |xs| ==> !CouldThen(nodes, before, gone, log, i, call, xs[k])
    else
      exists k :: 0 <= k < |xs| && xs[k] == log[i] && CouldThen(nodes, before, gone, log, i, call, xs[k])
                  && forall j :: k < j < |xs| ==> !CouldThen(nodes, before, gone, log, i, call, xs[j])
  }

  /** The log says what is retired. */
  ghost predicate RetiredKnown(nodes: set<Expectation>, before: map<Expectation, nat>, gone: set<Expectation>,
                               log: seq<Expectation?>)
    requires Graph(nodes) && before.Keys == nodes
    reads nodes`prerequisites, nodes`retired
  {
    forall q :: q in nodes ==> (q.retired <==> RetiredThen(nodes, before, gone, log, |log|, q))
  }

  lemma CouldIsCan(nodes: set<Expectation>, before: map<Expectation, nat>, gone: set<Expectation>,
                   log: seq<Expectation?>, call: Call, x: Expectation)
    requires Graph(nodes) && before.Keys == nodes && x in nodes
    requires Counted(nodes, before, log) && RetiredKnown(nodes, before, gone, log)
    ensures CouldThen(nodes, before, gone, log, |log|, call, x) <==> CanHandle(nodes, call, x)
  {
    hide RetiredThen;
    assert log[..|log|] == log;
  }

  /** What comes later in the log does not matter. */
  lemma PastStays(nodes: set<Expectation>, before: map<Expectation, nat>, gone: set<Expectation>,
                  log: seq<Expectation?>, e: Expectation?, i: nat)
    requires Graph(nodes) && before.Keys == nodes && i <= |log|
    ensures forall q :: q in nodes ==> Count(before, log + [e], i, q) == Count(before, log, i, q)
    ensures forall q :: q in nodes ==>
              (RetiredThen(nodes, before, gone, log + [e], i, q) <==> RetiredThen(nodes, before, gone, log, i, q))
  {
    var more := log + [e];
    forall j: nat | j <= i ensures more[..j] == log[..j] {
    }
    forall j: nat, q | j < i && q in nodes
      ensures RetiredBy(nodes, before, more, j, q) <==> RetiredBy(nodes, before, log, j, q)
    {
      assert more[..j] == log[..j] && more[j] == log[j];
    }
  }

  lemma AnswerStays(nodes: set<Expectation>, before: map<Expectation, nat>, gone: set<Expectation>,
                    log: seq<Expectation?>, e: Expectation?, i: nat, call: Call)
    requires Graph(nodes) && before.Keys == nodes && i < |log| && forall x :: x in call.expectations ==> x in nodes
    ensures AnsweredAt(nodes, before, gone, log + [e], i, call) <==> AnsweredAt(nodes, before, gone, log, i, call)
  {
    hide RetiredThen, Count;
    PastStays(nodes, before, gone, log, e, i);
    forall x | x in nodes
      ensures CouldThen(nodes, before, gone, log + [e], i, call, x) <==> CouldThen(nodes, before, gone, log, i, call, x)
    {
    }
  }

  /** One more call in the log retires what `RetiredBy` says. */
  lemma RetiredNext(nodes: set<Expectation>, before: map<Expectation, nat>, gone: set<Expectation>,
                    log: seq<Expectation?>, e: Expectation?, q: Expectation)
    requires Graph(nodes) && before.Keys == nodes && q in nodes
    ensures RetiredThen(nodes, before, gone, log + [e], |log| + 1, q) <==>
            RetiredThen(nodes, before, gone, log, |log|, q) || RetiredBy(nodes, before, log + [e], |log|, q)
  {
    hide RetiredBy;
    PastStays(nodes, before, gone, log, e, |log|);
  }

  // ---------- whole runs ----------

  /** One call: find the expectation, and let it handle the call if there is one. */
  method Invoke(call: Call, ghost nodes: set<Expectation>,
                ghost before: map<Expectation, nat>, ghost gone: set<Expectation>, ghost log: seq<Expectation?>)
    returns (e: Expectation?)
    requires Valid(nodes) && forall x :: x in call.expectations ==> x in nodes
    requires before.Keys == nodes && Counted(nodes, before, log) && RetiredKnown(nodes, before, gone, log)
    requires RespectsOrder(nodes, log) && PrerequisitesFirst(nodes, before, log)
    modifies nodes`retired, nodes`callCount
    ensures Valid(nodes) && Counted(nodes, before, log + [e]) && RetiredKnown(nodes, before, gone, log + [e])
    ensures RespectsOrder(nodes, log + [e]) && PrerequisitesFirst(nodes, before, log + [e])
    ensures AnsweredAt(nodes, before, gone, log + [e], |log|, call)
    ensures e != null ==> e in nodes && old(CanHandle(nodes, call, e))
    ensures e == null ==> forall x :: x in call.expectations ==> !CanHandle(nodes, call, x)
  {
    hide RespectsOrder, PrerequisitesFirst, AcceptedAreDone, RetiredClosed, RetiredThen, AnsweredAt;
    e := FindMatchingExpectation(call, nodes);
    PrerequisitesFirstExtends(nodes, before, log, e);
    OrderExtends(nodes, before, log, e);
    AnswersNext(nodes, before, gone, log, e, call);
    ghost var wasRetired := set q | q in nodes && q.retired;
    assert (log + [e])[..|log|] == log && log[..|log|] == log;
    if e != null {
      var excessive := e.HandleCall(nodes);
    }
    RetiredKnownNext(nodes, before, gone, log, e, wasRetired);
  }

  /** The log still says what is retired when the next call has retired what `RetiredBy` says. */
  lemma RetiredKnownNext(nodes: set<Expectation>, before: map<Expectation, nat>, gone: set<Expectation>,
                         log: seq<Expectation?>, e: Expectation?, wasRetired: set<Expectation>)
    requires Graph(nodes) && before.Keys == nodes
    requires forall q :: q in nodes ==> (q in wasRetired <==> RetiredThen(nodes, before, gone, log, |log|, q))
    requires forall q :: q in nodes ==>
               (q.retired <==> q in wasRetired || RetiredBy(nodes, before, log + [e], |log|, q))
    ensures RetiredKnown(nodes, before, gone, log + [e])
  {
    hide RetiredThen, RetiredBy;
    forall q | q in nodes ensures q.retired <==> RetiredThen(nodes, before, gone, log + [e], |log + [e]|, q) {
      RetiredNext(nodes, before, gone, log, e, q);
    }
  }

  lemma AnswersNext(nodes: set<Expectation>, before: map<Expectation, nat>, gone: set<Expectation>,
                    log: seq<Expectation?>, e: Expectation?, call: Call)
    requires Graph(nodes) && before.Keys == nodes && forall x :: x in call.expectations ==> x in nodes
    requires Counted(nodes, before, log) && RetiredKnown(nodes, before, gone, log)
    requires e == null ==> forall x :: x in call.expectations ==> !CanHandle(nodes, call, x)
    requires e != null ==>
               exists k ::
                 && 0 <= k < |call.expectations| && call.expectations[k] == e
                 && CanHandle(nodes, call, call.expectations[k])
                 && forall j :: k < j < |call.expectations| ==> !CanHandle(nodes, call, call.expectations[j])
    ensures AnsweredAt(nodes, before, gone, log + [e], |log|, call)
  {
    hide RetiredThen, Count, CanHandle;
    PastStays(nodes, before, gone, log, e, |log|);
    forall x | x in nodes
      ensures CouldThen(nodes, before, gone, log + [e], |log|, call, x) <==> CanHandle(nodes, call, x)
    {
      CouldIsCan(nodes, before, gone, log, call, x);
    }
  }

  lemma NothingCalled(nodes: set<Expectation>, before: map<Expectation, nat>, gone: set<Expectation>)
    requires Graph(nodes) && before.Keys == nodes && gone <= nodes
    requires forall e :: e in nodes ==> (e.retired <==> e in gone)
    requires forall e :: e in nodes ==> before[e] == e.callCount
    ensures Counted(nodes, before, []) && RetiredKnown(nodes, before, gone, [])
    ensures RespectsOrder(nodes, []) && PrerequisitesFirst(nodes, before, [])
  {
  }

  /**
    Any run of calls to any mock functions; the log tells which expectation handled each. Who handles a
    call is determined by the calls before it.
   */
  method Play(calls: seq<Call>, ghost nodes: set<Expectation>) returns (log: seq<Expectation?>)
    requires Valid(nodes) && forall c, x :: c in calls && x in c.expectations ==> x in nodes
    modifies nodes`retired, nodes`callCount
    ensures Valid(nodes) && |log| == |calls|
    ensures Counted(nodes, old(map e | e in nodes :: e.callCount), log)
    ensures RespectsOrder(nodes, log)
    ensures PrerequisitesFirst(nodes, old(map e | e in nodes :: e.callCount), log)
    ensures forall i :: 0 <= i < |log| ==>
              AnsweredAt(nodes, old(map e | e in nodes :: e.callCount), old(set e | e in nodes && e.retired),
                         log, i, calls[i])
  {
    hide AnsweredAt, RespectsOrder, PrerequisitesFirst, RetiredThen, AcceptedAreDone, RetiredClosed;
    ghost var before, gone := map e | e in nodes :: e.callCount, set e | e in nodes && e.retired;
    log := [];
    NothingCalled(nodes, before, gone);
    for n := 0 to |calls|
      invariant Valid(nodes) && |log| == n && Counted(nodes, before, log) && RetiredKnown(nodes, before, gone, log)
      invariant RespectsOrder(nodes, log) && PrerequisitesFirst(nodes, before, log)
      invariant forall i :: 0 <= i < n ==> AnsweredAt(nodes, before, gone, log, i, calls[i])
    {
      var e := Invoke(calls[n], nodes, before, gone, log);
      forall i | 0 <= i < n ensures AnsweredAt(nodes, before, gone, log + [e], i, calls[i]) {
        AnswerStays(nodes, before, gone, log, e, i, calls[i]);
      }
      log := log + [e];
    }
  }

  /** An expectation that may be called once, followed in a sequence by one that expects no call. */
  method EarlyThenNever() returns (early: Expectation, never: Expectation)
    ensures Valid({early, never}) && early != never && fresh(early) && fresh(never)
    ensures never.prerequisites == {early} && early.prerequisites == {}
    ensures never.max == 0 && early.min == 0 && early.callCount == 0 && !early.retired && !never.retired
  {
    early := new Expectation(0, 0, 1, false);
    never := new Expectation(1, 0, 0, false);
    var order := new Sequence();
    order.AddExpectation(early, {early});
    order.AddExpectation(never, {early, never});
  }

  /**
    Why the order is promised only after expectations that accept calls: a call to one that expects
    none is excessive and retires nothing, so that what comes before it can still be called.
   */
  method ExcessiveCallKeepsEarlier()
    returns (early: Expectation, never: Expectation, first: Expectation?, second: Expectation?)
    ensures Graph({early, never}) && Reaches({early, never}, never, early)
    ensures first == never && second == early
  {
    early, never := EarlyThenNever();
    ghost var nodes := {early, never};
    ReachesOnly(nodes, early, never);
    first := FindMatchingExpectation(Call([never], {never}), nodes);
    assert CanHandle(nodes, Call([never], {never}), [never][0]);
    var excessive := never.HandleCall(nodes);
    second := FindMatchingExpectation(Call([early], {early}), nodes);
    assert CanHandle(nodes, Call([early], {early}), [early][0]);
  }

  lemma ReachesOnly(nodes: set<Expectation>, early: Expectation, never: Expectation)
    requires nodes == {early, never} && Graph(nodes) && early.prerequisites == {} && never.prerequisites == {early}
    ensures forall q :: !Reaches(nodes, early, q) && (Reaches(nodes, never, q) <==> q == early)
  {
  }
}
