/** Principal-sets: membership, and the proof that a batch of sets is not circular. */
module PrincipalSets {
  import opened Names
  import opened Graphs

  datatype MemberSet = MemberSet(fgrn: Fgrn, members: set<Fgrn>)

  /** The last set of a name wins, as when pairs are collected into a hash map. */
  function ByFgrn(sets: seq<MemberSet>): map<Fgrn, MemberSet> {
    if sets == [] then map[]
    else ByFgrn(sets[..|sets| - 1])[sets[|sets| - 1].fgrn := sets[|sets| - 1]]
  }

  /** Edges to members that are themselves sets. */
  function NestedIn(byFgrn: map<Fgrn, MemberSet>): Graph<Fgrn> {
    map f | f in byFgrn :: set m | m in byFgrn[f].members && m.kind.PrincipalSet?
  }

  lemma {:induction false} ByFgrnHoldsNames(sets: seq<MemberSet>)
    ensures forall f :: f in ByFgrn(sets) <==> exists i :: 0 <= i < |sets| && sets[i].fgrn == f
    decreases |sets|
  {
    if sets != [] {
      var n := |sets| - 1;
      ByFgrnHoldsNames(sets[..n]);
      assert forall i :: 0 <= i < n ==> sets[..n][i] == sets[i];
      assert ByFgrn(sets).Keys == ByFgrn(sets[..n]).Keys + {sets[n].fgrn};
    }
  }

  ghost function Elements(p: seq<Fgrn>): set<Fgrn> {
    set f | f in p
  }

  /** The chain of sets from a root to the current one. */
  class Chain {
    var path: seq<Fgrn>

    constructor ()
      ensures path == []
    {
      path := [];
    }

    /** Follows every membership edge from a set. On success the chain is as it was and nothing below
        the set is circular; on failure there is a cycle. Members are taken in any order. */
    method Visit(fgrn: Fgrn, byFgrn: map<Fgrn, MemberSet>) returns (ok: bool)
      requires IsWalk(NestedIn(byFgrn), path) && Elements(path) <= byFgrn.Keys
      requires path != [] ==> Edge(NestedIn(byFgrn), path[|path| - 1], fgrn)
      modifies this
      ensures ok ==> path == old(path) && Grounded(Present(NestedIn(byFgrn)), fgrn)
      ensures !ok ==> Cyclic(NestedIn(byFgrn))
      decreases byFgrn.Keys - Elements(path)
    {
      if fgrn in path {
        BackEdgeClosesCycle(NestedIn(byFgrn), path, fgrn);
        return false;
      }
      if fgrn !in byFgrn {
        assert Bounded(Present(NestedIn(byFgrn)), fgrn, 0);
        return true;
      }
      WalkExtends(NestedIn(byFgrn), path, fgrn);
      path := path + [fgrn];
      assert Elements(path) == Elements(old(path)) + {fgrn};
      var rest := byFgrn[fgrn].members;
      ghost var bound: nat := 0;
      while rest != {}
        invariant rest <= byFgrn[fgrn].members
        invariant path == old(path) + [fgrn]
        invariant forall m :: m in Present(NestedIn(byFgrn))[fgrn] && m !in rest ==>
          Bounded(Present(NestedIn(byFgrn)), m, bound)
        decreases rest
      {
        var member :| member in rest;
        rest := rest - {member};
        if member.kind.PrincipalSet? && member in byFgrn {
          var below := Visit(member, byFgrn);
          if !below {
            return false;
          }
          bound := CommonBound(Present(NestedIn(byFgrn)), Present(NestedIn(byFgrn))[fgrn] - rest - {member}, member, bound);
        }
      }
      assert Bounded(Present(NestedIn(byFgrn)), fgrn, bound + 1);
      path := path[..|path| - 1];
      return true;
    }
  }

  /** A bound that serves the nodes already bounded and one more. */
  lemma CommonBound(g: Graph<Fgrn>, done: set<Fgrn>, a: Fgrn, k: nat) returns (m: nat)
    requires Grounded(g, a) && forall b :: b in done ==> Bounded(g, b, k)
    ensures Bounded(g, a, m) && forall b :: b in done ==> Bounded(g, b, m)
  {
    var j: nat :| Bounded(g, a, j);
    m := j + k;
    BoundedGrows(g, a, j, m);
    forall b | b in done
      ensures Bounded(g, b, m)
    {
      BoundedGrows(g, b, k, m);
    }
  }

  /** Succeeds exactly when no chain of memberships returns to where it began. */
  method AssertAcyclic(sets: seq<MemberSet>) returns (ok: bool)
    ensures ok <==> !Cyclic(NestedIn(ByFgrn(sets)))
  {
    var byFgrn := ByFgrn(sets);
    ByFgrnHoldsNames(sets);
    ghost var g := Present(NestedIn(byFgrn));
    for i := 0 to |sets|
      invariant forall j :: 0 <= j < i ==> Grounded(g, sets[j].fgrn)
    {
      var chain := new Chain();
      assert Elements(chain.path) == {};
      var fine := chain.Visit(sets[i].fgrn, byFgrn);
      if !fine {
        return false;
      }
    }
    AllBoundedIsAcyclic(g);
    PresentKeepsCycles(NestedIn(byFgrn));
    return true;
  }
}
