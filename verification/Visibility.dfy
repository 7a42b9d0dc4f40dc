/** Ambient visibility: what a requester sees by position in the spine. */
module Visibility {
  import opened Wrappers
  import opened Names
  import opened Spines
  import opened SpineMoves
  import opened OrgSpine

  datatype Boundary = Opaque | Transparent

  /** A resource's anchor with its position already resolved. */
  datatype Anchor =
    | AtOrgUnit(unit: Fgrn)
    | AtPrincipal(owner: Fgrn, unit: Fgrn, boundary: Boundary)
    | AtPrincipalSet(unit: Fgrn)

  datatype VisibilityError = BadRequester | BadScope | BadAnchor | BadOwner | NotInSpine(e: SpineError)

  /** The requester may look past the anchor's boundary. */
  predicate Passes(requester: Fgrn, anchor: Anchor) {
    anchor.AtPrincipal? ==> requester == anchor.owner || anchor.boundary.Transparent?
  }

  ghost predicate Visible(units: Units, requester: Fgrn, scope: Fgrn, anchor: Anchor) {
    anchor.unit in units && Rooted(units, anchor.unit) && Below(units, anchor.unit, scope) && Passes(requester, anchor)
  }

  predicate WellKinded(requester: Fgrn, scope: Fgrn, anchor: Anchor) {
    && requester.kind.Principal? && scope.kind.OrgUnit? && anchor.unit.kind.OrgUnit?
    && (anchor.AtPrincipal? ==> anchor.owner.kind.Principal?)
  }

  /** Decides visibility; fails exactly on arguments of the wrong kind or outside the spine. */
  method SubtreeVisible(requester: Fgrn, scope: Fgrn, anchor: Anchor, spine: Spine) returns (r: Result<bool, VisibilityError>)
    requires spine.Valid()
    ensures r.Ok? <==> WellKinded(requester, scope, anchor) && anchor.unit in spine.units && scope in spine.units
    ensures r.Ok? ==> r.value == Visible(spine.units, requester, scope, anchor)
    ensures r.Err? && r.error.NotInSpine? <==>
      WellKinded(requester, scope, anchor) && !(anchor.unit in spine.units && scope in spine.units)
  {
    if !requester.kind.Principal? {
      return Err(BadRequester);
    }
    if !scope.kind.OrgUnit? {
      return Err(BadScope);
    }
    match anchor {
      case AtOrgUnit(unit) =>
        if !unit.kind.OrgUnit? {
          return Err(BadAnchor);
        }
        var below := spine.IsAtOrBelow(unit, scope);
        return if below.Ok? then Ok(below.value) else Err(NotInSpine(below.error));
      case AtPrincipalSet(unit) =>
        if !unit.kind.OrgUnit? {
          return Err(BadAnchor);
        }
        var below := spine.IsAtOrBelow(unit, scope);
        return if below.Ok? then Ok(below.value) else Err(NotInSpine(below.error));
      case AtPrincipal(owner, unit, boundary) =>
        if !owner.kind.Principal? {
          return Err(BadOwner);
        }
        if !unit.kind.OrgUnit? {
          return Err(BadAnchor);
        }
        var below := spine.IsAtOrBelow(unit, scope);
        if below.Err? {
          return Err(NotInSpine(below.error));
        }
        if !below.value {
          return Ok(false);
        }
        if requester == owner {
          return Ok(true);
        }
        return Ok(boundary.Transparent?);
    }
  }

  /** What is visible from a scope is visible to the same requester from every scope above it. */
  lemma VisibleFromAbove(units: Units, requester: Fgrn, scope: Fgrn, above: Fgrn, anchor: Anchor)
    requires Rooted(units, scope) && Rooted(units, above) && Below(units, scope, above)
    requires Visible(units, requester, scope, anchor)
    ensures Visible(units, requester, above, anchor)
  {
    BelowIsTreeOrder(units, anchor.unit, scope, above);
  }

  /** After a move, a resource anchored outside the moved subtree is seen from where it was seen
      before; one inside it is seen from the scopes inside that saw it, and from the new parent's
      ancestors. */
  lemma VisibleAfterMove(units: Units, node: Fgrn, newParent: Fgrn, requester: Fgrn, scope: Fgrn, anchor: Anchor,
                         root: Fgrn, organization: string)
    requires IsTree(units, root, organization) && CanMove(units, node, newParent)
    requires anchor.unit in units && scope in units
    ensures Visible(units[node := Some(newParent)], requester, scope, anchor) <==>
      if Below(units, anchor.unit, node) then
        Passes(requester, anchor) &&
        (Below(units, newParent, scope) || (Below(units, anchor.unit, scope) && Below(units, scope, node)))
      else Visible(units, requester, scope, anchor)
  {
    MoveKeepsTree(units, root, organization, node, newParent);
    if Below(units, anchor.unit, node) {
      SuffixHolds(units, node, anchor.unit, scope);
      var p, i := PathOf(units, anchor.unit), |PathOf(units, node)| - 1;
      var a := PathOf(units, newParent);
      assert scope in a + p[i..] <==> scope in a || scope in p[i..];
    }
  }

  /** The path from one of its units on holds exactly the units of the path at or below that unit. */
  lemma SuffixHolds(units: Units, node: Fgrn, n: Fgrn, x: Fgrn)
    requires Rooted(units, n) && Rooted(units, node) && Below(units, n, node) && Rooted(units, x)
    ensures |PathOf(units, node)| - 1 <= |PathOf(units, n)|
    ensures x in PathOf(units, n)[|PathOf(units, node)| - 1..] <==> Below(units, n, x) && Below(units, x, node)
  {
    var p, i := PathOf(units, n), |PathOf(units, node)| - 1;
    NodeOnPath(units, node, n);
    if x in p[i..] {
      var k :| 0 <= k < |p[i..]| && p[i..][k] == x;
      PathPrefix(units, n, i + k);
      assert p[..i + k + 1][i] == node;
    }
    if Below(units, n, x) && Below(units, x, node) {
      var k :| 0 <= k < |p| && p[k] == x;
      PathPrefix(units, n, k);
      NodeOnPath(units, node, x);
      assert p[i..][k - i] == x;
    }
  }
}
