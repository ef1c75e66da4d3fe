/** Role permissions: what may be granted, and the normal form in which grants are stored. */
module Access {
  import opened Wrappers
  import opened BitMask
  import Words

  // ---------- actions ----------

  const ACTIONS: seq<string> := ["read", "create", "update", "delete", "test"]

  /** The bit of an action, and 0 for a name that is none. */
  function ActionBit(name: string): nat {
    if name == "read" then 1
    else if name == "create" then 2
    else if name == "update" then 4
    else if name == "delete" then 8
    else if name == "test" then 16
    else 0
  }

  const REGISTERED: int := 31
  const MAX_SAFE_INTEGER: int := 0x1f_ffff_ffff_ffff

  function NormalizeMask(mask: int): (n: nat)
    ensures n < 32
  {
    AndWith31(mask);
    if 0 <= mask <= MAX_SAFE_INTEGER then JsAnd(mask, REGISTERED) else 0
  }

  function ActionsToMask(names: seq<string>): (mask: nat)
    ensures mask < 32
  {
    if names == [] then 0
    else
      var before, bit := ActionsToMask(names[..|names| - 1]), ActionBit(names[|names| - 1]);
      JsOrSmall(before, bit);
      JsOr(before, bit)
  }

  function Filtered(names: seq<string>, mask: int): seq<string> {
    if names == [] then []
    else (if JsAnd(mask, ActionBit(names[0])) != 0 then [names[0]] else []) + Filtered(names[1..], mask)
  }

  function MaskToActions(mask: int): seq<string> {
    Filtered(ACTIONS, mask)
  }

  // ---------- grants ----------

  datatype PermissionRow = PermissionRow(area: string, permissionMask: int)

  function MaskOf(masks: map<string, nat>, area: string): nat {
    if area in masks then masks[area] else 0
  }

  function Merged(rows: seq<PermissionRow>): (m: map<string, nat>)
    ensures forall area :: area in m ==> m[area] < 32
  {
    if rows == [] then map[]
    else
      var m, row := Merged(rows[..|rows| - 1]), rows[|rows| - 1];
      JsOrSmall(MaskOf(m, row.area), NormalizeMask(row.permissionMask));
      m[row.area := JsOr(MaskOf(m, row.area), NormalizeMask(row.permissionMask))]
  }

  method MergeRolePermissions(rows: seq<PermissionRow>) returns (permissions: map<string, nat>)
    ensures permissions == Merged(rows)
  {
    permissions := map[];
    for i := 0 to |rows|
      invariant permissions == Merged(rows[..i])
    {
      assert rows[..i + 1][..i] == rows[..i];
      var row := rows[i];
      JsOrSmall(MaskOf(permissions, row.area), NormalizeMask(row.permissionMask));
      permissions := permissions[row.area := JsOr(MaskOf(permissions, row.area), NormalizeMask(row.permissionMask))];
    }
    assert rows[..|rows|] == rows;
  }

  predicate HasGrantedPermission(root: bool, permissions: map<string, nat>, requirement: PermissionRow) {
    root || JsAnd(MaskOf(permissions, requirement.area), requirement.permissionMask) == requirement.permissionMask
  }

  /** The bit of a registered action, in a mask that is a whole number of at most 53 bits. */
  predicate Carries(mask: int, bit: nat) {
    0 <= mask < 0x20_0000_0000_0000 && bit < 5 && Bit(mask, bit)
  }

  /** Normalising keeps exactly these bits. */
  lemma NormalizedBits(mask: int, bit: nat)
    ensures Bit(NormalizeMask(mask), bit) <==> Carries(mask, bit)
  {
    hide Bit, JsAnd, Words.Power2;
    AndWith31(mask);
    FiveBitNumbers();
    BitOfZero(bit);
    if 0 <= mask <= MAX_SAFE_INTEGER {
      if bit < 5 {
        BitOfRemainder(mask, 5, bit);
      } else {
        HighBitsZero(NormalizeMask(mask), bit, 5);
      }
    }
  }

  /** A single right: some row of the area carries the bit. */
  ghost predicate Implies(rows: seq<PermissionRow>, area: string, bit: nat) {
    exists i :: 0 <= i < |rows| && rows[i].area == area && Carries(rows[i].permissionMask, bit)
  }

  /** The merged masks carry exactly the rights of the rows. */
  lemma {:induction false} MergedRights(rows: seq<PermissionRow>, area: string, bit: nat)
    ensures Bit(MaskOf(Merged(rows), area), bit) <==> Implies(rows, area, bit)
  {
    hide NormalizeMask, JsOr, Bit, Carries;
    if rows == [] {
      BitOfZero(bit);
    } else {
      var n := |rows| - 1;
      var m, row := Merged(rows[..n]), rows[n];
      MergedRights(rows[..n], area, bit);
      ImpliesLast(rows, area, bit);
      NormalizedBits(row.permissionMask, bit);
      JsOrSmall(MaskOf(m, row.area), NormalizeMask(row.permissionMask));
      BitOfOr(MaskOf(m, row.area), NormalizeMask(row.permissionMask), bit);
    }
  }

  lemma ImpliesLast(rows: seq<PermissionRow>, area: string, bit: nat)
    requires rows != []
    ensures var n := |rows| - 1;
            Implies(rows, area, bit) <==>
              Implies(rows[..n], area, bit) || (rows[n].area == area && Carries(rows[n].permissionMask, bit))
  {
    hide Carries;
    var n := |rows| - 1;
    if Implies(rows[..n], area, bit) {
      var i :| 0 <= i < n && rows[..n][i].area == area && Carries(rows[..n][i].permissionMask, bit);
      assert rows[i].area == area && Carries(rows[i].permissionMask, bit);
    }
    if Implies(rows, area, bit) {
      var i :| 0 <= i < |rows| && rows[i].area == area && Carries(rows[i].permissionMask, bit);
      assert i < n ==> rows[..n][i].area == area && Carries(rows[..n][i].permissionMask, bit);
    }
  }

  /** Root meets every requirement; anyone else exactly when it names registered actions only and each is a right
      held. */
  lemma GrantedIsImplied(root: bool, rows: seq<PermissionRow>, requirement: PermissionRow)
    ensures HasGrantedPermission(root, Merged(rows), requirement) <==>
              || root
              || (&& 0 <= requirement.permissionMask < 32
                  && forall bit: nat :: bit < 5 && Bit(requirement.permissionMask, bit) ==>
                        Implies(rows, requirement.area, bit))
  {
    hide JsAnd, Bit, Implies, Merged;
    CoversExactly(MaskOf(Merged(rows), requirement.area), requirement.permissionMask);
    forall bit: nat
      ensures Bit(MaskOf(Merged(rows), requirement.area), bit) <==> Implies(rows, requirement.area, bit)
    {
      MergedRights(rows, requirement.area, bit);
    }
  }

  // ---------- granting ----------

  datatype Actor = Actor(root: bool, permissions: seq<PermissionRow>)

  datatype AccessError = PermissionEscalation

  /** Every right in the first rows is a right in the second. */
  ghost predicate Within(requested: seq<PermissionRow>, held: seq<PermissionRow>) {
    forall area :: AreaWithin(requested, held, area)
  }

  /** The rights of one area, bit by bit, and no bit above the registered ones. */
  lemma AreaRights(rows: seq<PermissionRow>, area: string)
    ensures forall bit: nat :: Bit(MaskOf(Merged(rows), area), bit) <==> Implies(rows, area, bit)
    ensures forall bit: nat :: Implies(rows, area, bit) ==> bit < 5 && area in Merged(rows)
  {
    hide Bit, Implies, Merged, Words.Power2;
    forall bit: nat
      ensures Bit(MaskOf(Merged(rows), area), bit) <==> Implies(rows, area, bit)
      ensures Implies(rows, area, bit) ==> bit < 5 && area in Merged(rows)
    {
      MergedRights(rows, area, bit);
      BitOfZero(bit);
      FiveBitNumbers();
      if bit >= 5 {
        HighBitsZero(MaskOf(Merged(rows), area), bit, 5);
      }
    }
  }

  ghost predicate AreaWithin(requested: seq<PermissionRow>, held: seq<PermissionRow>, area: string) {
    forall bit: nat :: Implies(requested, area, bit) ==> Implies(held, area, bit)
  }

  lemma MaskWithinArea(requested: seq<PermissionRow>, held: seq<PermissionRow>, area: string)
    requires area in Merged(requested)
    ensures AreaWithin(requested, held, area) <==>
              JsAnd(Merged(requested)[area], MaskOf(Merged(held), area)) == Merged(requested)[area]
  {
    hide JsAnd, Bit, Implies, Merged;
    AreaRights(requested, area);
    AreaRights(held, area);
    var mask, heldMask := Merged(requested)[area], MaskOf(Merged(held), area);
    MaskWithin(mask, heldMask);
    if BitsWithin(mask, heldMask) {
      forall bit: nat | Implies(requested, area, bit)
        ensures Implies(held, area, bit)
      {
        assert Bit(mask, bit);
      }
    }
    if AreaWithin(requested, held, area) {
      forall bit: nat | bit < 5 && Bit(mask, bit)
        ensures Bit(heldMask, bit)
      {
        assert Implies(requested, area, bit);
      }
    }
  }

  /** What the guard compares: each merged mask against the mask held for its area. */
  ghost predicate Covered(wanted: map<string, nat>, held: map<string, nat>) {
    forall area :: area in wanted ==> JsAnd(wanted[area], MaskOf(held, area)) == wanted[area]
  }

  lemma MasksWithin(requested: seq<PermissionRow>, held: seq<PermissionRow>)
    ensures Within(requested, held) <==> Covered(Merged(requested), Merged(held))
  {
    hide JsAnd, Implies, Merged, AreaWithin;
    var wanted, owned := Merged(requested), Merged(held);
    forall area | area in wanted
      ensures AreaWithin(requested, held, area) <==> JsAnd(wanted[area], MaskOf(owned, area)) == wanted[area]
    {
      MaskWithinArea(requested, held, area);
    }
    forall area | area !in wanted
      ensures AreaWithin(requested, held, area)
    {
      AbsentArea(requested, held, area);
    }
  }

  lemma AbsentArea(requested: seq<PermissionRow>, held: seq<PermissionRow>, area: string)
    requires area !in Merged(requested)
    ensures AreaWithin(requested, held, area)
  {
    AreaRights(requested, area);
  }

  lemma MaskWithin(mask: nat, held: nat)
    requires mask < 32 && held < 32
    ensures JsAnd(mask, held) == mask <==> BitsWithin(mask, held)
  {
    hide And, BitsWithin;
    CoversExactly(held, mask);
    AndCommutes(mask, held);
    SmallRemainder(mask);
    SmallRemainder(held);
  }

  /** An operator who is not root may hand out exactly the rights they hold themselves. */
  method AssertGrantsWithinActor(actor: Actor, requested: seq<PermissionRow>) returns (r: Result<(), AccessError>)
    ensures r.Success? <==> actor.root || Within(requested, actor.permissions)
  {
    if actor.root {
      return Success(());
    }
    hide Merged, JsAnd, Within;
    MasksWithin(requested, actor.permissions);
    var held := MergeRolePermissions(actor.permissions);
    var wanted := MergeRolePermissions(requested);
    var left := wanted.Keys;
    while left != {}
      invariant left <= wanted.Keys
      invariant forall area :: area in wanted && area !in left ==>
                  JsAnd(wanted[area], MaskOf(held, area)) == wanted[area]
      decreases left
    {
      var area :| area in left;
      if JsAnd(wanted[area], MaskOf(held, area)) != wanted[area] {
        return Failure(PermissionEscalation);
      }
      left := left - {area};
    }
    return Success(());
  }

  // ---------- runs of grants ----------

  /** The rows held by each person or role. */
  type Holdings = map<string, seq<PermissionRow>>

  /** One write by an operator who is not root: the requested rows are added to a holder, or replace its rows. */
  datatype Grant = Grant(actor: string, target: string, requested: seq<PermissionRow>, keep: bool)

  function RowsOf(h: Holdings, who: string): seq<PermissionRow> {
    if who in h then h[who] else []
  }

  ghost function ApplyGrant(h: Holdings, g: Grant): Holdings {
    if Within(g.requested, RowsOf(h, g.actor))
    then h[g.target := (if g.keep then RowsOf(h, g.target) else []) + g.requested]
    else h
  }

  ghost function RunGrants(h: Holdings, grants: seq<Grant>): Holdings {
    if grants == [] then h else ApplyGrant(RunGrants(h, grants[..|grants| - 1]), grants[|grants| - 1])
  }

  ghost predicate HeldBySomeone(h: Holdings, area: string, bit: nat) {
    exists who :: who in h && Implies(h[who], area, bit)
  }

  lemma {:induction false} ImpliesConcat(a: seq<PermissionRow>, b: seq<PermissionRow>, area: string, bit: nat)
    ensures Implies(a + b, area, bit) <==> Implies(a, area, bit) || Implies(b, area, bit)
  {
    hide Carries;
    if b == [] {
      assert a + b == a;
    } else {
      var n := |b| - 1;
      assert (a + b)[..|a + b| - 1] == a + b[..n];
      ImpliesLast(a + b, area, bit);
      ImpliesLast(b, area, bit);
      ImpliesConcat(a, b[..n], area, bit);
    }
  }

  /** No rights from nothing: over any run of checked grants, every right that anyone holds
      was held by someone at the start. */
  lemma {:induction false} NoRightsFromNothing(h: Holdings, grants: seq<Grant>, area: string, bit: nat)
    requires HeldBySomeone(RunGrants(h, grants), area, bit)
    ensures HeldBySomeone(h, area, bit)
  {
    if grants != [] {
      var n := |grants| - 1;
      var before, g := RunGrants(h, grants[..n]), grants[n];
      GrantKeepsRights(before, g, area, bit);
      NoRightsFromNothing(h, grants[..n], area, bit);
    }
  }

  lemma GrantKeepsRights(h: Holdings, g: Grant, area: string, bit: nat)
    requires HeldBySomeone(ApplyGrant(h, g), area, bit)
    ensures HeldBySomeone(h, area, bit)
  {
    hide Implies;
    var after := ApplyGrant(h, g);
    var who :| who in after && Implies(after[who], area, bit);
    NothingImplied(area, bit);
    if Within(g.requested, RowsOf(h, g.actor)) && who == g.target {
      ImpliesConcat(if g.keep then RowsOf(h, g.target) else [], g.requested, area, bit);
      if Implies(g.requested, area, bit) {
        assert AreaWithin(g.requested, RowsOf(h, g.actor), area);
        assert g.actor in h;
      }
    }
  }

  ghost predicate HoldsRight(h: Holdings, who: string, area: string, bit: nat) {
    who in h && Implies(h[who], area, bit)
  }

  /** Every requested right is one that the actor holds. */
  ghost predicate MayGrant(h: Holdings, g: Grant) {
    forall area, bit: nat :: Implies(g.requested, area, bit) ==> HoldsRight(h, g.actor, area, bit)
  }

  /** Exactly who holds what afterwards: a grant within the actor's own rights gives the target what was requested,
      beside or in place of what it had, and any other write changes nothing. */
  lemma GrantedExactly(h: Holdings, g: Grant, who: string, area: string, bit: nat)
    ensures HoldsRight(ApplyGrant(h, g), who, area, bit) <==>
              if who == g.target && MayGrant(h, g)
              then Implies(g.requested, area, bit) || (g.keep && HoldsRight(h, who, area, bit))
              else HoldsRight(h, who, area, bit)
  {
    hide Implies;
    MayGrantIsWithin(h, g);
    NothingImplied(area, bit);
    ImpliesConcat(if g.keep then RowsOf(h, g.target) else [], g.requested, area, bit);
  }

  lemma MayGrantIsWithin(h: Holdings, g: Grant)
    ensures MayGrant(h, g) <==> Within(g.requested, RowsOf(h, g.actor))
  {
    hide Implies;
    forall area, bit: nat
      ensures HoldsRight(h, g.actor, area, bit) <==> Implies(RowsOf(h, g.actor), area, bit)
    {
      NothingImplied(area, bit);
    }
    if Within(g.requested, RowsOf(h, g.actor)) {
      forall area, bit: nat | Implies(g.requested, area, bit)
        ensures HoldsRight(h, g.actor, area, bit)
      {
        assert AreaWithin(g.requested, RowsOf(h, g.actor), area);
      }
    }
  }

  lemma NothingImplied(area: string, bit: nat)
    ensures !Implies([], area, bit)
  {
  }
}
