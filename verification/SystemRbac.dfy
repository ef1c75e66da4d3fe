/** The stored form of a system role. */
module SystemRbac {
  // One row for each known module that has rights, in the order of the module list.
  import opened Wrappers
  import opened BitMask
  import opened Access
  import opened Words

  const MODULE_IDS: seq<string> := [
    "dashboard", "products", "inventory", "orders", "customers", "coupons", "payments", "suppliers",
    "delivery", "automation", "notifications", "users", "roles", "operations", "audit", "settings"]

  // ---------- masks and lists of action names ----------

  lemma {:induction false} PowerBit(i: nat, j: nat)
    ensures Bit(Power2(i), j) <==> i == j
  {
    if i > 0 && j > 0 {
      PowerBit(i - 1, j - 1);
    } else if j > 0 {
      BitOfZero(j - 1);
    }
  }

  lemma PowersGrow(i: nat)
    ensures Power2(i) < Power2(i + 1)
  {
  }

  /** Masking with a single bit gives something other than zero exactly when the bit is set. */
  lemma SingleBit(u: nat, i: nat)
    ensures And(u, Power2(i)) != 0 <==> Bit(u, i)
  {
    hide And, Bit, Power2;
    var both := And(u, Power2(i));
    AndAtMost(u, Power2(i));
    PowersGrow(i);
    BitOfAnd(u, Power2(i), i);
    PowerBit(i, i);
    BitOfZero(i);
    if !Bit(u, i) {
      forall j: nat | j < i + 1
        ensures Bit(both, j) <==> Bit(0, j)
      {
        BitOfAnd(u, Power2(i), j);
        PowerBit(i, j);
        BitOfZero(j);
      }
      BitsDetermine(both, 0, i + 1);
    }
  }

  lemma ActionIsPower(i: nat)
    requires i < 5
    ensures ActionBit(ACTIONS[i]) == Power2(i) < 32
  {
  }

  lemma OnlyActionsHaveBits(name: string, i: nat)
    requires i < 5
    ensures ActionBit(name) < 32
    ensures Bit(ActionBit(name), i) <==> name == ACTIONS[i]
  {
    hide Bit, Power2;
    BitOfZero(i);
    if name in ACTIONS {
      var j :| 0 <= j < 5 && name == ACTIONS[j];
      ActionIsPower(j);
      PowerBit(j, i);
    }
  }

  /** The mask of a list of names carries exactly the registered actions on it. */
  lemma {:induction false} MaskCarriesNames(names: seq<string>, i: nat)
    requires i < 5
    ensures Bit(ActionsToMask(names), i) <==> ACTIONS[i] in names
  {
    hide Bit, JsOr, ActionBit;
    if names == [] {
      BitOfZero(i);
    } else {
      var n := |names| - 1;
      MaskCarriesNames(names[..n], i);
      OnlyActionsHaveBits(names[n], i);
      JsOrSmall(ActionsToMask(names[..n]), ActionBit(names[n]));
      BitOfOr(ActionsToMask(names[..n]), ActionBit(names[n]), i);
      assert names == names[..n] + [names[n]];
    }
  }

  lemma JsAndOfBit(mask: int, i: nat)
    requires i < 5
    ensures JsAnd(mask, ActionBit(ACTIONS[i])) != 0 <==> Bit(mask % 32, i)
  {
    hide And, Bit, Power2, ActionBit;
    var u := mask % TWO_32;
    ActionIsPower(i);
    SmallRemainder(ActionBit(ACTIONS[i]));
    AndAtMost(u, Power2(i));
    SingleBit(u, i);
    RemainderTwice(mask);
    FiveBitNumbers();
    BitOfRemainder(u, 5, i);
  }

  lemma {:induction false} FilteredNames(names: seq<string>, mask: int, name: string)
    ensures name in Filtered(names, mask) <==> name in names && JsAnd(mask, ActionBit(name)) != 0
  {
    hide JsAnd, ActionBit;
    if names != [] {
      FilteredNames(names[1..], mask, name);
    }
  }

  /** Reading a mask as names and writing it back keeps its five lowest bits. */
  lemma MaskThereAndBack(mask: int)
    ensures ActionsToMask(MaskToActions(mask)) == mask % 32
  {
    hide Bit, JsAnd, ActionBit, ActionsToMask, Power2, Filtered;
    var there := ActionsToMask(MaskToActions(mask));
    FiveBitNumbers();
    forall i: nat | i < 5
      ensures Bit(there, i) <==> Bit(mask % 32, i)
    {
      MaskCarriesNames(MaskToActions(mask), i);
      FilteredNames(ACTIONS, mask, ACTIONS[i]);
      JsAndOfBit(mask, i);
    }
    BitsDetermine(there, mask % 32, 5);
  }

  /** The names on a list, in the order of the registered actions and each once. */
  function Registered(order: seq<string>, names: seq<string>): seq<string> {
    if order == [] then [] else (if order[0] in names then [order[0]] else []) + Registered(order[1..], names)
  }

  lemma {:induction false} SameFilter(order: seq<string>, mask: int, names: seq<string>)
    requires forall name :: name in order ==> (JsAnd(mask, ActionBit(name)) != 0 <==> name in names)
    ensures Filtered(order, mask) == Registered(order, names)
  {
    hide JsAnd, ActionBit;
    if order != [] {
      assert order[0] in order;
      SameFilter(order[1..], mask, names);
    }
  }

  /** Writing names as a mask and reading it back keeps the registered names and forgets order, repeats and
      strangers. */
  lemma NamesThereAndBack(names: seq<string>)
    ensures MaskToActions(ActionsToMask(names)) == Registered(ACTIONS, names)
  {
    hide Bit, JsAnd, ActionBit, ActionsToMask, Filtered, Registered;
    var mask := ActionsToMask(names);
    forall name | name in ACTIONS
      ensures JsAnd(mask, ActionBit(name)) != 0 <==> name in names
    {
      var i :| 0 <= i < 5 && name == ACTIONS[i];
      JsAndOfBit(mask, i);
      MaskCarriesNames(names, i);
    }
    SameFilter(ACTIONS, mask, names);
  }

  // ---------- the normal form ----------

  /** One row for each listed module whose merged mask is not zero. */
  function Listing(ids: seq<string>, masks: map<string, nat>): seq<PermissionRow> {
    if ids == [] then []
    else
      var mask := MaskOf(masks, ids[0]);
      (if mask != 0 then [PermissionRow(ids[0], mask)] else []) + Listing(ids[1..], masks)
  }

  function Normalized(grants: seq<PermissionRow>): seq<PermissionRow> {
    Listing(MODULE_IDS, Merged(grants))
  }

  lemma {:induction false} ListingDepends(ids: seq<string>, a: map<string, nat>, b: map<string, nat>)
    requires forall id :: id in ids ==> MaskOf(a, id) == MaskOf(b, id)
    ensures Listing(ids, a) == Listing(ids, b)
  {
    if ids != [] {
      assert ids[0] in ids;
      ListingDepends(ids[1..], a, b);
    }
  }

  /** The collected masks agree with the plain merge on the listed modules. */
  ghost predicate Agrees(masks: map<string, nat>, ids: seq<string>, grants: seq<PermissionRow>) {
    && (forall id :: id in masks ==> 0 < masks[id] < 32)
    && forall id :: id in ids ==> MaskOf(masks, id) == MaskOf(Merged(grants), id)
  }

  lemma OrWithZero(mask: nat)
    requires mask < 32
    ensures JsOr(mask, 0) == JsOr(0, mask) == mask
  {
    SmallRemainder(mask);
  }

  lemma OrGrows(a: nat, b: nat)
    requires a < 32 && 0 < b < 32
    ensures 0 < JsOr(a, b) < 32
  {
    JsOrSmall(a, b);
    SmallRemainder(a);
    SmallRemainder(b);
    OrAtLeast(a, b);
  }

  lemma {:induction false} OrAtLeast(a: nat, b: nat)
    ensures Or(a, b) >= b
  {
    if a != 0 && b != 0 {
      OrAtLeast(a / 2, b / 2);
    }
  }

  /** One turn of the collecting loop. */
  function Collect(masks: map<string, nat>, ids: seq<string>, grant: PermissionRow): map<string, nat>
    requires forall id :: id in masks ==> masks[id] < 32
  {
    var mask := NormalizeMask(grant.permissionMask);
    JsOrSmall(MaskOf(masks, grant.area), mask);
    if grant.area in ids && mask != 0 then masks[grant.area := JsOr(MaskOf(masks, grant.area), mask)] else masks
  }

  lemma CollectAgrees(masks: map<string, nat>, ids: seq<string>, grants: seq<PermissionRow>)
    requires grants != [] && Agrees(masks, ids, grants[..|grants| - 1])
    ensures Agrees(Collect(masks, ids, grants[|grants| - 1]), ids, grants)
  {
    hide JsOr, NormalizeMask;
    var n := |grants| - 1;
    var grant, plain := grants[n], Merged(grants[..n]);
    var mask := NormalizeMask(grant.permissionMask);
    OrWithZero(MaskOf(plain, grant.area));
    if grant.area in ids && mask != 0 {
      OrGrows(MaskOf(masks, grant.area), mask);
    }
  }

  method NormalizeSystemPermissionGrants(grants: seq<PermissionRow>) returns (rows: seq<PermissionRow>)
    ensures rows == Normalized(grants)
  {
    hide Merged, Listing, JsOr, NormalizeMask;
    var masks: map<string, nat> := map[];
    MergedNothing();
    for i := 0 to |grants|
      invariant Agrees(masks, MODULE_IDS, grants[..i])
    {
      assert grants[..i + 1][..i] == grants[..i];
      CollectAgrees(masks, MODULE_IDS, grants[..i + 1]);
      var grant := grants[i];
      if grant.area in MODULE_IDS {
        var mask := NormalizeMask(grant.permissionMask);
        if mask != 0 {
          masks := masks[grant.area := JsOr(MaskOf(masks, grant.area), mask)];
        }
      }
    }
    assert grants[..|grants|] == grants;
    ListingDepends(MODULE_IDS, masks, Merged(grants));
    rows := [];
    for i := 0 to |MODULE_IDS|
      invariant rows + Listing(MODULE_IDS[i..], masks) == Listing(MODULE_IDS, masks)
    {
      ListingStep(MODULE_IDS, masks, i);
      var mask := MaskOf(masks, MODULE_IDS[i]);
      rows := rows + if mask != 0 then [PermissionRow(MODULE_IDS[i], mask)] else [];
    }
    ListingOfNothing(MODULE_IDS, masks);
  }

  lemma MergedNothing()
    ensures Merged([]) == map[]
  {
  }

  lemma ListingStep(ids: seq<string>, masks: map<string, nat>, i: nat)
    requires i < |ids|
    ensures var mask := MaskOf(masks, ids[i]);
            Listing(ids[i..], masks)
            == (if mask != 0 then [PermissionRow(ids[i], mask)] else []) + Listing(ids[i + 1..], masks)
  {
    assert ids[i..][1..] == ids[i + 1..];
  }

  lemma ListingOfNothing(ids: seq<string>, masks: map<string, nat>)
    ensures Listing(ids[|ids|..], masks) == []
  {
  }

  // ---------- what the normal form keeps ----------

  lemma {:induction false} ListingRights(ids: seq<string>, masks: map<string, nat>, area: string, bit: nat)
    requires forall id :: id in masks ==> masks[id] < 32
    ensures Implies(Listing(ids, masks), area, bit) <==> area in ids && Bit(MaskOf(masks, area), bit)
  {
    hide Bit, Implies;
    BitOfZero(bit);
    NothingImplied(area, bit);
    if ids != [] {
      var mask := MaskOf(masks, ids[0]);
      var first := if mask != 0 then [PermissionRow(ids[0], mask)] else [];
      ListingRights(ids[1..], masks, area, bit);
      ImpliesConcat(first, Listing(ids[1..], masks), area, bit);
      if mask != 0 {
        SingleRow(ids[0], mask, area, bit);
      }
    }
  }

  lemma SingleRow(id: string, mask: nat, area: string, bit: nat)
    requires mask < 32
    ensures Implies([PermissionRow(id, mask)], area, bit) <==> id == area && Bit(mask, bit)
  {
    hide Bit, Power2;
    FiveBitNumbers();
    if bit >= 5 {
      HighBitsZero(mask, bit, 5);
    }
    var rows := [PermissionRow(id, mask)];
    assert Carries(rows[0].permissionMask, bit) <==> Bit(mask, bit);
  }

  /** The normal form has exactly the rights of the grants that name known modules. */
  lemma NormalizedRights(grants: seq<PermissionRow>, area: string, bit: nat)
    ensures Implies(Normalized(grants), area, bit) <==> area in MODULE_IDS && Implies(grants, area, bit)
  {
    hide Bit, Implies, Listing, Merged;
    ListingRights(MODULE_IDS, Merged(grants), area, bit);
    MergedRights(grants, area, bit);
  }

  /** Two lists of grants give the same rights on the known modules. */
  ghost predicate SameRights(a: seq<PermissionRow>, b: seq<PermissionRow>) {
    forall area, bit: nat :: area in MODULE_IDS ==> (Implies(a, area, bit) <==> Implies(b, area, bit))
  }

  lemma SameRightsSameMask(a: seq<PermissionRow>, b: seq<PermissionRow>, area: string)
    requires SameRights(a, b) && area in MODULE_IDS
    ensures MaskOf(Merged(a), area) == MaskOf(Merged(b), area)
  {
    hide Bit, Implies, Merged, Power2;
    FiveBitNumbers();
    var left, right := MaskOf(Merged(a), area), MaskOf(Merged(b), area);
    forall bit: nat | bit < 5
      ensures Bit(left, bit) <==> Bit(right, bit)
    {
      MergedRights(a, area, bit);
      MergedRights(b, area, bit);
    }
    BitsDetermine(left, right, 5);
  }

  /** The normal form is one: two lists of grants have the same one exactly when they give the same rights
      on the known modules. */
  lemma NormalFormIsCanonical(a: seq<PermissionRow>, b: seq<PermissionRow>)
    ensures Normalized(a) == Normalized(b) <==> SameRights(a, b)
  {
    hide Implies, Listing, Merged, MODULE_IDS;
    if SameRights(a, b) {
      forall id | id in MODULE_IDS
        ensures MaskOf(Merged(a), id) == MaskOf(Merged(b), id)
      {
        SameRightsSameMask(a, b, id);
      }
      ListingDepends(MODULE_IDS, Merged(a), Merged(b));
    }
    if Normalized(a) == Normalized(b) {
      forall area, bit: nat | area in MODULE_IDS
        ensures Implies(a, area, bit) <==> Implies(b, area, bit)
      {
        NormalizedRights(a, area, bit);
        NormalizedRights(b, area, bit);
      }
    }
  }

  lemma NormalizingTwice(grants: seq<PermissionRow>)
    ensures Normalized(Normalized(grants)) == Normalized(grants)
  {
    hide Implies, Normalized, MODULE_IDS;
    forall area, bit: nat | area in MODULE_IDS
      ensures Implies(Normalized(grants), area, bit) <==> Implies(grants, area, bit)
    {
      NormalizedRights(grants, area, bit);
    }
    NormalFormIsCanonical(Normalized(grants), grants);
  }

  lemma ImpliesOfSubset(a: seq<PermissionRow>, b: seq<PermissionRow>, area: string, bit: nat)
    requires forall row :: row in a ==> row in b
    requires Implies(a, area, bit)
    ensures Implies(b, area, bit)
  {
    hide Carries;
    var i :| 0 <= i < |a| && a[i].area == area && Carries(a[i].permissionMask, bit);
    assert a[i] in b;
    var j :| 0 <= j < |b| && b[j] == a[i];
  }

  /** Order and repetition of the grants do not matter. */
  lemma OrderAndRepeatsDoNotMatter(a: seq<PermissionRow>, b: seq<PermissionRow>)
    requires forall row :: row in a <==> row in b
    ensures Normalized(a) == Normalized(b)
  {
    hide Implies, Normalized, MODULE_IDS;
    forall area, bit: nat | area in MODULE_IDS
      ensures Implies(a, area, bit) <==> Implies(b, area, bit)
    {
      if Implies(a, area, bit) {
        ImpliesOfSubset(a, b, area, bit);
      }
      if Implies(b, area, bit) {
        ImpliesOfSubset(b, a, area, bit);
      }
    }
    NormalFormIsCanonical(a, b);
  }

  // ---------- the check against the stored form ----------

  /** The first row of a module. */
  function FirstOf(grants: seq<PermissionRow>, area: string): Option<PermissionRow> {
    if grants == [] then None else if grants[0].area == area then Some(grants[0]) else FirstOf(grants[1..], area)
  }

  predicate HasSystemPermission(grants: seq<PermissionRow>, requirement: PermissionRow) {
    match FirstOf(grants, requirement.area)
    case None => false
    case Some(row) => JsAnd(row.permissionMask, requirement.permissionMask) == requirement.permissionMask
  }

  lemma {:induction false} FirstOfListing(ids: seq<string>, masks: map<string, nat>, area: string)
    ensures FirstOf(Listing(ids, masks), area) ==
            if area in ids && MaskOf(masks, area) != 0 then Some(PermissionRow(area, MaskOf(masks, area))) else None
  {
    if ids != [] {
      FirstOfListing(ids[1..], masks, area);
      var mask := MaskOf(masks, ids[0]);
      if mask != 0 {
        assert Listing(ids, masks)[1..] == Listing(ids[1..], masks);
      } else {
        assert Listing(ids, masks) == Listing(ids[1..], masks);
      }
    }
  }

  lemma HasSomeRight(grants: seq<PermissionRow>, area: string)
    ensures MaskOf(Merged(grants), area) != 0 <==> exists bit: nat :: Implies(grants, area, bit)
  {
    hide Bit, Implies, Merged, Power2;
    FiveBitNumbers();
    var mask := MaskOf(Merged(grants), area);
    forall bit: nat
      ensures Bit(mask, bit) <==> Implies(grants, area, bit)
      ensures !Bit(0, bit)
    {
      MergedRights(grants, area, bit);
      BitOfZero(bit);
    }
    if !exists bit: nat :: Implies(grants, area, bit) {
      BitsDetermine(mask, 0, 5);
    }
  }

  /** The stored form answers as the merged grants do, for known modules in which there is some right. */
  lemma StoredFormAnswers(grants: seq<PermissionRow>, requirement: PermissionRow)
    ensures HasSystemPermission(Normalized(grants), requirement) <==>
              && requirement.area in MODULE_IDS
              && (exists bit: nat :: Implies(grants, requirement.area, bit))
              && HasGrantedPermission(false, Merged(grants), requirement)
  {
    hide Implies, Merged, JsAnd, Listing, FirstOf, MODULE_IDS;
    FirstOfListing(MODULE_IDS, Merged(grants), requirement.area);
    HasSomeRight(grants, requirement.area);
  }

  /** A requirement of at least one action needs no such proviso. */
  lemma StoredFormAgrees(grants: seq<PermissionRow>, requirement: PermissionRow)
    requires requirement.area in MODULE_IDS && requirement.permissionMask != 0
    ensures HasSystemPermission(Normalized(grants), requirement) <==>
              HasGrantedPermission(false, Merged(grants), requirement)
  {
    hide Implies, Merged, Normalized, MODULE_IDS;
    StoredFormAnswers(grants, requirement);
    HasSomeRight(grants, requirement.area);
    JsAndWithZero(requirement.permissionMask);
  }

  lemma JsAndWithZero(n: int)
    ensures JsAnd(0, n) == 0
  {
  }
}
