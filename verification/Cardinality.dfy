/** Effective cardinalities of roles and the check that a specialised role stays within its
    base. */
module Cardinality {
  import opened Options

  /** A negative maximum is unbounded. */
  datatype Multiplicity = Multiplicity(min: int, max: int)

  /** A role with its chain of base roles. */
  datatype Role = Role(
    multiplicityDefined: bool, multiplicity: Multiplicity, composition: bool, in24Model: bool, base: Option<Role>)

  /** `effective_role_cardinality` */
  function Effective(role: Option<Role>): Multiplicity {
    if role.None? then Multiplicity(-1, -1)
    else if role.value.multiplicityDefined then
      Multiplicity(if role.value.multiplicity.min < 0 then 0 else role.value.multiplicity.min, role.value.multiplicity.max)
    else if role.value.base.Some? then Effective(role.value.base)
    else if role.value.composition then Multiplicity(if role.value.in24Model then 1 else 0, 1)
    else Multiplicity(0, -1)
  }

  /** `cardinality_is_subset` */
  predicate IsSubset(candidate: Multiplicity, base: Multiplicity) {
    candidate.min >= base.min && (base.max < 0 || (0 <= candidate.max <= base.max))
  }

  /** The numbers of objects a cardinality allows. */
  predicate Allows(c: Multiplicity, n: nat) {
    c.min <= n && (c.max < 0 || n <= c.max)
  }

  ghost predicate Within(c: Multiplicity, b: Multiplicity) {
    forall n: nat :: Allows(c, n) ==> Allows(b, n)
  }

  /** A cardinality that allows nothing is nevertheless refused when one of its two ends lies
      outside the base. */
  predicate RefusedThoughEmpty(c: Multiplicity, b: Multiplicity) {
    0 <= c.max < c.min && (c.min < b.min || 0 <= b.max < c.max)
  }

  /** The check decides containment of what is allowed, except exactly there; and it never
      accepts what is not contained. */
  lemma SubsetIsContainment(c: Multiplicity, b: Multiplicity)
    requires c.min >= 0
    ensures (IsSubset(c, b) <==> Within(c, b)) <==> !RefusedThoughEmpty(c, b)
    ensures IsSubset(c, b) ==> Within(c, b)
  {
    if 0 <= c.max < c.min {
      assert Within(c, b);
    } else if Within(c, b) {
      assert Allows(c, c.min);
      var top: nat := if c.max >= 0 then c.max else if b.max >= c.min then b.max + 1 else c.min;
      assert Allows(c, top);
    }
  }

  /** For instance 2..1 against 3..*. */
  lemma EmptyCardinalityRefused()
    ensures Within(Multiplicity(2, 1), Multiplicity(3, -1)) && !IsSubset(Multiplicity(2, 1), Multiplicity(3, -1))
  {
  }

  lemma {:induction false} EffectiveIsNonNegative(role: Role)
    ensures Effective(Some(role)).min >= 0
  {
    if !role.multiplicityDefined && role.base.Some? { EffectiveIsNonNegative(role.base.value); }
  }

  /** Every link of the chain passes the check. */
  predicate ChainPasses(role: Role) {
    role.base.Some? ==> IsSubset(Effective(Some(role)), Effective(role.base)) && ChainPasses(role.base.value)
  }

  function Root(role: Role): Role {
    if role.base.None? then role else Root(role.base.value)
  }

  /** Specialisation composes: what the leaf allows, the root of the chain allows. */
  lemma {:induction false} ChainStaysWithinRoot(role: Role)
    requires ChainPasses(role)
    ensures IsSubset(Effective(Some(role)), Effective(Some(Root(role))))
    ensures Within(Effective(Some(role)), Effective(Some(Root(role))))
  {
    EffectiveIsNonNegative(role);
    if role.base.Some? {
      ChainStaysWithinRoot(role.base.value);
      SubsetComposes(Effective(Some(role)), Effective(role.base), Effective(Some(Root(role))));
    }
    SubsetIsContainment(Effective(Some(role)), Effective(Some(Root(role))));
  }

  lemma SubsetComposes(a: Multiplicity, b: Multiplicity, c: Multiplicity)
    requires IsSubset(a, b) && IsSubset(b, c)
    ensures IsSubset(a, c)
  {
  }

  // ---------------------------------------------------------------- effective cardinalities

  /** The role k steps up the chain of base roles. */
  function Ancestor(role: Role, k: nat): Option<Role> {
    if k == 0 then Some(role) else if role.base.None? then None else Ancestor(role.base.value, k - 1)
  }

  ghost predicate NoneDefined(role: Role) {
    forall k: nat :: Ancestor(role, k).Some? ==> !Ancestor(role, k).value.multiplicityDefined
  }

  /** The nearest role of the chain that defines a cardinality decides, with a negative minimum
      read as zero. */
  lemma {:induction false} NearestDecides(role: Role, k: nat)
    requires Ancestor(role, k).Some? && Ancestor(role, k).value.multiplicityDefined
    requires forall j: nat :: j < k && Ancestor(role, j).Some? ==> !Ancestor(role, j).value.multiplicityDefined
    ensures
      var m := Ancestor(role, k).value.multiplicity;
      Effective(Some(role)) == Multiplicity(if m.min < 0 then 0 else m.min, m.max)
    decreases k
  {
    assert k > 0 ==> !Ancestor(role, 0).value.multiplicityDefined;
    if k > 0 {
      var base := role.base.value;
      forall j: nat | j < k - 1 && Ancestor(base, j).Some? ensures !Ancestor(base, j).value.multiplicityDefined {
        assert Ancestor(base, j) == Ancestor(role, j + 1);
      }
      NearestDecides(base, k - 1);
    }
  }

  /** If none does, the root of the chain decides: at most one owner for a composition, and exactly
      one from version 2.4 on; any number for other roles. */
  lemma {:induction false} RootDecides(role: Role)
    requires NoneDefined(role)
    ensures Effective(Some(role)) ==
      if Root(role).composition then Multiplicity(if Root(role).in24Model then 1 else 0, 1) else Multiplicity(0, -1)
  {
    assert !Ancestor(role, 0).value.multiplicityDefined;
    if role.base.Some? {
      forall k: nat | Ancestor(role.base.value, k).Some? ensures !Ancestor(role.base.value, k).value.multiplicityDefined {
        assert Ancestor(role, k + 1) == Ancestor(role.base.value, k);
      }
      RootDecides(role.base.value);
    }
  }
}
