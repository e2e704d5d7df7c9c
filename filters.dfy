/**
 * The filter builder (`makeSpecification`): eleven independently optional
 * criteria folded, one after the other, into a single conjunctive predicate
 * over players that the store evaluates.
 */
module Filters {
  import opened Wrappers
  import opened Players

  /** The optional query criteria of the list and count requests. */
  datatype Criteria = Criteria(
    name: Option<string>,
    title: Option<string>,
    race: Option<Race>,
    profession: Option<Profession>,
    after: Option<int>,
    before: Option<int>,
    banned: Option<bool>,
    minExperience: Option<int>,
    maxExperience: Option<int>,
    minLevel: Option<int>,
    maxLevel: Option<int>)

  /** No criterion supplied. */
  const NoCriteria := Criteria(None, None, None, None, None, None, None, None, None, None, None)

  /** `part` occurs in `s` as a contiguous run of characters. */
  predicate Contains(s: string, part: string): (found: bool)
    ensures found ==> |part| <= |s|
    ensures part <= s ==> found
    ensures |part| <= |s| && part == s[|s| - |part|..] ==> found
  {
    assert s[0..] == s;
    assert part <= s[|s| - |part|..] <== |part| <= |s| && part == s[|s| - |part|..];
    exists k :: 0 <= k <= |s| && part <= s[k..]
  }

  /** One predicate fragment, as built for one supplied criterion. */
  datatype Filter =
    | NameLike(namePart: string)
    | TitleLike(titlePart: string)
    | RaceIs(race: Race)
    | ProfessionIs(profession: Profession)
    | BornAtOrAfter(after: int)
    | BornAtOrBefore(before: int)
    | BannedIs(banned: bool)
    | ExperienceAtLeast(minExperience: int)
    | ExperienceAtMost(maxExperience: int)
    | LevelAtLeast(minLevel: int)
    | LevelAtMost(maxLevel: int)

  /** Whether player `p` passes fragment `f`; every range bound is inclusive. */
  predicate Holds(f: Filter, p: Player): (passes: bool)
    ensures passes <==> Matches(p, Single(f))
  {
    match f
    case NameLike(part) => Contains(p.name, part)
    case TitleLike(part) => Contains(p.title, part)
    case RaceIs(r) => p.race == r
    case ProfessionIs(r) => p.profession == r
    case BornAtOrAfter(t) => p.birthday >= t
    case BornAtOrBefore(t) => p.birthday <= t
    case BannedIs(b) => p.banned == b
    case ExperienceAtLeast(n) => p.experience >= n
    case ExperienceAtMost(n) => p.experience <= n
    case LevelAtLeast(n) => p.level >= n
    case LevelAtMost(n) => p.level <= n
  }

  /** The criteria that supply only the criterion fragment `f` is built from. */
  function Single(f: Filter): (c: Criteria)
  {
    match f
    case NameLike(part) => NoCriteria.(name := Some(part))
    case TitleLike(part) => NoCriteria.(title := Some(part))
    case RaceIs(r) => NoCriteria.(race := Some(r))
    case ProfessionIs(r) => NoCriteria.(profession := Some(r))
    case BornAtOrAfter(t) => NoCriteria.(after := Some(t))
    case BornAtOrBefore(t) => NoCriteria.(before := Some(t))
    case BannedIs(b) => NoCriteria.(banned := Some(b))
    case ExperienceAtLeast(n) => NoCriteria.(minExperience := Some(n))
    case ExperienceAtMost(n) => NoCriteria.(maxExperience := Some(n))
    case LevelAtLeast(n) => NoCriteria.(minLevel := Some(n))
    case LevelAtMost(n) => NoCriteria.(maxLevel := Some(n))
  }

  /**
   * A specification: the always-true literal, or a specification extended by
   * `and` with one more fragment.
   */
  datatype Spec = Always | And(rest: Spec, last: Filter)

  /** The player passes every fragment of the specification. */
  predicate Satisfies(s: Spec, p: Player)
  {
    match s
    case Always => true
    case And(rest, f) => Satisfies(rest, p) && Holds(f, p)
  }

  /** The fragments of a specification, in the order they were added. */
  function Conjuncts(s: Spec): (fs: seq<Filter>)
    ensures s == Always <==> fs == []
  {
    match s
    case Always => []
    case And(rest, f) => Conjuncts(rest) + [f]
  }

  /** Extends `s` with the fragment `f` when the criterion was supplied. */
  function AndIf(s: Spec, supplied: bool, f: Filter): (r: Spec)
    ensures forall p :: Satisfies(r, p) <==> Satisfies(s, p) && (supplied ==> Holds(f, p))
  {
    if supplied then And(s, f) else s
  }

  /**
   * `makeSpecification`: start from the always-true specification and add one
   * fragment for each supplied criterion, in the source's order.
   */
  function MakeSpecification(c: Criteria): (r: Spec)
    ensures c == NoCriteria ==> r == Always
  {
    var s := Always;
    var s := AndIf(s, c.name.Some?, NameLike(c.name.GetOr([])));
    var s := AndIf(s, c.title.Some?, TitleLike(c.title.GetOr([])));
    var s := AndIf(s, c.race.Some?, RaceIs(c.race.GetOr(Race(0))));
    var s := AndIf(s, c.profession.Some?, ProfessionIs(c.profession.GetOr(Profession(0))));
    var s := AndIf(s, c.after.Some?, BornAtOrAfter(c.after.GetOr(0)));
    var s := AndIf(s, c.before.Some?, BornAtOrBefore(c.before.GetOr(0)));
    var s := AndIf(s, c.banned.Some?, BannedIs(c.banned.GetOr(false)));
    var s := AndIf(s, c.minExperience.Some?, ExperienceAtLeast(c.minExperience.GetOr(0)));
    var s := AndIf(s, c.maxExperience.Some?, ExperienceAtMost(c.maxExperience.GetOr(0)));
    var s := AndIf(s, c.minLevel.Some?, LevelAtLeast(c.minLevel.GetOr(0)));
    var s := AndIf(s, c.maxLevel.Some?, LevelAtMost(c.maxLevel.GetOr(0)));
    s
  }

  /**
   * The reference meaning of the criteria: a player matches when it meets every
   * supplied criterion; an absent criterion imposes nothing.
   */
  predicate Matches(p: Player, c: Criteria)
  {
    && (c.name.Some? ==> Contains(p.name, c.name.value))
    && (c.title.Some? ==> Contains(p.title, c.title.value))
    && (c.race.Some? ==> p.race == c.race.value)
    && (c.profession.Some? ==> p.profession == c.profession.value)
    && (c.after.Some? ==> c.after.value <= p.birthday)
    && (c.before.Some? ==> p.birthday <= c.before.value)
    && (c.banned.Some? ==> p.banned == c.banned.value)
    && (c.minExperience.Some? ==> c.minExperience.value <= p.experience)
    && (c.maxExperience.Some? ==> p.experience <= c.maxExperience.value)
    && (c.minLevel.Some? ==> c.minLevel.value <= p.level)
    && (c.maxLevel.Some? ==> p.level <= c.maxLevel.value)
  }

  /** A player satisfies the built specification exactly when it matches the criteria. */
  lemma MakeSpecificationMeaning(c: Criteria, p: Player)
    ensures Satisfies(MakeSpecification(c), p) <==> Matches(p, c)
  {
  }

  /** With no criterion the specification is the always-true literal and matches every player. */
  lemma NoCriteriaMatchesEveryone(p: Player)
    ensures MakeSpecification(NoCriteria) == Always
    ensures Satisfies(MakeSpecification(NoCriteria), p)
  {
  }

  /** Any supplied criterion adds a fragment: only empty criteria give the always-true literal. */
  lemma OnlySomeCriterionNarrows(c: Criteria)
    requires c != NoCriteria
    ensures MakeSpecification(c) != Always
  {
  }

  /** An experience range whose minimum exceeds its maximum matches no player. */
  lemma EmptyExperienceRangeMatchesNoOne(c: Criteria, p: Player)
    requires c.minExperience.Some? && c.maxExperience.Some?
    requires c.minExperience.value > c.maxExperience.value
    ensures !Satisfies(MakeSpecification(c), p)
  {
    MakeSpecificationMeaning(c, p);
  }

  /** A specification holds exactly when every one of its fragments holds. */
  lemma {:induction false} SatisfiesAll(s: Spec, p: Player)
    ensures Satisfies(s, p) <==> forall f :: f in Conjuncts(s) ==> Holds(f, p)
  {
    match s
    case Always =>
    case And(rest, f) =>
      SatisfiesAll(rest, p);
      assert Conjuncts(s) == Conjuncts(rest) + [f];
      assert forall g :: g in Conjuncts(s) <==> g in Conjuncts(rest) || g == f;
  }

  /**
   * The order in which fragments were added does not matter: two specifications
   * with the same fragments, in any order, accept the same players.
   */
  lemma OrderIndependent(s1: Spec, s2: Spec, p: Player)
    requires multiset(Conjuncts(s1)) == multiset(Conjuncts(s2))
    ensures Satisfies(s1, p) <==> Satisfies(s2, p)
  {
    SatisfiesAll(s1, p);
    SatisfiesAll(s2, p);
    forall f ensures f in Conjuncts(s1) <==> f in Conjuncts(s2) {
      assert f in Conjuncts(s1) <==> f in multiset(Conjuncts(s1));
      assert f in Conjuncts(s2) <==> f in multiset(Conjuncts(s2));
    }
  }

  /** `Specification.and` of two specifications: the fragments of `b` appended to `a`. */
  function Conjoin(a: Spec, b: Spec): (r: Spec)
    ensures Conjuncts(r) == Conjuncts(a) + Conjuncts(b)
  {
    match b
    case Always => a
    case And(rest, f) => And(Conjoin(a, rest), f)
  }

  /** Conjoining accepts exactly the players both parts accept. */
  lemma {:induction false} ConjoinMeaning(a: Spec, b: Spec, p: Player)
    ensures Satisfies(Conjoin(a, b), p) <==> Satisfies(a, p) && Satisfies(b, p)
  {
    match b
    case Always =>
    case And(rest, f) => ConjoinMeaning(a, rest, p);
  }

  /** The always-true specification is an identity of conjunction on both sides. */
  lemma ConjoinIdentity(s: Spec)
    ensures Conjoin(s, Always) == s
    ensures Conjoin(Always, s) == s
  {
    assert Conjuncts(Conjoin(Always, s)) == Conjuncts(s);
    ConjunctsDetermine(Conjoin(Always, s), s);
  }

  /** A specification is determined by its list of fragments. */
  lemma {:induction false} ConjunctsDetermine(a: Spec, b: Spec)
    requires Conjuncts(a) == Conjuncts(b)
    ensures a == b
  {
    match a
    case Always =>
    case And(ra, fa) =>
      var rb, fb := b.rest, b.last;
      assert Conjuncts(b) == Conjuncts(rb) + [fb];
      assert Conjuncts(ra) == Conjuncts(a)[..|Conjuncts(a)| - 1] == Conjuncts(rb);
      ConjunctsDetermine(ra, rb);
  }

  /** Each step of the fold is a conjunction with a one-fragment specification. */
  lemma AndIsConjoin(s: Spec, f: Filter)
    ensures And(s, f) == Conjoin(s, And(Always, f))
  {
  }

  /** Conjunction is commutative in what it accepts. */
  lemma ConjoinCommutes(a: Spec, b: Spec, p: Player)
    ensures Satisfies(Conjoin(a, b), p) <==> Satisfies(Conjoin(b, a), p)
  {
    ConjoinMeaning(a, b, p);
    ConjoinMeaning(b, a, p);
  }

  /** `c` and `d` do not supply the same criterion. */
  predicate Disjoint(c: Criteria, d: Criteria)
  {
    && (c.name.None? || d.name.None?)
    && (c.title.None? || d.title.None?)
    && (c.race.None? || d.race.None?)
    && (c.profession.None? || d.profession.None?)
    && (c.after.None? || d.after.None?)
    && (c.before.None? || d.before.None?)
    && (c.banned.None? || d.banned.None?)
    && (c.minExperience.None? || d.minExperience.None?)
    && (c.maxExperience.None? || d.maxExperience.None?)
    && (c.minLevel.None? || d.minLevel.None?)
    && (c.maxLevel.None? || d.maxLevel.None?)
  }

  /** The first of two optional values that is present. */
  function Either<T>(x: Option<T>, y: Option<T>): (r: Option<T>)
    ensures r.Some? <==> x.Some? || y.Some?
    ensures x.Some? ==> r == x
    ensures x.None? ==> r == y
  {
    if x.Some? then x else y
  }

  /** The criteria of `c` together with those of `d`. */
  function Combine(c: Criteria, d: Criteria): (r: Criteria)
  {
    Criteria(Either(c.name, d.name), Either(c.title, d.title), Either(c.race, d.race),
             Either(c.profession, d.profession), Either(c.after, d.after), Either(c.before, d.before),
             Either(c.banned, d.banned), Either(c.minExperience, d.minExperience),
             Either(c.maxExperience, d.maxExperience), Either(c.minLevel, d.minLevel),
             Either(c.maxLevel, d.maxLevel))
  }

  /** A player meeting the combined criteria meets each group on its own. */
  lemma CombineNarrows(c: Criteria, d: Criteria, p: Player)
    requires Matches(p, Combine(c, d))
    ensures Matches(p, c)
  {
  }

  /**
   * Supplying two disjoint groups of criteria at once filters like applying both
   * groups separately.
   */
  lemma CombineIsConjunction(c: Criteria, d: Criteria, p: Player)
    requires Disjoint(c, d)
    ensures Matches(p, Combine(c, d)) <==> Matches(p, c) && Matches(p, d)
  {
    if Matches(p, Combine(c, d)) {
      CombineNarrows(c, d, p);
      CombineNarrowsOther(c, d, p);
    } else if Matches(p, c) && Matches(p, d) {
      CombineJoins(c, d, p);
    }
  }

  /** With disjoint groups, a player meeting the combined criteria meets the second group too. */
  lemma CombineNarrowsOther(c: Criteria, d: Criteria, p: Player)
    requires Disjoint(c, d)
    requires Matches(p, Combine(c, d))
    ensures Matches(p, d)
  {
  }

  /** A player meeting both groups meets their combination. */
  lemma CombineJoins(c: Criteria, d: Criteria, p: Player)
    requires Matches(p, c) && Matches(p, d)
    ensures Matches(p, Combine(c, d))
  {
  }

  /** Combining disjoint criteria does not depend on which group is named first. */
  lemma CombineCommutes(c: Criteria, d: Criteria)
    requires Disjoint(c, d)
    ensures Combine(c, d) == Combine(d, c)
  {
  }
}
