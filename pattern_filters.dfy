/** The rule-based pattern filters (`getMatches` in pinch_upper.py,
    pinch_lower.py, plumes_other.py, rings_other.py, plumes_upper.py and
    rings_upper.py). Each takes the sublevel and the superlevel diagram of one
    image and returns the rows of one of them that show the pattern, in input
    order. Every filter receives both diagrams; most use only one. */
module PatternFilters {
  import opened Common
  import opened Persistence

  // ---------------------------------------------------------------- pinch_upper

  predicate PinchUpperRow(x: Pair, deathLower: int, deathUpper: int)
  {
    x.dim == 0 && deathLower <= x.death <= deathUpper && x.birth - x.death > 10
  }

  /** Superlevel dimension-0 pairs dying in the closed band and living strictly longer than 10. */
  function PinchUpper(subPers: seq<Pair>, supPers: seq<Pair>, deathLower: int, deathUpper: int): (r: seq<Pair>)
    ensures forall x :: x in r <==>
      x in supPers && x.dim == 0 && deathLower <= x.death <= deathUpper && x.birth - x.death > 10
  {
    Select(supPers, x => PinchUpperRow(x, deathLower, deathUpper))
  }

  /** The result is the qualifying superlevel rows, each as often as it occurs, in input order. */
  lemma PinchUpperIsOrderedSelection(subPers: seq<Pair>, supPers: seq<Pair>, deathLower: int, deathUpper: int, x: Pair)
    ensures IsSubsequence(PinchUpper(subPers, supPers, deathLower, deathUpper), supPers)
    ensures multiset(PinchUpper(subPers, supPers, deathLower, deathUpper))[x] ==
      if PinchUpperRow(x, deathLower, deathUpper) then multiset(supPers)[x] else 0
  {
    SelectIsSubsequence(supPers, x => PinchUpperRow(x, deathLower, deathUpper));
    SelectMultiplicity(supPers, x => PinchUpperRow(x, deathLower, deathUpper), x);
  }

  /** Filtering an already filtered diagram again changes nothing. */
  lemma PinchUpperIdempotent(subPers: seq<Pair>, supPers: seq<Pair>, deathLower: int, deathUpper: int)
    ensures var once := PinchUpper(subPers, supPers, deathLower, deathUpper);
      PinchUpper(subPers, once, deathLower, deathUpper) == once
  {
    SelectIdempotent(supPers, x => PinchUpperRow(x, deathLower, deathUpper));
  }

  /** The sublevel diagram never influences the result (its `hasMatch` test is disabled). */
  lemma PinchUpperIgnoresSublevel(sub1: seq<Pair>, sub2: seq<Pair>, supPers: seq<Pair>, deathLower: int, deathUpper: int)
    ensures PinchUpper(sub1, supPers, deathLower, deathUpper) == PinchUpper(sub2, supPers, deathLower, deathUpper)
  {
  }

  // ---------------------------------------------------------------- pinch_lower

  predicate PinchLowerRow(x: Pair, deathLower: int, deathUpper: int)
  {
    x.dim == 0 && deathLower <= x.death < deathUpper
    && Abs(x.birthX - x.deathX) + Abs(x.birthY - x.deathY) > 2
  }

  /** Sublevel dimension-0 pairs dying in the half-open band whose birth and
      death cells are more than 2 apart in the L1 metric; no lifespan test. */
  function PinchLower(subPers: seq<Pair>, supPers: seq<Pair>, deathLower: int, deathUpper: int): (r: seq<Pair>)
    ensures forall x :: x in r <==>
      x in subPers && x.dim == 0 && deathLower <= x.death < deathUpper
      && Abs(x.birthX - x.deathX) + Abs(x.birthY - x.deathY) > 2
  {
    Select(subPers, x => PinchLowerRow(x, deathLower, deathUpper))
  }

  lemma PinchLowerIsOrderedSelection(subPers: seq<Pair>, supPers: seq<Pair>, deathLower: int, deathUpper: int, x: Pair)
    ensures IsSubsequence(PinchLower(subPers, supPers, deathLower, deathUpper), subPers)
    ensures multiset(PinchLower(subPers, supPers, deathLower, deathUpper))[x] ==
      if PinchLowerRow(x, deathLower, deathUpper) then multiset(subPers)[x] else 0
  {
    SelectIsSubsequence(subPers, x => PinchLowerRow(x, deathLower, deathUpper));
    SelectMultiplicity(subPers, x => PinchLowerRow(x, deathLower, deathUpper), x);
  }

  lemma PinchLowerIdempotent(subPers: seq<Pair>, supPers: seq<Pair>, deathLower: int, deathUpper: int)
    ensures var once := PinchLower(subPers, supPers, deathLower, deathUpper);
      PinchLower(once, supPers, deathLower, deathUpper) == once
  {
    SelectIdempotent(subPers, x => PinchLowerRow(x, deathLower, deathUpper));
  }

  // ---------------------------------------------------------------- plumes_other

  predicate PlumesOtherRow(x: Pair, birthUpper: int, birthLower: int)
  {
    x.dim == 1 && birthLower < x.birth <= birthUpper && x.death - x.birth > 10
  }

  /** Sublevel dimension-1 pairs born in (birthLower, birthUpper] living longer than 10.
      The parameters come in the order (upper, lower). */
  function PlumesOther(subPers: seq<Pair>, supPers: seq<Pair>, birthUpper: int, birthLower: int): (r: seq<Pair>)
    ensures forall x :: x in r <==>
      x in subPers && x.dim == 1 && birthLower < x.birth <= birthUpper && x.death - x.birth > 10
  {
    Select(subPers, x => PlumesOtherRow(x, birthUpper, birthLower))
  }

  lemma PlumesOtherIsOrderedSelection(subPers: seq<Pair>, supPers: seq<Pair>, birthUpper: int, birthLower: int, x: Pair)
    ensures IsSubsequence(PlumesOther(subPers, supPers, birthUpper, birthLower), subPers)
    ensures multiset(PlumesOther(subPers, supPers, birthUpper, birthLower))[x] ==
      if PlumesOtherRow(x, birthUpper, birthLower) then multiset(subPers)[x] else 0
  {
    SelectIsSubsequence(subPers, x => PlumesOtherRow(x, birthUpper, birthLower));
    SelectMultiplicity(subPers, x => PlumesOtherRow(x, birthUpper, birthLower), x);
  }

  // ---------------------------------------------------------------- rings_other

  predicate RingsOtherRow(x: Pair, birthUpper: int, birthLower: int)
  {
    x.dim == 1 && birthLower <= x.birth < birthUpper && x.birth - x.death > 10
  }

  /** Superlevel dimension-1 pairs born in [birthLower, birthUpper) living longer than 10. */
  function RingsOther(subPers: seq<Pair>, supPers: seq<Pair>, birthUpper: int, birthLower: int): (r: seq<Pair>)
    ensures forall x :: x in r <==>
      x in supPers && x.dim == 1 && birthLower <= x.birth < birthUpper && x.birth - x.death > 10
  {
    Select(supPers, x => RingsOtherRow(x, birthUpper, birthLower))
  }

  lemma RingsOtherIsOrderedSelection(subPers: seq<Pair>, supPers: seq<Pair>, birthUpper: int, birthLower: int, x: Pair)
    ensures IsSubsequence(RingsOther(subPers, supPers, birthUpper, birthLower), supPers)
    ensures multiset(RingsOther(subPers, supPers, birthUpper, birthLower))[x] ==
      if RingsOtherRow(x, birthUpper, birthLower) then multiset(supPers)[x] else 0
  {
    SelectIsSubsequence(supPers, x => RingsOtherRow(x, birthUpper, birthLower));
    SelectMultiplicity(supPers, x => RingsOtherRow(x, birthUpper, birthLower), x);
  }

  // ---------------------------------------------------------------- plumes_upper

  /** `hasMatch`: some superlevel dimension-0 pair is born within one pixel
      (in x and in y) of the row's death cell. */
  predicate HasBirthNearDeath(supPers: seq<Pair>, x: Pair)
  {
    exists y :: y in supPers && y.dim == 0
      && Abs(y.birthX - x.deathX) <= 1 && Abs(y.birthY - x.deathY) <= 1
  }

  predicate PlumesUpperRow(supPers: seq<Pair>, x: Pair, birthUpper: int, lifespan: int)
  {
    x.dim == 1 && x.birth <= birthUpper && x.death - x.birth > lifespan
    && HasBirthNearDeath(supPers, x)
  }

  /** Sublevel dimension-1 pairs born at most at birthUpper, living longer than
      lifespan, whose death cell has a superlevel dimension-0 birth cell next to it. */
  function PlumesUpper(subPers: seq<Pair>, supPers: seq<Pair>, birthUpper: int, lifespan: int): (r: seq<Pair>)
    ensures forall x :: x in r <==>
      x in subPers && x.dim == 1 && x.birth <= birthUpper && x.death - x.birth > lifespan
      && exists y :: y in supPers && y.dim == 0
           && Abs(y.birthX - x.deathX) <= 1 && Abs(y.birthY - x.deathY) <= 1
  {
    Select(subPers, x => PlumesUpperRow(supPers, x, birthUpper, lifespan))
  }

  lemma PlumesUpperIsOrderedSelection(subPers: seq<Pair>, supPers: seq<Pair>, birthUpper: int, lifespan: int)
    ensures IsSubsequence(PlumesUpper(subPers, supPers, birthUpper, lifespan), subPers)
  {
    SelectIsSubsequence(subPers, x => PlumesUpperRow(supPers, x, birthUpper, lifespan));
  }

  /** With no superlevel pairs nothing can pass the existence test. */
  lemma {:induction false} PlumesUpperEmptySuperlevel(subPers: seq<Pair>, birthUpper: int, lifespan: int)
    ensures PlumesUpper(subPers, [], birthUpper, lifespan) == []
  {
    if subPers != [] {
      PlumesUpperEmptySuperlevel(subPers[1..], birthUpper, lifespan);
    }
  }

  /** More superlevel pairs can only add rows to the result, never remove or reorder them. */
  lemma PlumesUpperMonotone(subPers: seq<Pair>, supPers: seq<Pair>, morePers: seq<Pair>, birthUpper: int, lifespan: int)
    requires forall y :: y in supPers ==> y in morePers
    ensures IsSubsequence(PlumesUpper(subPers, supPers, birthUpper, lifespan),
                          PlumesUpper(subPers, morePers, birthUpper, lifespan))
  {
    SelectMonotone(subPers, x => PlumesUpperRow(supPers, x, birthUpper, lifespan),
                            x => PlumesUpperRow(morePers, x, birthUpper, lifespan));
  }

  // ---------------------------------------------------------------- rings_upper

  predicate RingsUpperRow(x: Pair, med: int, lifespan: int)
  {
    x.dim == 1 && x.birth >= med && x.birth - x.death <= lifespan
  }

  /** Superlevel dimension-1 pairs born at or above med whose lifespan is AT MOST
      lifespan (an upper bound, unlike every other filter). */
  function RingsUpper(subPers: seq<Pair>, supPers: seq<Pair>, med: int, lifespan: int): (r: seq<Pair>)
    ensures forall x :: x in r <==>
      x in supPers && x.dim == 1 && x.birth >= med && x.birth - x.death <= lifespan
  {
    Select(supPers, x => RingsUpperRow(x, med, lifespan))
  }

  lemma RingsUpperIsOrderedSelection(subPers: seq<Pair>, supPers: seq<Pair>, med: int, lifespan: int, x: Pair)
    ensures IsSubsequence(RingsUpper(subPers, supPers, med, lifespan), supPers)
    ensures multiset(RingsUpper(subPers, supPers, med, lifespan))[x] ==
      if RingsUpperRow(x, med, lifespan) then multiset(supPers)[x] else 0
  {
    SelectIsSubsequence(supPers, x => RingsUpperRow(x, med, lifespan));
    SelectMultiplicity(supPers, x => RingsUpperRow(x, med, lifespan), x);
  }
}
