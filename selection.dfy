/**
 * AddressBalance.select: copy the candidates, sort them by priority unless the
 * target is MAX_MONEY, then walk them, picking every output that passes
 * ShouldSelect, until the running total reaches the target.
 */
module AddressBalance {

  import opened Wrappers
  import opened Outputs
  import opened OutputOrder
  import opened OutputSort

  /** What select returns: the value gathered and the set of outputs picked. */
  datatype CoinSelection = CoinSelection(valueGathered: int, gathered: set<Output>)

  /** Total value of a list of outputs. */
  function Sum(s: seq<Output>): nat
  {
    if s == [] then 0 else Sum(s[..|s| - 1]) + s[|s| - 1].value
  }

  /** The outputs of `s` that are eligible for `query`, in order. */
  function EligibleOf(query: Address, s: seq<Output>): seq<Output>
  {
    if s == [] then []
    else EligibleOf(query, s[..|s| - 1])
         + (if Eligible(query, s[|s| - 1]) then [s[|s| - 1]] else [])
  }

  /** Every output of `s` has an extractable destination address. */
  predicate Extractable(s: seq<Output>)
  {
    forall k :: 0 <= k < |s| ==> s[k].toAddress.Some?
  }

  /**
   * The walk of the select loop over `s`, as the list of outputs it picks:
   * before each output it stops if the total has reached `target`, and a
   * ShouldSelect failure ends the whole call with that failure.
   */
  function Gather(query: Address, target: int, s: seq<Output>): (r: Result<seq<Output>, ScriptError>)
    ensures r.Err? ==> r.error.output in s && r.error.output.toAddress.None?
  {
    if s == [] then Ok([])
    else
      match Gather(query, target, s[..|s| - 1])
      case Err(e) => Err(e)
      case Ok(p) =>
        if Sum(p) >= target then Ok(p)
        else
          match ShouldSelect(query, s[|s| - 1])
          case Err(e) => Err(e)
          case Ok(pick) => if pick then Ok(p + [s[|s| - 1]]) else Ok(p)
  }

  /** The order the walk visits the candidates in. */
  function WalkOrder(target: int, candidates: seq<Output>): seq<Output>
  {
    if target == MAX_MONEY then candidates else Sort(candidates)
  }

  /** The walk visits every candidate once: as given for MAX_MONEY, else in priority order. */
  lemma WalkOrderPermutes(target: int, candidates: seq<Output>)
    ensures multiset(WalkOrder(target, candidates)) == multiset(candidates)
    ensures target == MAX_MONEY ==> WalkOrder(target, candidates) == candidates
    ensures target != MAX_MONEY ==> Sorted(WalkOrder(target, candidates))
  {
    SortPermutation(candidates);
    SortSorted(candidates);
  }

  function Elements(s: seq<Output>): set<Output>
  {
    set o | o in s
  }

  lemma ElementsSnoc(s: seq<Output>, o: Output)
    ensures Elements(s + [o]) == Elements(s) + {o}
  {
  }

  /** The CoinSelection that select builds from the picked outputs. */
  function Selection(picked: seq<Output>): CoinSelection
  {
    CoinSelection(Sum(picked), Elements(picked))
  }

  /** What select returns for `candidates` and `target`. */
  function SelectSpec(query: Address, target: int, candidates: seq<Output>): Result<CoinSelection, ScriptError>
  {
    SelectFrom(query, target, WalkOrder(target, candidates))
  }

  /** The result of the select loop walking `walk` in the given order. */
  function SelectFrom(query: Address, target: int, walk: seq<Output>): Result<CoinSelection, ScriptError>
  {
    match Gather(query, target, walk)
    case Err(e) => Err(e)
    case Ok(p) => Ok(Selection(p))
  }

  /**
   * A failure names a candidate whose address cannot be extracted; a success
   * gathers only eligible candidates, and nothing at all for a target of 0 or less.
   */
  lemma SelectSpecMeaning(query: Address, target: int, candidates: seq<Output>)
    ensures SelectSpec(query, target, candidates).Err? ==>
              SelectSpec(query, target, candidates).error.output in candidates
              && SelectSpec(query, target, candidates).error.output.toAddress.None?
    ensures SelectSpec(query, target, candidates).Ok? ==>
              forall o :: o in SelectSpec(query, target, candidates).value.gathered ==>
                o in candidates && Eligible(query, o)
    ensures SelectSpec(query, target, candidates).Ok? && target <= 0 ==>
              SelectSpec(query, target, candidates).value == CoinSelection(0, {})
  {
    var walk := WalkOrder(target, candidates);
    WalkOrderPermutes(target, candidates);
    assert forall o :: o in walk <==> o in candidates by {
      assert forall o :: o in walk <==> o in multiset(walk);
    }
    if Gather(query, target, walk).Ok? {
      PickedAreEligible(query, target, walk);
      if target <= 0 {
        NonPositiveTargetSelectsNothing(query, target, walk);
      }
    }
  }

  lemma SumSnoc(s: seq<Output>, o: Output)
    ensures Sum(s + [o]) == Sum(s) + o.value
  {
    assert (s + [o])[..|s|] == s;
  }

  lemma EligibleOfSnoc(query: Address, s: seq<Output>, o: Output)
    ensures EligibleOf(query, s + [o]) == EligibleOf(query, s) + (if Eligible(query, o) then [o] else [])
  {
    assert (s + [o])[..|s|] == s;
  }

  /** Every output EligibleOf keeps is eligible and comes from `s`. */
  lemma {:induction false} EligibleOfMembers(query: Address, s: seq<Output>)
    ensures forall o :: o in EligibleOf(query, s) ==> o in s && Eligible(query, o)
  {
    if s != [] {
      EligibleOfMembers(query, s[..|s| - 1]);
      assert s == s[..|s| - 1] + [s[|s| - 1]];
    }
  }

  /** Keeping only eligible outputs keeps a sorted list sorted. */
  lemma {:induction false} EligibleOfSorted(query: Address, s: seq<Output>)
    requires Sorted(s)
    ensures Sorted(EligibleOf(query, s))
  {
    if s != [] {
      var init, last := s[..|s| - 1], s[|s| - 1];
      assert Sorted(init);
      EligibleOfSorted(query, init);
      EligibleOfMembers(query, init);
      var e := EligibleOf(query, init);
      forall k | 0 <= k < |e|
        ensures Precedes(e[k], last)
      {
        assert e[k] in init;
        var m :| 0 <= m < |init| && init[m] == e[k];
        assert s[m] == e[k];
      }
    }
  }

  /** The eligible outputs of a prefix never total more than those of the whole list. */
  lemma {:induction false} EligibleOfPrefixSum(query: Address, s: seq<Output>, k: int)
    requires 0 <= k <= |s|
    ensures Sum(EligibleOf(query, s[..k])) <= Sum(EligibleOf(query, s))
  {
    if k < |s| {
      var init, last := s[..|s| - 1], s[|s| - 1];
      assert init[..k] == s[..k];
      EligibleOfPrefixSum(query, init, k);
      SumSnoc(EligibleOf(query, init), last);
      assert s == init + [last];
      EligibleOfSnoc(query, init, last);
      if Eligible(query, last) {
        assert EligibleOf(query, s) == EligibleOf(query, init) + [last];
      } else {
        assert EligibleOf(query, s) == EligibleOf(query, init);
      }
    } else {
      assert s[..k] == s;
    }
  }

  /** Once the walk has stopped or failed, later candidates change nothing. */
  lemma {:induction false} GatherSettled(query: Address, target: int, s: seq<Output>, i: int)
    requires 0 <= i <= |s|
    requires Gather(query, target, s[..i]).Err?
             || Sum(Gather(query, target, s[..i]).value) >= target
    ensures Gather(query, target, s) == Gather(query, target, s[..i])
  {
    if i < |s| {
      var init := s[..|s| - 1];
      assert init[..i] == s[..i];
      GatherSettled(query, target, init, i);
    } else {
      assert s[..i] == s;
    }
  }

  /** One step of the walk, from the prefix of length i to that of length i + 1. */
  lemma GatherStep(query: Address, target: int, s: seq<Output>, i: int)
    requires 0 <= i < |s|
    ensures Gather(query, target, s[..i + 1]) ==
              match Gather(query, target, s[..i])
              case Err(e) => Err(e)
              case Ok(p) =>
                if Sum(p) >= target then Ok(p)
                else
                  match ShouldSelect(query, s[i])
                  case Err(e) => Err(e)
                  case Ok(pick) => if pick then Ok(p + [s[i]]) else Ok(p)
  {
    assert s[..i + 1][..i] == s[..i];
  }

  /**
   * The walk picks exactly the eligible outputs of some prefix of `s`, and
   * stops short of the end only once the total has reached the target.
   */
  lemma {:induction false} GatherIsEligiblePrefix(query: Address, target: int, s: seq<Output>)
    requires Gather(query, target, s).Ok?
    ensures exists k :: 0 <= k <= |s|
              && Gather(query, target, s).value == EligibleOf(query, s[..k])
              && Extractable(s[..k])
              && (k < |s| ==> Sum(EligibleOf(query, s[..k])) >= target)
  {
    var p := Gather(query, target, s).value;
    if s == [] {
      assert s[..0] == [];
    } else {
      var init, last := s[..|s| - 1], s[|s| - 1];
      GatherIsEligiblePrefix(query, target, init);
      var k :| 0 <= k <= |init|
              && Gather(query, target, init).value == EligibleOf(query, init[..k])
              && Extractable(init[..k])
              && (k < |init| ==> Sum(EligibleOf(query, init[..k])) >= target);
      assert init[..k] == s[..k];
      var q := Gather(query, target, init).value;
      if Sum(q) >= target {
        assert p == EligibleOf(query, s[..k]);
      } else {
        assert k == |init| && s[..k] == init;
        GatherTakesLast(query, target, s);
        assert 0 <= |s| <= |s| && p == EligibleOf(query, s[..|s|]) && Extractable(s[..|s|]);
      }
    }
  }

  /** The same step, stated on the whole of `s` as a prefix of itself. */
  lemma GatherTakesLast(query: Address, target: int, s: seq<Output>)
    requires s != [] && Gather(query, target, s).Ok?
    requires Gather(query, target, s[..|s| - 1]) == Ok(EligibleOf(query, s[..|s| - 1]))
    requires Extractable(s[..|s| - 1]) && Sum(EligibleOf(query, s[..|s| - 1])) < target
    ensures Gather(query, target, s).value == EligibleOf(query, s[..|s|])
    ensures Extractable(s[..|s|])
  {
    var init, last := s[..|s| - 1], s[|s| - 1];
    assert s == init + [last] && s[..|s|] == s;
    assert last.toAddress.Some?;
    GatherExtends(query, target, init, last);
  }

  /** Below the target, a walk that picked every eligible output so far also takes the next one. */
  lemma GatherExtends(query: Address, target: int, init: seq<Output>, last: Output)
    requires Gather(query, target, init) == Ok(EligibleOf(query, init))
    requires Extractable(init) && Sum(EligibleOf(query, init)) < target
    requires last.toAddress.Some?
    ensures Gather(query, target, init + [last]) == Ok(EligibleOf(query, init + [last]))
    ensures Extractable(init + [last])
  {
    var s := init + [last];
    assert s[..|s| - 1] == init && s[|s| - 1] == last;
    EligibleOfSnoc(query, init, last);
    if Eligible(query, last) {
      assert Gather(query, target, s) == Ok(EligibleOf(query, init) + [last]);
    } else {
      assert ShouldSelect(query, last) == Ok(false);
      assert EligibleOf(query, init) + [] == EligibleOf(query, init);
    }
    assert forall k :: 0 <= k < |init| ==> s[k] == init[k];
  }

  /** Every output select picks passes ShouldSelect, and the total is their sum. */
  lemma PickedAreEligible(query: Address, target: int, s: seq<Output>)
    requires Gather(query, target, s).Ok?
    ensures forall o :: o in Gather(query, target, s).value ==> o in s && Eligible(query, o)
    ensures Sum(Gather(query, target, s).value) <= Sum(EligibleOf(query, s))
  {
    GatherIsEligiblePrefix(query, target, s);
    var k :| 0 <= k <= |s|
            && Gather(query, target, s).value == EligibleOf(query, s[..k])
            && Extractable(s[..k])
            && (k < |s| ==> Sum(EligibleOf(query, s[..k])) >= target);
    EligibleOfMembers(query, s[..k]);
    EligibleOfPrefixSum(query, s, k);
    forall o | o in s[..k] ensures o in s { }
  }

  /** A target of zero or less selects nothing: the loop stops before the first output. */
  lemma {:induction false} NonPositiveTargetSelectsNothing(query: Address, target: int, s: seq<Output>)
    requires target <= 0
    ensures Gather(query, target, s) == Ok([])
  {
    if s != [] {
      NonPositiveTargetSelectsNothing(query, target, s[..|s| - 1]);
    }
  }

  /** Minimality: the total just before the last pick was still below the target. */
  lemma {:induction false} GatherMinimal(query: Address, target: int, s: seq<Output>)
    requires Gather(query, target, s).Ok? && Gather(query, target, s).value != []
    ensures var p := Gather(query, target, s).value; Sum(p[..|p| - 1]) < target
  {
    var init := s[..|s| - 1];
    var p := Gather(query, target, s).value;
    if Gather(query, target, init).Ok? {
      var q := Gather(query, target, init).value;
      if p == q {
        GatherMinimal(query, target, init);
      } else {
        assert p[..|p| - 1] == q;
      }
    }
  }

  /** A short total is a normal return: then every eligible candidate was picked. */
  lemma ShortfallPicksAll(query: Address, target: int, s: seq<Output>)
    requires Gather(query, target, s).Ok? && Sum(Gather(query, target, s).value) < target
    ensures Gather(query, target, s).value == EligibleOf(query, s)
    ensures Extractable(s)
  {
    GatherIsEligiblePrefix(query, target, s);
    var k :| 0 <= k <= |s|
            && Gather(query, target, s).value == EligibleOf(query, s[..k])
            && Extractable(s[..k])
            && (k < |s| ==> Sum(EligibleOf(query, s[..k])) >= target);
    assert k == |s| && s[..k] == s;
  }

  /** When all eligible value together stays below the target, all of it is picked. */
  lemma {:induction false} ShortSupplyPicksAll(query: Address, target: int, s: seq<Output>)
    requires Extractable(s) && Sum(EligibleOf(query, s)) < target
    ensures Gather(query, target, s) == Ok(EligibleOf(query, s))
  {
    if s != [] {
      var init, last := s[..|s| - 1], s[|s| - 1];
      assert Extractable(init);
      EligibleOfPrefixSum(query, s, |s| - 1);
      ShortSupplyPicksAll(query, target, init);
      assert s == init + [last] && last.toAddress.Some?;
      GatherExtends(query, target, init, last);
    }
  }

  /**
   * select fails exactly when the walk reaches, while still below the target,
   * an output whose address cannot be extracted.
   */
  lemma {:induction false} GatherFailsIff(query: Address, target: int, s: seq<Output>)
    ensures Gather(query, target, s).Err? <==>
              exists k :: 0 <= k < |s| && s[k].toAddress.None? && Extractable(s[..k])
                          && Sum(EligibleOf(query, s[..k])) < target
  {
    if Gather(query, target, s).Err? {
      var init, last := s[..|s| - 1], s[|s| - 1];
      if Gather(query, target, init).Err? {
        GatherFailsIff(query, target, init);
        var k :| 0 <= k < |init| && init[k].toAddress.None? && Extractable(init[..k])
                 && Sum(EligibleOf(query, init[..k])) < target;
        assert init[..k] == s[..k];
        assert s[k].toAddress.None?;
      } else {
        ShortfallPicksAll(query, target, init);
        var k := |s| - 1;
        assert s[..k] == init;
        assert s[k].toAddress.None?;
      }
    } else {
      if exists k :: 0 <= k < |s| && s[k].toAddress.None? && Extractable(s[..k])
                     && Sum(EligibleOf(query, s[..k])) < target {
        var k :| 0 <= k < |s| && s[k].toAddress.None? && Extractable(s[..k])
                 && Sum(EligibleOf(query, s[..k])) < target;
        ShortSupplyPicksAll(query, target, s[..k]);
        assert s[..k + 1][..k] == s[..k];
        assert Gather(query, target, s[..k + 1]).Err?;
        GatherSettled(query, target, s, k + 1);
        assert false;
      }
    }
  }

  /** Below MAX_MONEY the picks come out in priority order. */
  lemma PicksInPriorityOrder(query: Address, target: int, candidates: seq<Output>)
    requires target != MAX_MONEY && Gather(query, target, WalkOrder(target, candidates)).Ok?
    ensures Sorted(Gather(query, target, WalkOrder(target, candidates)).value)
  {
    var s := Sort(candidates);
    GatherIsEligiblePrefix(query, target, s);
    var k :| 0 <= k <= |s|
            && Gather(query, target, s).value == EligibleOf(query, s[..k])
            && Extractable(s[..k])
            && (k < |s| ==> Sum(EligibleOf(query, s[..k])) >= target);
    SortSorted(candidates);
    assert Sorted(s[..k]);
    EligibleOfSorted(query, s[..k]);
  }

  /**
   * The address balance query: with target MAX_MONEY the candidates are walked
   * in input order and, unless their eligible value reaches the whole money
   * supply, the result is every eligible output and their total.
   */
  lemma AllMoneyIsBalance(query: Address, candidates: seq<Output>)
    requires Extractable(candidates) && Sum(EligibleOf(query, candidates)) < MAX_MONEY
    ensures WalkOrder(MAX_MONEY, candidates) == candidates
    ensures SelectSpec(query, MAX_MONEY, candidates) == Ok(Selection(EligibleOf(query, candidates)))
  {
    ShortSupplyPicksAll(query, MAX_MONEY, candidates);
  }

  /**
   * A balance query over three BUILDING outputs worth 10, 5 and 5 at depths
   * 1, 10 and 10: the shallow one fails the depth rule, and the balance is
   * the two others, 10 in all.
   */
  lemma BalanceSample(query: Address)
    ensures var a := Output(10, Building, 1, Network, 0, 1, 0, Some(query), true);
            var b := Output(5, Building, 10, Network, 0, 2, 0, Some(query), true);
            var c := Output(5, Building, 10, Network, 0, 3, 0, Some(query), true);
            SelectSpec(query, MAX_MONEY, [a, b, c]) == Ok(CoinSelection(10, {b, c}))
  {
    var a := Output(10, Building, 1, Network, 0, 1, 0, Some(query), true);
    var b := Output(5, Building, 10, Network, 0, 2, 0, Some(query), true);
    var c := Output(5, Building, 10, Network, 0, 3, 0, Some(query), true);
    var s := [a, b, c];
    assert !Eligible(query, a) && Eligible(query, b) && Eligible(query, c);
    assert s[..2][..1] == [a] && [a][..0] == [] && s[..2] == [a, b];
    assert EligibleOf(query, [a]) == [];
    assert EligibleOf(query, [a, b]) == [b];
    assert EligibleOf(query, s) == [b, c];
    assert [b, c][..1] == [b] && [b][..0] == [];
    assert Sum([b]) == 5;
    assert Sum([b, c]) == 10;
    AllMoneyIsBalance(query, s);
    assert Elements([b, c]) == {b, c};
  }

  /** Selects outputs paying one address. */
  class AddressBalance {

    const addressToQuery: Address

    constructor (addressToQuery: Address)
      ensures this.addressToQuery == addressToQuery
    {
      this.addressToQuery := addressToQuery;
    }

    /**
     * Picks outputs until their total reaches `target`; the total may stay
     * below the target when the eligible candidates do not suffice.
     */
    method Select(target: int, candidates: seq<Output>) returns (r: Result<CoinSelection, ScriptError>)
      ensures r == SelectSpec(addressToQuery, target, candidates)
    {
      var sortedOutputs := new Output[|candidates|](k requires 0 <= k < |candidates| => candidates[k]);
      assert sortedOutputs[..] == candidates;
      if target != MAX_MONEY {
        SortOutputs(sortedOutputs);
      }
      assert sortedOutputs[..] == WalkOrder(target, candidates);
      r := Walk(target, sortedOutputs);
    }

    /** The loop of select over the (possibly sorted) copy of the candidates. */
    method Walk(target: int, sortedOutputs: array<Output>) returns (r: Result<CoinSelection, ScriptError>)
      ensures r == SelectFrom(addressToQuery, target, sortedOutputs[..])
    {
      ghost var walk := sortedOutputs[..];
      var selected: set<Output> := {};
      ghost var picked: seq<Output> := [];
      var totalOutputValue := 0;
      for i := 0 to sortedOutputs.Length
        invariant Gather(addressToQuery, target, walk[..i]) == Ok(picked)
        invariant totalOutputValue == Sum(picked)
        invariant selected == Elements(picked)
      {
        GatherStep(addressToQuery, target, walk, i);
        if totalOutputValue >= target {
          GatherSettled(addressToQuery, target, walk, i);
          break;
        }
        var output := sortedOutputs[i];
        var should := ShouldSelect(addressToQuery, output);
        if should.Err? {
          GatherSettled(addressToQuery, target, walk, i + 1);
          return Err(should.error);
        }
        if !should.value {
          continue;
        }
        SumSnoc(picked, output);
        ElementsSnoc(picked, output);
        picked := picked + [output];
        selected := selected + {output};
        totalOutputValue := totalOutputValue + output.value;
      }
      assert walk[..|walk|] == walk;
      r := Ok(CoinSelection(totalOutputValue, selected));
    }
  }
}
