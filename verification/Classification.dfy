/** Sorting WHERE clauses into remote and local ones, at size estimation and again at planning
    (conditions.c, tibero_fdw.c). */
module Classification {
  import opened PgNodes
  import opened Sequences
  import opened Shippability

  /** The planner's wrapper around a clause; wrappers are compared by address. */
  class RestrictInfo {
    const clause: Node
    const pseudoconstant: bool

    constructor (clause: Node, pseudoconstant: bool)
      ensures this.clause == clause && this.pseudoconstant == pseudoconstant
    {
      this.clause, this.pseudoconstant := clause, pseudoconstant;
    }
  }

  function Ships(c: Catalog, relids: set<nat>): Node -> bool {
    e => Accepts(c, relids, e)
  }

  function ShipsClause(c: Catalog, relids: set<nat>): RestrictInfo -> bool {
    (ri: RestrictInfo) => Accepts(c, relids, ri.clause)
  }

  /** The clauses a plan must enforce, in order. */
  function PlannedClauses(ris: seq<RestrictInfo>): seq<Node>
  {
    if ris == [] then []
    else
      var last := ris[|ris| - 1];
      PlannedClauses(ris[..|ris| - 1]) + if last.pseudoconstant then [] else [last.clause]
  }

  lemma {:induction false} FilterMember<T>(p: T -> bool, s: seq<T>, x: T)
    ensures x in Filter(p, s) <==> x in s && p(x)
  {
    if s != [] {
      assert s == s[..|s| - 1] + [s[|s| - 1]];
      FilterMember(p, s[..|s| - 1], x);
    }
  }

  /** Shippable clauses go to the first list, the others to the second, both in input order. */
  method ClassifyConditions(c: Catalog, relids: set<nat>, input: seq<RestrictInfo>)
    returns (remote: seq<RestrictInfo>, local: seq<RestrictInfo>)
    ensures remote == Filter(ShipsClause(c, relids), input)
    ensures local == Filter(Not(ShipsClause(c, relids)), input)
    ensures Interleaves(input, remote, local)
  {
    remote, local := [], [];
    for i := 0 to |input|
      invariant remote == Filter(ShipsClause(c, relids), input[..i])
      invariant local == Filter(Not(ShipsClause(c, relids)), input[..i])
    {
      assert input[..i + 1][..i] == input[..i];
      var ships := ExprInspectShippability(c, relids, false, input[i].clause);
      if ships {
        remote := remote + [input[i]];
      } else {
        local := local + [input[i]];
      }
    }
    assert input[..|input|] == input;
    FilterSplits(ShipsClause(c, relids), input);
  }

  /** The plan puts every clause on the side a fresh inspection would, whether or not it was classified
      before: pseudoconstants aside, no clause is lost, copied, reordered or enforced on the wrong side. */
  method SplitScanClauses(c: Catalog, relids: set<nat>, base: seq<RestrictInfo>,
                          remoteConds: seq<RestrictInfo>, localConds: seq<RestrictInfo>,
                          scanClauses: seq<RestrictInfo>)
    returns (remoteExprs: seq<Node>, localExprs: seq<Node>)
    requires remoteConds == Filter(ShipsClause(c, relids), base)
    requires localConds == Filter(Not(ShipsClause(c, relids)), base)
    ensures remoteExprs == Filter(Ships(c, relids), PlannedClauses(scanClauses))
    ensures localExprs == Filter(Not(Ships(c, relids)), PlannedClauses(scanClauses))
    ensures Interleaves(PlannedClauses(scanClauses), remoteExprs, localExprs)
  {
    hide Accepts, Filter, PlannedClauses, Interleaves;
    remoteExprs, localExprs := [], [];
    NothingPlanned(c, relids, scanClauses);
    for i := 0 to |scanClauses|
      invariant remoteExprs == Filter(Ships(c, relids), PlannedClauses(scanClauses[..i]))
      invariant localExprs == Filter(Not(Ships(c, relids)), PlannedClauses(scanClauses[..i]))
    {
      var rinfo := scanClauses[i];
      OneMorePlanned(c, relids, scanClauses, i);
      if rinfo.pseudoconstant {
        continue;
      }
      KnownSide(c, relids, base, rinfo);
      if rinfo in remoteConds {
        remoteExprs := remoteExprs + [rinfo.clause];
      } else if rinfo in localConds {
        localExprs := localExprs + [rinfo.clause];
      } else {
        var ships := ExprInspectShippability(c, relids, false, rinfo.clause);
        if ships {
          remoteExprs := remoteExprs + [rinfo.clause];
        } else {
          localExprs := localExprs + [rinfo.clause];
        }
      }
    }
    assert scanClauses[..|scanClauses|] == scanClauses;
    FilterSplits(Ships(c, relids), PlannedClauses(scanClauses));
  }

  lemma NothingPlanned(c: Catalog, relids: set<nat>, ris: seq<RestrictInfo>)
    ensures Filter(Ships(c, relids), PlannedClauses(ris[..0])) == []
    ensures Filter(Not(Ships(c, relids)), PlannedClauses(ris[..0])) == []
  {
  }

  /** A clause found in one of the lists ships, or does not, as the list says. */
  lemma KnownSide(c: Catalog, relids: set<nat>, base: seq<RestrictInfo>, ri: RestrictInfo)
    ensures ri in Filter(ShipsClause(c, relids), base) ==> Accepts(c, relids, ri.clause)
    ensures ri in Filter(Not(ShipsClause(c, relids)), base) ==> !Accepts(c, relids, ri.clause)
  {
    FilterMember(ShipsClause(c, relids), base, ri);
    FilterMember(Not(ShipsClause(c, relids)), base, ri);
  }

  lemma OneMorePlanned(c: Catalog, relids: set<nat>, ris: seq<RestrictInfo>, i: nat)
    requires i < |ris|
    ensures var p, before, after := Ships(c, relids), PlannedClauses(ris[..i]), PlannedClauses(ris[..i + 1]);
            if ris[i].pseudoconstant then after == before
            else if Accepts(c, relids, ris[i].clause)
            then
              && Filter(p, after) == Filter(p, before) + [ris[i].clause]
              && Filter(Not(p), after) == Filter(Not(p), before)
            else
              && Filter(p, after) == Filter(p, before)
              && Filter(Not(p), after) == Filter(Not(p), before) + [ris[i].clause]
  {
    hide Accepts;
    var before, after := PlannedClauses(ris[..i]), PlannedClauses(ris[..i + 1]);
    assert ris[..i + 1][..i] == ris[..i];
    assert after == before + if ris[i].pseudoconstant then [] else [ris[i].clause];
    if !ris[i].pseudoconstant {
      FilterAppend(Ships(c, relids), before, ris[i].clause);
      FilterAppend(Not(Ships(c, relids)), before, ris[i].clause);
    }
  }

  lemma FilterAppend<T>(p: T -> bool, s: seq<T>, x: T)
    ensures Filter(p, s + [x]) == Filter(p, s) + if p(x) then [x] else []
  {
    assert (s + [x])[..|s|] == s;
  }
}
