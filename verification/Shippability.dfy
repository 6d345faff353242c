/** Which WHERE clauses may run on the remote server (conditions.c). */
module Shippability {
  import opened Prelude
  import opened PgNodes

  datatype CollationState = SafeToShip | NeedInspection | UnsafeToShip

  function Rank(s: CollationState): nat {
    match s case SafeToShip => 0 case NeedInspection => 1 case UnsafeToShip => 2
  }

  predicate BuiltinOid(oid: Oid) {
    oid < FIRST_GENBKI_OBJECT_ID
  }

  predicate CompatibleWithTibero(oid: Oid) {
    BuiltinOid(oid) && oid != OID_BPCHAR_REGEXEQ_OP && oid != TB_FDW_OID_MODULO_OP
  }

  /** No aggregate is known to be compatible, whether built in or not. */
  predicate AggregateCompatible(aggregate: Oid) {
    if !BuiltinOid(aggregate) then false else false
  }

  predicate CollationOk(collation: Oid) {
    collation == INVALID_OID || collation == DEFAULT_COLLATION_OID
  }

  /** What one node must satisfy, whatever stands around it. */
  predicate NodePermitted(c: Catalog, relids: set<nat>, e: Node) {
    match e
    case Absent => true
    case Var(no, att, level, collation) =>
      (no in relids && level == 0 ==> att > 0 || att == SELF_ITEM_POINTER_ATTNO) && CollationOk(collation)
    case Const(_, collation, _, _) => CollationOk(collation)
    case OpExpr(op, input, output, _) =>
      CompatibleWithTibero(op) && ImmutableOperator(c, op) && CollationOk(input) && CollationOk(output)
    case List(_) => true
    case _ => false
  }

  /** The declared meaning of the walk's verdict: every node of the tree is permitted. */
  predicate Accepts(c: Catalog, relids: set<nat>, e: Node)
    decreases e
  {
    NodePermitted(c, relids, e) &&
    forall i :: 0 <= i < |Children(e)| ==> Accepts(c, relids, Children(e)[i])
  }

  /** Every node at or below `e`. */
  ghost function Subnodes(e: Node): set<Node>
    decreases e
  {
    {e} + set i, n | 0 <= i < |Children(e)| && n in Subnodes(Children(e)[i]) :: n
  }

  /** The recursive verdict is the flat one: a test of each node on its own. */
  lemma {:induction false} AcceptsIsNodewise(c: Catalog, relids: set<nat>, e: Node)
    ensures Accepts(c, relids, e) <==> forall n :: n in Subnodes(e) ==> NodePermitted(c, relids, n)
    decreases e
  {
    forall i | 0 <= i < |Children(e)|
      ensures Accepts(c, relids, Children(e)[i]) <==>
              forall n :: n in Subnodes(Children(e)[i]) ==> NodePermitted(c, relids, n)
    {
      AcceptsIsNodewise(c, relids, Children(e)[i]);
    }
    if forall n :: n in Subnodes(e) ==> NodePermitted(c, relids, n) {
      assert e in Subnodes(e);
      forall i | 0 <= i < |Children(e)|
        ensures Accepts(c, relids, Children(e)[i])
      {
        assert Subnodes(Children(e)[i]) <= Subnodes(e);
      }
    }
  }

  /** The walk looks at arguments in order, yet their order cannot change the verdict. */
  lemma ArgumentOrderIrrelevant(c: Catalog, relids: set<nat>, op: Oid, input: Oid, output: Oid,
                                a: seq<Node>, b: seq<Node>)
    requires multiset(a) == multiset(b)
    ensures Accepts(c, relids, OpExpr(op, input, output, a)) == Accepts(c, relids, OpExpr(op, input, output, b))
  {
    var x, y := OpExpr(op, input, output, a), OpExpr(op, input, output, b);
    assert Children(x) == a && Children(y) == b;
    forall n ensures n in a <==> n in b {
      assert n in a <==> n in multiset(a);
      assert n in b <==> n in multiset(b);
    }
    assert (forall i :: 0 <= i < |a| ==> Accepts(c, relids, a[i])) <==> forall n :: n in a ==> Accepts(c, relids, n);
    assert (forall i :: 0 <= i < |b| ==> Accepts(c, relids, b[i])) <==> forall n :: n in b ==> Accepts(c, relids, n);
  }

  /** The per-operator volatility check of the whole subtree adds nothing below an accepted argument. */
  lemma {:induction false} AcceptedIsImmutable(c: Catalog, relids: set<nat>, e: Node)
    requires Accepts(c, relids, e)
    ensures !ContainsMutable(c, e)
    decreases e
  {
    forall i | 0 <= i < |Children(e)|
      ensures !ContainsMutable(c, Children(e)[i])
    {
      AcceptedIsImmutable(c, relids, Children(e)[i]);
    }
  }

  /** Termination measure of the walk: an operator outweighs the list of its arguments. */
  ghost function Size(e: Node): nat
    decreases e
  {
    match e
    case FuncExpr(_, _, _, args) => 2 + SizeAll(args)
    case OpExpr(_, _, _, args) => 2 + SizeAll(args)
    case DistinctExpr(_, _, _, args) => 2 + SizeAll(args)
    case BoolExpr(_, args) => 2 + SizeAll(args)
    case NullTest(_, arg) => 1 + Size(arg)
    case ArrayExpr(_, elements) => 2 + SizeAll(elements)
    case List(elements) => 1 + SizeAll(elements)
    case _ => 0
  }

  ghost function SizeAll(es: seq<Node>): nat
    decreases es
  {
    if es == [] then 0 else Size(es[0]) + SizeAll(es[1..])
  }

  lemma {:induction false} ElementSize(es: seq<Node>, i: nat)
    requires i < |es|
    ensures Size(es[i]) <= SizeAll(es)
  {
    if i > 0 {
      ElementSize(es[1..], i - 1);
    }
  }

  /** The state one shippability inspection carries through the tree. */
  class InspectionContext {
    const catalog: Catalog
    const relids: set<nat>
    const upperRel: bool
    var collation: Oid
    var collationState: CollationState
    var shippable: bool

    constructor (catalog: Catalog, relids: set<nat>, upperRel: bool)
      ensures this.catalog == catalog && this.relids == relids && this.upperRel == upperRel
      ensures Consistent() && shippable
    {
      this.catalog, this.relids, this.upperRel := catalog, relids, upperRel;
      collation := INVALID_OID;
      collationState := SafeToShip;
      shippable := true;
    }

    /** NeedInspection is never entered, and an unsafe collation has already cost shippability. */
    predicate Consistent()
      reads this
    {
      (collationState == SafeToShip && collation == INVALID_OID) || (collationState == UnsafeToShip && !shippable)
    }

    function DeduceCollationState(coll: Oid): CollationState
      reads this
    {
      if coll == INVALID_OID then SafeToShip
      else if collationState == NeedInspection && coll == collation then NeedInspection
      else if coll == DEFAULT_COLLATION_OID then SafeToShip
      else UnsafeToShip
    }

    predicate CollationConflict(state: CollationState, coll: Oid)
      reads this
    {
      state == collationState && state == NeedInspection && coll != collation
    }

    /** The collation and state after meeting `coll`; its conflict branch can never be taken. */
    function Merged(coll: Oid): (Oid, CollationState)
      reads this
    {
      var state := DeduceCollationState(coll);
      if Rank(state) > Rank(collationState) then (coll, state)
      else if CollationConflict(state, coll) then
        if collation == DEFAULT_COLLATION_OID then (coll, collationState)
        else if coll != DEFAULT_COLLATION_OID then (collation, UnsafeToShip)
        else (collation, collationState)
      else (collation, collationState)
    }

    /** From a consistent state only the default collation passes; from no state is shippability regained. */
    method CompareCollation(coll: Oid)
      modifies this
      ensures shippable ==> old(shippable)
      ensures old(Consistent()) ==> Consistent() && shippable == (old(shippable) && CollationOk(coll))
    {
      var (newCollation, newState) := Merged(coll);
      collation, collationState := newCollation, newState;
      shippable := shippable && collationState != UnsafeToShip;
    }

    /** The verdict gathered so far, and the tree's own: the walk computes their conjunction. */
    method StartInspection(e: Node)
      requires Consistent()
      modifies this
      ensures Consistent()
      ensures shippable == (old(shippable) && Accepts(catalog, relids, e))
      decreases Size(e), 1
    {
      if e.Absent? || !shippable {
        return;
      }
      match e {
        case Absent =>
        case Var(_, _, _, _) => InspectVar(e);
        case Const(_, coll, _, _) => CompareCollation(coll);
        case Param(_, _, _) => InspectParam(e); shippable := false;
        case FuncExpr(f, input, output, args) => InspectCall(e, f, input, output, args); shippable := false;
        case OpExpr(op, input, output, args) => InspectCall(e, op, input, output, args);
        case DistinctExpr(op, input, output, args) => InspectCall(e, op, input, output, args); shippable := false;
        case BoolExpr(_, args) => StartInspection(List(args)); CompareCollation(INVALID_OID); shippable := false;
        case NullTest(_, arg) => StartInspection(arg); CompareCollation(INVALID_OID); shippable := false;
        case ArrayExpr(coll, elements) => StartInspection(List(elements)); CompareCollation(coll); shippable := false;
        case List(_) => InspectList(e);
        case Aggref(_, _, _) => InspectAggref(e); shippable := false;
        case Other(_, _, _) => shippable := false;
      }
    }

    method InspectVar(e: Node)
      requires Consistent() && e.Var?
      modifies this
      ensures Consistent()
      ensures shippable == (old(shippable) && Accepts(catalog, relids, e))
    {
      if e.varno in relids && e.varlevelsup == 0 {
        if e.varattno < 0 && e.varattno != SELF_ITEM_POINTER_ATTNO {
          shippable := false;
        }
        if e.varattno == 0 {
          shippable := false;
        }
      }
      CompareCollation(e.varcollid);
    }

    method InspectParam(e: Node)
      requires Consistent() && e.Param?
      modifies this
      ensures Consistent() && (shippable ==> old(shippable))
    {
      if e.paramkind == Multiexpr {
        shippable := false;
      }
      CompareCollation(e.paramcollid);
    }

    /** Function calls and operators share one inspection, which sees an operator's own identifier. */
    method InspectCall(e: Node, oid: Oid, input: Oid, output: Oid, args: seq<Node>)
      requires Consistent()
      requires e in {FuncExpr(oid, input, output, args), OpExpr(oid, input, output, args),
                     DistinctExpr(oid, input, output, args)}
      modifies this
      ensures Consistent() && (shippable ==> old(shippable))
      ensures e.OpExpr? ==> shippable == (old(shippable) && Accepts(catalog, relids, e))
      decreases Size(e), 0
    {
      assert Children(e) == args == Children(List(args));
      if !CompatibleWithTibero(oid) {
        shippable := false;
        return;
      }
      if ContainsMutable(catalog, e) {
        if Accepts(catalog, relids, e) {
          AcceptedIsImmutable(catalog, relids, e);
        }
        shippable := false;
        return;
      }
      StartInspection(List(args));
      CompareCollation(input);
      CompareCollation(output);
    }

    method InspectList(e: Node)
      requires Consistent() && e.List?
      modifies this
      ensures Consistent()
      ensures shippable == (old(shippable) && Accepts(catalog, relids, e))
      decreases Size(e), 0
    {
      assert Children(e) == e.elements;
      for i := 0 to |e.elements|
        invariant Consistent()
        invariant shippable == (old(shippable) && forall j :: 0 <= j < i ==> Accepts(catalog, relids, e.elements[j]))
      {
        ElementSize(e.elements, i);
        StartInspection(e.elements[i]);
      }
    }

    /** An aggregate never passes: for an upper relation, unsplit and immutable, its arguments are not looked into.
        The compatibility test is applied the wrong way round, and never holds. */
    method InspectAggref(e: Node)
      requires Consistent() && e.Aggref?
      modifies this`shippable
      ensures Consistent() && !shippable
    {
      hide AggregateCompatible;
      if !upperRel {
        shippable := false;
        return;
      }
      if !e.simpleSplit {
        shippable := false;
        return;
      }
      if AggregateCompatible(e.aggfnoid) {
        shippable := false;
        return;
      }
      if ContainsMutable(catalog, e) {
        shippable := false;
        return;
      }
      shippable := false;
    }
  }

  lemma PermittedIsSpelled(c: Catalog, relids: set<nat>, n: Node)
    ensures NodePermitted(c, relids, n) <==>
            if n.Var? then
              && n.varcollid in {0, 100}
              && (n.varno in relids && n.varlevelsup == 0 ==> n.varattno >= 1 || n.varattno == -1)
            else if n.Const? then n.constcollid in {0, 100}
            else if n.OpExpr? then
              && n.opno < 10000 && n.opno != 530 && n.opno != 1055
              && n.opno in c.operators && c.operators[n.opno].immutable
              && n.inputcollid in {0, 100} && n.opcollid in {0, 100}
            else n.List? || n.Absent?
  {
  }

  /** A clause ships if and only if each of its nodes is one of these: a column of the relation or its ctid, another
      relation's variable, a constant, or an immutable operator of the initial database that is neither `%` (530) nor
      the `~` of blank-padded strings (1055), each with no collation or the default one; or a list. */
  method ExprInspectShippability(c: Catalog, relids: set<nat>, upperRel: bool, e: Node) returns (ok: bool)
    ensures ok == Accepts(c, relids, e)
    ensures ok <==>
            forall n :: n in Subnodes(e) ==>
              if n.Var? then
                && n.varcollid in {0, 100}
                && (n.varno in relids && n.varlevelsup == 0 ==> n.varattno >= 1 || n.varattno == -1)
              else if n.Const? then n.constcollid in {0, 100}
              else if n.OpExpr? then
                && n.opno < 10000 && n.opno != 530 && n.opno != 1055
                && n.opno in c.operators && c.operators[n.opno].immutable
                && n.inputcollid in {0, 100} && n.opcollid in {0, 100}
              else n.List? || n.Absent?
  {
    hide NodePermitted, Subnodes, Accepts;
    var context := new InspectionContext(c, relids, upperRel);
    context.StartInspection(e);
    ok := context.shippable;
    AcceptsIsNodewise(c, relids, e);
    forall n: Node {
      PermittedIsSpelled(c, relids, n);
    }
  }
}
