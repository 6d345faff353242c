/** PostgreSQL expression trees and the catalog facts that the wrapper consults. */
module PgNodes {
  import opened Prelude

  const INVALID_OID: Oid := 0
  const DEFAULT_COLLATION_OID: Oid := 100

  // Objects created by initdb have identifiers below this one.
  const FIRST_GENBKI_OBJECT_ID: Oid := 10000

  const OID_BPCHAR_REGEXEQ_OP: Oid := 1055
  const TB_FDW_OID_MODULO_OP: Oid := 530
  const OID_NAME_LIKE_OP: Oid := 1207
  const OID_TEXT_LIKE_OP: Oid := 1209
  const OID_BPCHAR_LIKE_OP: Oid := 1211

  // The system attribute ctid, which the deparser spells ROWID.
  const SELF_ITEM_POINTER_ATTNO: int := -1

  /** Calendar fields, as PostgreSQL breaks a date or a timestamp down. */
  datatype Stamp = Stamp(year: int, month: nat, day: nat, hour: nat, minute: nat, second: nat, micros: nat)

  /** A constant's value: what its type's output function yields, or the fields of a date or time. */
  datatype Datum =
    | Output(text: string)
    | Day(year: int, month: nat, day: nat)
    | Moment(stamp: Stamp)
    | MomentTz(stamp: Stamp, tzoffset: int)  // seconds west of UTC
    | Infinite

  datatype ParamKind = Extern | Exec | Sublink | Multiexpr

  datatype Node =
    | Absent  // the null pointer
    | Var(varno: nat, varattno: int, varlevelsup: nat, varcollid: Oid)
    | Const(consttype: Oid, constcollid: Oid, constisnull: bool, constvalue: Datum)
    | Param(paramkind: ParamKind, paramid: nat, paramcollid: Oid)
    | FuncExpr(funcid: Oid, inputcollid: Oid, funccollid: Oid, args: seq<Node>)
    | OpExpr(opno: Oid, inputcollid: Oid, opcollid: Oid, args: seq<Node>)
    | DistinctExpr(opno: Oid, inputcollid: Oid, opcollid: Oid, args: seq<Node>)
    | BoolExpr(boolop: nat, args: seq<Node>)
    | NullTest(negated: bool, arg: Node)
    | ArrayExpr(arraycollid: Oid, elements: seq<Node>)
    | List(elements: seq<Node>)
    | Aggref(aggfnoid: Oid, simpleSplit: bool, args: seq<Node>)
    | Other(tag: nat, mutable: bool, args: seq<Node>)  // every other node type

  /** An operator's catalog row: name, 'l' for prefix or 'b' for binary, whether it lives in pg_catalog. */
  datatype OpInfo = OpInfo(name: string, kind: char, builtin: bool, immutable: bool)

  datatype Catalog = Catalog(
    operators: map<Oid, OpInfo>,
    immutableFunctions: set<Oid>,
    types: set<Oid>,
    keywords: set<string>,  // identifiers that must be quoted although spelled safely
    quoteAllIdentifiers: bool)

  datatype Attribute = Attribute(name: string, columnName: Option<string>, dropped: bool)

  datatype Relation = Relation(
    relid: nat,
    attrs: seq<Attribute>,
    relName: string,
    ownerName: Option<string>,
    tableName: Option<string>)

  /** The nodes directly below `e`. */
  function Children(e: Node): (cs: seq<Node>)
    ensures forall i :: 0 <= i < |cs| ==> cs[i] < e
  {
    match e
    case FuncExpr(_, _, _, args) => args
    case OpExpr(_, _, _, args) => args
    case DistinctExpr(_, _, _, args) => args
    case BoolExpr(_, args) => args
    case NullTest(_, arg) => [arg]
    case ArrayExpr(_, elements) => elements
    case List(elements) => elements
    case Aggref(_, _, args) => args
    case Other(_, _, args) => args
    case _ => []
  }

  /** The node without its children: its kind, identifiers and collations. */
  function Head(e: Node): Node
  {
    match e
    case FuncExpr(f, i, o, _) => FuncExpr(f, i, o, [])
    case OpExpr(f, i, o, _) => OpExpr(f, i, o, [])
    case DistinctExpr(f, i, o, _) => DistinctExpr(f, i, o, [])
    case BoolExpr(b, _) => BoolExpr(b, [])
    case NullTest(n, _) => NullTest(n, Absent)
    case ArrayExpr(c, _) => ArrayExpr(c, [])
    case List(_) => List([])
    case Aggref(f, s, _) => Aggref(f, s, [])
    case Other(t, m, _) => Other(t, m, [])
    case _ => e
  }

  predicate ImmutableOperator(c: Catalog, op: Oid)
  {
    op in c.operators && c.operators[op].immutable
  }

  /** Does the node itself call something whose result may change between calls? */
  predicate MutableHead(c: Catalog, e: Node)
  {
    match e
    case FuncExpr(f, _, _, _) => f !in c.immutableFunctions
    case OpExpr(op, _, _, _) => !ImmutableOperator(c, op)
    case DistinctExpr(op, _, _, _) => !ImmutableOperator(c, op)
    case Aggref(f, _, _) => f !in c.immutableFunctions
    case Other(_, mutable, _) => mutable
    case _ => false
  }

  /** contain_mutable_functions: a mutable call anywhere in the tree. */
  predicate ContainsMutable(c: Catalog, e: Node)
    decreases e
  {
    MutableHead(c, e) || exists i :: 0 <= i < |Children(e)| && ContainsMutable(c, Children(e)[i])
  }
}
