/** The logical query plan and the schema each plan node produces. */
module Planner {

  /** A shared schema handle; only its equality matters here. */
  type SchemaRef(==)

  /** Plan nodes, with the fields that output-schema resolution reads: the
      input of the row-preserving nodes and the schema of the producing ones. */
  datatype LogicalPlan =
    | CreateTable
    | CreateIndex
    | Filter(input: LogicalPlan)
    | Insert
    | Join(schema: SchemaRef)
    | Limit(input: LogicalPlan)
    | Project(schema: SchemaRef)
    | TableScan(tableSchema: SchemaRef)
    | Sort(input: LogicalPlan)
    | Values(schema: SchemaRef)
    | EmptyRelation(schema: SchemaRef)

  /** Nodes that pass their input's rows, and so its schema, through. */
  predicate PassThrough(p: LogicalPlan)
  {
    p.Filter? || p.Limit? || p.Sort?
  }

  /** Nodes that carry their own output schema. */
  predicate Producing(p: LogicalPlan)
  {
    p.Join? || p.Project? || p.TableScan? || p.Values? || p.EmptyRelation?
  }

  /** The schema a producing node carries. */
  function OwnSchema(p: LogicalPlan): SchemaRef
    requires Producing(p)
  {
    match p
    case TableScan(s) => s
    case Join(s) => s
    case Project(s) => s
    case Values(s) => s
    case EmptyRelation(s) => s
  }

  /** The first node below `p` that does not pass its input through. */
  function Base(p: LogicalPlan): (b: LogicalPlan)
    ensures !PassThrough(b)
  {
    match p
    case Filter(i) => Base(i)
    case Limit(i) => Base(i)
    case Sort(i) => Base(i)
    case _ => p
  }

  /** Whether `schema` is defined: the DDL and insert nodes have none. */
  predicate HasSchema(p: LogicalPlan)
  {
    match p
    case CreateTable => false
    case CreateIndex => false
    case Insert => false
    case Filter(i) => HasSchema(i)
    case Limit(i) => HasSchema(i)
    case Sort(i) => HasSchema(i)
    case _ => true
  }

  /** A plan has a schema exactly when the first node past its filters, limits
      and sorts is a producing node. */
  lemma {:induction false} HasSchemaIffProducingBase(p: LogicalPlan)
    ensures HasSchema(p) <==> Producing(Base(p))
  {
    match p
    case Filter(i) => HasSchemaIffProducingBase(i);
    case Limit(i) => HasSchemaIffProducingBase(i);
    case Sort(i) => HasSchemaIffProducingBase(i);
    case _ =>
  }

  /** `LogicalPlanV2::schema`: the schema of the first node past any chain of
      filters, limits and sorts. */
  function Schema(p: LogicalPlan): (s: SchemaRef)
    requires HasSchema(p)
    ensures Producing(Base(p)) && s == OwnSchema(Base(p))
  {
    match p
    case Filter(i) => Schema(i)
    case Join(s) => s
    case Limit(i) => Schema(i)
    case Project(s) => s
    case TableScan(s) => s
    case Sort(i) => Schema(i)
    case Values(s) => s
    case EmptyRelation(s) => s
  }

  /** The kinds of row-preserving node. */
  datatype PassKind = FilterNode | LimitNode | SortNode

  /** `p` under the chain `ks`, outermost node first. */
  function Wrap(p: LogicalPlan, ks: seq<PassKind>): (w: LogicalPlan)
    decreases |ks|
  {
    if ks == [] then p
    else
      var inner := Wrap(p, ks[1..]);
      match ks[0]
      case FilterNode => Filter(inner)
      case LimitNode => Limit(inner)
      case SortNode => Sort(inner)
  }

  /** The chain of row-preserving nodes above `Base(p)`. */
  function Chain(p: LogicalPlan): seq<PassKind>
  {
    match p
    case Filter(i) => [FilterNode] + Chain(i)
    case Limit(i) => [LimitNode] + Chain(i)
    case Sort(i) => [SortNode] + Chain(i)
    case _ => []
  }

  /** Every plan is its base under its chain. */
  lemma {:induction false} WrapChainBase(p: LogicalPlan)
    ensures Wrap(Base(p), Chain(p)) == p
  {
    match p
    case Filter(i) =>
      WrapChainBase(i);
      assert ([FilterNode] + Chain(i))[1..] == Chain(i);
    case Limit(i) =>
      WrapChainBase(i);
      assert ([LimitNode] + Chain(i))[1..] == Chain(i);
    case Sort(i) =>
      WrapChainBase(i);
      assert ([SortNode] + Chain(i))[1..] == Chain(i);
    case _ =>
  }

  /** Any chain of filters, limits and sorts keeps both whether a schema is
      defined and which schema it is. */
  lemma {:induction false} SchemaThroughChain(p: LogicalPlan, ks: seq<PassKind>)
    ensures HasSchema(Wrap(p, ks)) <==> HasSchema(p)
    ensures HasSchema(p) ==> Schema(Wrap(p, ks)) == Schema(p)
    decreases |ks|
  {
    if ks != [] {
      SchemaThroughChain(p, ks[1..]);
    }
  }
}
