# bustubx: page frame, HyperLogLog buckets, plan schemas, columns

A Dafny model of four small pieces of the bustubx relational database:

- **`Page`** (`Buffer` module, `buffer.dfy`): the in-memory frame of one
  on-disk page: a page identifier (`u32`, 0 being `INVALID_PAGE_ID`), a
  4096-byte buffer, a pin count and a dirty flag. A `class` with an `array<u8>`
  buffer. The two constructors and the in-place mutators `destroy` and
  `replace` state the page's whole new state through `State()`, a value of
  the datatype `PageState`.
- **HyperLogLog buckets** (`Primer` module, `primer.dfy`): the integer part
  of the cardinality sketch. A `class` holds `2^n_bits` buckets in an
  `array<u64>`. `AddElem` takes the top `n_bits` bits of the element's
  64-bit hash as the bucket index and raises that bucket to the hash's bit
  length ("position of the leftmost one"). The spec functions `Update` and
  `AddAll` describe the buckets after one insertion and after a sequence of
  them. A ghost history `inserted` and the object invariant `Valid()` tie
  the array to `AddAll` of everything inserted so far. The lemmas show what
  the sketch relies on: one insertion changes at most one bucket and never
  lowers one, buckets stay within 0..64, inserting again changes nothing,
  and the final buckets depend only on which hashes were inserted, not on
  their order.
- **`LogicalPlanV2::schema`** (`Planner` module, `planner.dfy`): the plan
  enum as a datatype and the schema a plan outputs. Filter, Limit and Sort
  pass their input's schema through. Join, Project, TableScan, Values and
  EmptyRelation carry their own. CreateTable, CreateIndex and Insert have
  none, because the source leaves them as `todo!()`: `Schema` requires
  `HasSchema`. The lemmas show that the schema is that of the first node
  below any chain of row-preserving nodes.
- **`Column`** (`Catalog` module, `catalog.dfy`): a name and a data type,
  `Column::new`, and the hand-written equality. The lemmas show that this
  equality is structural equality, is an equivalence, and that `new` is
  injective under it.

`ints.dfy` (module `Ints`) defines the fixed-width unsigned types as subsets
of `int`, and `Pow2`.

The element hash (`calculate_hash`, the standard library's SipHash) is not
modelled. The sketch is built with a hash function `hasher: K -> u64` that
`AddElem` applies. `compute_binary` is the identity on the hash and is modelled
as `ComputeBinary`, whose result feeds `PositionOfLeftmostOne`. `DataType` and `SchemaRef` are abstract types compared
with their own equality.

## Model

| member | source | states |
|---|---|---|
| Buffer.Page.New | bustubx/src/buffer/page.rs:20-27 | the new page has the given id, 4096 zero bytes, pin count 0 and is clean |
| Buffer.Page.Empty | bustubx/src/buffer/page.rs:17-19 | the page is `new(INVALID_PAGE_ID)`: id 0, zeroed 4096-byte buffer, unpinned, clean |
| Buffer.Page.Destroy | bustubx/src/buffer/page.rs:28-33 | afterwards the page equals, field for field, an empty page (the literal 0 is INVALID_PAGE_ID); buffer length stays 4096 and the same array is reused |
| Buffer.Page.Replace | bustubx/src/buffer/page.rs:35-40 | afterwards all four fields (id, buffer contents, pin count, dirty flag) equal `other`'s as they were before; `other` itself is left unchanged, also when it is this page or shares its array |
| Buffer.DestroyTwice | bustubx/src/buffer/page.rs:28-33 | destroying a second time leaves exactly the state the first destroy left (idempotence) |
| Primer.HyperLogLog.New | bustubx/src/primer/hyperloglog.rs:19-27 | exactly 2^n_bits buckets, all zero, stored cardinality 0, empty insertion history; defined for 0 <= n_bits <= 30 |
| Primer.HyperLogLog.GetCardinality | bustubx/src/primer/hyperloglog.rs:29-31 | returns the stored estimate, which New sets to 0 and AddElem never changes |
| Primer.HyperLogLog.AddElem | bustubx/src/primer/hyperloglog.rs:34-41 | the buckets become `Update` of the old buckets with the element's hash; bucket count, n_bits and cardinality unchanged; the invariant "buckets = fold of all inserted hashes into zero buckets" is kept |
| Primer.PositionOfLeftmostOne | bustubx/src/primer/hyperloglog.rs:63-70 | 64 minus `leading_zeros` is in [0, 64], is 0 exactly for hash 0, and otherwise is the bit length r with 2^(r-1) <= h < 2^r; it is applied to `ComputeBinary(hash)`, and `compute_binary` is the identity |
| Primer.LeadingZerosBelowBitLength | bustubx/src/primer/hyperloglog.rs:68-70 | scanning the bits from the top stops at the highest one bit: the leading-zero count of a value below 2^i locates it between consecutive powers of two |
| Primer.BucketIndex | bustubx/src/primer/hyperloglog.rs:39-40 | the top n_bits bits of the hash: `i * 2^(64-n) <= hash < (i+1) * 2^(64-n)`, so `i < 2^n_bits` and the bucket access is in bounds |
| Primer.ShiftedIndexAsWritten | bustubx/src/primer/hyperloglog.rs:39 | the checked shift `hash >> (64 - n_bits)` fails exactly when n_bits is 0, and otherwise equals BucketIndex |
| Primer.ZeroBitsIndexOverflows | bustubx/src/primer/hyperloglog.rs:39 | with n_bits 0 the shift overflows for every hash, while the intended index is 0 |
| Primer.UpdateChangesOneBucket | bustubx/src/primer/hyperloglog.rs:40 | one insertion changes only the selected bucket and leaves it at max(old, rank) or unchanged; no bucket decreases; buckets bounded by 64 stay bounded |
| Primer.UpdateIdempotent | bustubx/src/primer/hyperloglog.rs:34-41 | inserting the same hash twice leaves the same buckets as inserting it once |
| Primer.UpdateCommutes | bustubx/src/primer/hyperloglog.rs:40 | two insertions in either order give the same buckets |
| Primer.AddAllBucket | bustubx/src/primer/hyperloglog.rs:34-41 | after inserting a sequence of hashes, each bucket is the maximum of its start value and the ranks of the inserted hashes that select it |
| Primer.AddAllSameElements | bustubx/src/primer/hyperloglog.rs:34-41 | two insertion sequences with the same set of hashes give identical buckets, whatever the order and repetition; this covers the tests' loops that re-insert the same block of elements (hyperloglog.rs:88-104, 121-157) |
| Primer.AddAllPermutation | bustubx/src/primer/hyperloglog.rs:40 | a reordering of the insertions gives identical buckets |
| Primer.AddAllRepeat | bustubx/src/primer/hyperloglog.rs:34-41 | inserting the last hash again immediately leaves the buckets unchanged (only an immediate repeat; later repeats are AddAllSameElements) |
| Primer.AddAllBounded | bustubx/src/primer/hyperloglog.rs:19-27 | starting from the zero buckets, every bucket stays within [0, 64] whatever is inserted |
| Planner.Schema | bustubx/src/planner/logical_plan_v2/mod.rs:44-61 | the result is the own schema of the first node past the filters, limits and sorts (TableScan's `table_schema`, or the `schema` of Join, Project, Values, EmptyRelation); defined only where HasSchema holds |
| Planner.HasSchemaIffProducingBase | bustubx/src/planner/logical_plan_v2/mod.rs:46-59 | a plan has a schema iff the first node past its pass-through chain is a producing node, so CreateTable, CreateIndex and Insert (`todo!()`) have none, under any chain |
| Planner.WrapChainBase | bustubx/src/planner/logical_plan_v2/mod.rs:48-57 | every plan is its base node under its chain of Filter/Limit/Sort nodes |
| Planner.SchemaThroughChain | bustubx/src/planner/logical_plan_v2/mod.rs:48-57 | wrapping a plan in any chain of Filter/Limit/Sort nodes keeps whether its schema is defined and which it is |
| Catalog.NewColumn | bustubx/src/catalog/column.rs:22-24 | the column holds exactly the given name and data type |
| Catalog.EqIsStructural | bustubx/src/catalog/column.rs:15-19 | the hand-written equality holds iff the two columns are identical values (both directions) |
| Catalog.EqIsEquivalence | bustubx/src/catalog/column.rs:15-19 | column equality is reflexive, symmetric and transitive |
| Catalog.NewColumnEq | bustubx/src/catalog/column.rs:15-24 | `new(a, s) == new(b, t)` iff `a == b` and `s == t` |

## Left out

- `HyperLogLog::calculate_hash` (std `DefaultHasher`, SipHash): a foreign library. The hash is a function `hasher` given to the constructor.
- `HyperLogLog::compute_cardinality`: floating-point `powi`, `recip`, a float-to-usize cast. So the model never writes `cardinality` after construction, and the tests' expected estimates (2, 6, 7, 10, 1665180) are not stated.
- Primer.HyperLogLog.New: requires 0 <= n_bits <= 30. A negative n_bits panics (the shift and `try_into().unwrap()`), and 31 or more overflows the 32-bit `1 << n_bits`, so the bucket count would be negative or the allocation impossible. `edge_test_1` (n_bits = -2) is therefore not modelled.
- Primer.HyperLogLog.AddElem: uses the corrected index for n_bits = 0; see Findings. It does not model the panic.
- The commented-out threaded test and `Mutex`: concurrency.
- `Column::from_sqlparser_column`: a conversion from the SQL parser's AST and a `TryFrom` for `DataType` that is not part of this model.
- `DataType` and `SchemaRef` are abstract types with equality. `Arc` sharing is not modelled. Neither are the plan sub-structs' other fields (predicates, limits, sort keys, join inputs, table references). `Column` equality relies on `DataType`'s own equality, taken to be its derived structural equality.
- `Page`: two `Page` objects could share one `array` in the model, which Rust's inline `[u8; 4096]` rules out. `Replace` is proved correct even then, and `other` is left unchanged in every case. `Clone`/`Debug` derivations are not modelled.
- Planner.Schema: requires `HasSchema`, so the `todo!()` panics for CreateTable, CreateIndex and Insert (mod.rs:46, 47, 49) are not modelled as a result; `HasSchemaIffProducingBase` states exactly which plans they exclude.
- `bustubx/src/common/mod.rs`: module declarations and a type alias only.
- The buffer pool itself (replacer, frame table, disk scheduler, pool manager): its source is not part of this model.

## Findings

| source | as written | input that shows it | evidently intended | confidence | as-written member | corrected member |
|---|---|---|---|---|---|---|
| bustubx/src/primer/hyperloglog.rs:39 | `hash >> (BITSET_CAPACITY - n_bits)` shifts a `u64` by 64 when n_bits is 0, which Rust rejects as an overflow (debug), or masks to a shift of 0 and indexes far out of bounds (release) | `HyperLogLog::new(0)` then `add_elem(1)`, as in `edge_test_2` (hyperloglog.rs:171-184) | index 0, the only bucket; the test's expected 1665180 is 0.79402 * 2^21, an estimate from that single bucket | high (not executed) | Primer.ShiftedIndexAsWritten | Primer.BucketIndex |
