/** Column definitions of the catalog. */
module Catalog {

  /** The catalog's data types, compared with their own (derived) equality. */
  type DataType(==)

  datatype Column = Column(name: string, dataType: DataType)

  /** `Column::new`: a column holding exactly the given name and type. */
  function NewColumn(name: string, dataType: DataType): (c: Column)
    ensures c.name == name && c.dataType == dataType
  {
    Column(name, dataType)
  }

  /** The hand-written `PartialEq::eq`: same name and same data type. */
  predicate Eq(a: Column, b: Column)
  {
    a.name == b.name && a.dataType == b.dataType
  }

  /** Comparing name and type is the same as comparing whole columns: no field
      of a column escapes the comparison. */
  lemma EqIsStructural(a: Column, b: Column)
    ensures Eq(a, b) <==> a == b
  {
  }

  /** Column equality is an equivalence relation. */
  lemma EqIsEquivalence()
    ensures forall a: Column :: Eq(a, a)
    ensures forall a: Column, b: Column :: Eq(a, b) <==> Eq(b, a)
    ensures forall a: Column, b: Column, c: Column :: Eq(a, b) && Eq(b, c) ==> Eq(a, c)
  {
  }

  /** Two columns built by `NewColumn` are equal exactly when they were built
      from equal names and equal types. */
  lemma NewColumnEq(a: string, s: DataType, b: string, t: DataType)
    ensures Eq(NewColumn(a, s), NewColumn(b, t)) <==> a == b && s == t
  {
  }
}
