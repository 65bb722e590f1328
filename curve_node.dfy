/**
 * A curve node paired with the market data identifier, data field and field
 * type used to fetch its market data (CurveNodeWithIdentifier): its
 * null-checking constructor and its natural ordering.
 */
module CurveNodes {
  import opened Wrappers

  /** An external identifier: a scheme and a value within that scheme. */
  datatype ExternalId = ExternalId(scheme: string, value: string)

  /** A constant of the DataFieldType enumeration, known by its ordinal (its position in the declaration). */
  datatype DataFieldType = DataFieldType(ordinal: nat)

  /** `N` is the curve node type; its own ordering is passed to CompareTo. */
  datatype CurveNodeWithIdentifier<N> =
    CurveNodeWithIdentifier(curveNode: N, identifier: ExternalId, dataField: string, fieldType: DataFieldType)

  /** The argument the constructor found null. */
  datatype ConstructorError = NullNode | NullId | NullDataField | NullFieldType

  /** The four-argument constructor: each argument is checked for null, in order. */
  function Create<N>(node: Option<N>, id: Option<ExternalId>, dataField: Option<string>, fieldType: Option<DataFieldType>)
    : (r: Result<CurveNodeWithIdentifier<N>, ConstructorError>)
    ensures r.Success? <==> node.Some? && id.Some? && dataField.Some? && fieldType.Some?
    ensures r.Success? ==> r.value.curveNode == node.value && r.value.identifier == id.value
                           && r.value.dataField == dataField.value && r.value.fieldType == fieldType.value
    ensures node.None? ==> r == Failure(NullNode)
    ensures node.Some? && id.None? ==> r == Failure(NullId)
    ensures node.Some? && id.Some? && dataField.None? ==> r == Failure(NullDataField)
    ensures node.Some? && id.Some? && dataField.Some? && fieldType.None? ==> r == Failure(NullFieldType)
  {
    if node.None? then Failure(NullNode)
    else if id.None? then Failure(NullId)
    else if dataField.None? then Failure(NullDataField)
    else if fieldType.None? then Failure(NullFieldType)
    else Success(CurveNodeWithIdentifier(node.value, id.value, dataField.value, fieldType.value))
  }

  /**
   * java.lang.String.compareTo: the difference of the first differing
   * characters, or else the difference of the lengths.
   */
  function CompareStrings(a: string, b: string): int
    decreases |a|
  {
    if |a| == 0 || |b| == 0 then |a| - |b|
    else if a[0] != b[0] then a[0] as int - b[0] as int
    else CompareStrings(a[1..], b[1..])
  }

  /** java.lang.Enum.compareTo: the difference of the ordinals. */
  function CompareFieldTypes(a: DataFieldType, b: DataFieldType): int
  {
    a.ordinal - b.ordinal
  }

  /**
   * CurveNodeWithIdentifier.compareTo: the first non-zero of the comparisons
   * of the curve nodes (by `compareNodes`), the identifier values, the data
   * fields and the field types. The identifier's scheme takes no part.
   */
  function CompareTo<N>(compareNodes: (N, N) -> int, a: CurveNodeWithIdentifier<N>, b: CurveNodeWithIdentifier<N>): int
  {
    var byNode := compareNodes(a.curveNode, b.curveNode);
    if byNode != 0 then byNode
    else
      var byId := CompareStrings(a.identifier.value, b.identifier.value);
      if byId != 0 then byId
      else
        var byField := CompareStrings(a.dataField, b.dataField);
        if byField != 0 then byField
        else CompareFieldTypes(a.fieldType, b.fieldType)
  }

  function Sign(x: int): int
  {
    if x < 0 then -1 else if x == 0 then 0 else 1
  }

  // ---------------------------------------------------------------- strings

  lemma {:induction false} CompareStringsAntisymmetric(a: string, b: string)
    ensures CompareStrings(b, a) == -CompareStrings(a, b)
    decreases |a|
  {
    if |a| > 0 && |b| > 0 && a[0] == b[0] {
      CompareStringsAntisymmetric(a[1..], b[1..]);
    }
  }

  lemma {:induction false} CompareStringsZeroIff(a: string, b: string)
    ensures CompareStrings(a, b) == 0 <==> a == b
    decreases |a|
  {
    if |a| > 0 && |b| > 0 && a[0] == b[0] {
      CompareStringsZeroIff(a[1..], b[1..]);
      assert a == [a[0]] + a[1..] && b == [b[0]] + b[1..];
    }
  }

  lemma {:induction false} CompareStringsTransitive(a: string, b: string, c: string)
    requires CompareStrings(a, b) < 0 && CompareStrings(b, c) < 0
    ensures CompareStrings(a, c) < 0
    decreases |a|
  {
    if |a| > 0 && |b| > 0 && |c| > 0 && a[0] == b[0] && b[0] == c[0] {
      CompareStringsTransitive(a[1..], b[1..], c[1..]);
    }
  }

  // ------------------------------------------------------ the Comparable contract

  /** sgn(compare(x, y)) == -sgn(compare(y, x)) for all x and y. */
  ghost predicate SignAntisymmetric<T(!new)>(compare: (T, T) -> int)
  {
    forall x, y :: Sign(compare(x, y)) == -Sign(compare(y, x))
  }

  /** compare(x, y) < 0 and compare(y, z) < 0 imply compare(x, z) < 0. */
  ghost predicate LessTransitive<T(!new)>(compare: (T, T) -> int)
  {
    forall x, y, z :: compare(x, y) < 0 && compare(y, z) < 0 ==> compare(x, z) < 0
  }

  /** compare(x, y) == 0 implies that x and y compare alike with every z. */
  ghost predicate ZeroConsistent<T(!new)>(compare: (T, T) -> int)
  {
    forall x, y, z :: compare(x, y) == 0 ==> Sign(compare(x, z)) == Sign(compare(y, z))
  }

  /** compareTo is zero exactly when all four component comparisons are zero. */
  lemma CompareToZeroIff<N>(compareNodes: (N, N) -> int, a: CurveNodeWithIdentifier<N>, b: CurveNodeWithIdentifier<N>)
    ensures CompareTo(compareNodes, a, b) == 0 <==>
      && compareNodes(a.curveNode, b.curveNode) == 0
      && a.identifier.value == b.identifier.value
      && a.dataField == b.dataField
      && a.fieldType == b.fieldType
  {
    CompareStringsZeroIff(a.identifier.value, b.identifier.value);
    CompareStringsZeroIff(a.dataField, b.dataField);
  }

  /** Two nodes that differ only in the scheme of their identifier compare as equal. */
  lemma SchemeIsIgnored<N>(compareNodes: (N, N) -> int, a: CurveNodeWithIdentifier<N>, otherScheme: string)
    requires compareNodes(a.curveNode, a.curveNode) == 0
    ensures CompareTo(compareNodes, a, a.(identifier := a.identifier.(scheme := otherScheme))) == 0
  {
    CompareToZeroIff(compareNodes, a, a.(identifier := a.identifier.(scheme := otherScheme)));
  }

  /** If the curve-node ordering is antisymmetric in sign, so is compareTo. */
  lemma CompareToSignAntisymmetric<N(!new)>(compareNodes: (N, N) -> int, a: CurveNodeWithIdentifier<N>, b: CurveNodeWithIdentifier<N>)
    requires SignAntisymmetric(compareNodes)
    ensures Sign(CompareTo(compareNodes, a, b)) == -Sign(CompareTo(compareNodes, b, a))
  {
    assert Sign(compareNodes(a.curveNode, b.curveNode)) == -Sign(compareNodes(b.curveNode, a.curveNode));
    CompareStringsAntisymmetric(a.identifier.value, b.identifier.value);
    CompareStringsAntisymmetric(a.dataField, b.dataField);
  }

  /** If the curve-node ordering is transitive and antisymmetric, compareTo's "less than" is transitive. */
  lemma CompareToLessTransitive<N(!new)>(compareNodes: (N, N) -> int, a: CurveNodeWithIdentifier<N>,
                                   b: CurveNodeWithIdentifier<N>, c: CurveNodeWithIdentifier<N>)
    requires SignAntisymmetric(compareNodes) && LessTransitive(compareNodes) && ZeroConsistent(compareNodes)
    requires CompareTo(compareNodes, a, b) < 0 && CompareTo(compareNodes, b, c) < 0
    ensures CompareTo(compareNodes, a, c) < 0
  {
    var ab, bc, ac := compareNodes(a.curveNode, b.curveNode), compareNodes(b.curveNode, c.curveNode),
                      compareNodes(a.curveNode, c.curveNode);
    assert Sign(ab) == -Sign(compareNodes(b.curveNode, a.curveNode));
    assert Sign(ac) == -Sign(compareNodes(c.curveNode, a.curveNode));
    if ab == 0 {
      assert Sign(ac) == Sign(bc);
    } else if bc == 0 {
      assert Sign(compareNodes(b.curveNode, a.curveNode)) == Sign(compareNodes(c.curveNode, a.curveNode));
    }
    if ab == 0 && bc == 0 {
      CompareToZeroIff(compareNodes, a, b);
      CompareToZeroIff(compareNodes, b, c);
      CompareStringsZeroIff(a.identifier.value, b.identifier.value);
      CompareStringsZeroIff(b.identifier.value, c.identifier.value);
      CompareStringsZeroIff(a.identifier.value, c.identifier.value);
      CompareStringsZeroIff(a.dataField, b.dataField);
      CompareStringsZeroIff(b.dataField, c.dataField);
      CompareStringsZeroIff(a.dataField, c.dataField);
      var i1, i2 := CompareStrings(a.identifier.value, b.identifier.value), CompareStrings(b.identifier.value, c.identifier.value);
      if i1 < 0 && i2 < 0 {
        CompareStringsTransitive(a.identifier.value, b.identifier.value, c.identifier.value);
      }
      var f1, f2 := CompareStrings(a.dataField, b.dataField), CompareStrings(b.dataField, c.dataField);
      if f1 < 0 && f2 < 0 {
        CompareStringsTransitive(a.dataField, b.dataField, c.dataField);
      }
    }
  }

  /** Two nodes that compare as equal compare alike with every third node. */
  lemma CompareToZeroConsistent<N(!new)>(compareNodes: (N, N) -> int, a: CurveNodeWithIdentifier<N>,
                                        b: CurveNodeWithIdentifier<N>, c: CurveNodeWithIdentifier<N>)
    requires ZeroConsistent(compareNodes)
    requires CompareTo(compareNodes, a, b) == 0
    ensures Sign(CompareTo(compareNodes, a, c)) == Sign(CompareTo(compareNodes, b, c))
  {
    CompareToZeroIff(compareNodes, a, b);
    assert Sign(compareNodes(a.curveNode, c.curveNode)) == Sign(compareNodes(b.curveNode, c.curveNode));
  }
}
