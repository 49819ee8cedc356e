/**
 * Lookup tables and option-checking helpers of the configuration layer:
 * element type -> number of faces / points, the output-format families,
 * and the two error texts an option parser produces.
 */
module OptionStructure {

  // GEO_TYPE codes (VTK nomenclature)
  const VERTEX: nat := 1
  const LINE: nat := 3
  const TRIANGLE: nat := 5
  const QUADRILATERAL: nat := 9
  const TETRAHEDRON: nat := 10
  const HEXAHEDRON: nat := 12
  const PRISM: nat := 13
  const PYRAMID: nat := 14

  const N_ELEM_TYPES: nat := 7
  const N_POINTS_MAXIMUM: nat := 8
  const N_FACES_MAXIMUM: nat := 6

  /** Width of the `unsigned short` the element type is passed in. */
  const USHORT_LIMIT: nat := 65536

  /** The element kinds the face and point tables know (VERTEX is not one of them). */
  const ElementTypes: set<nat> := {LINE, TRIANGLE, QUADRILATERAL, TETRAHEDRON, HEXAHEDRON, PRISM, PYRAMID}

  /** nFacesOfElementType: faces of an element, 0 for an unknown code. */
  function NFacesOfElementType(elementType: nat): (n: nat)
    ensures n <= N_FACES_MAXIMUM
    ensures n != 0 <==> elementType in ElementTypes
  {
    if elementType == LINE then 1
    else if elementType == TRIANGLE then 3
    else if elementType == QUADRILATERAL then 4
    else if elementType == TETRAHEDRON then 4
    else if elementType == HEXAHEDRON then 6
    else if elementType == PYRAMID then 5
    else if elementType == PRISM then 5
    else 0
  }

  /** nPointsOfElementType: corner points of an element, 0 for an unknown code. */
  function NPointsOfElementType(elementType: nat): (n: nat)
    ensures n <= N_POINTS_MAXIMUM
    ensures n != 0 <==> elementType in ElementTypes
  {
    if elementType == LINE then 2
    else if elementType == TRIANGLE then 3
    else if elementType == QUADRILATERAL then 4
    else if elementType == TETRAHEDRON then 4
    else if elementType == HEXAHEDRON then 8
    else if elementType == PYRAMID then 5
    else if elementType == PRISM then 6
    else 0
  }

  /** An element never has more faces than corner points; the 2-D ones have as many edges as corners. */
  lemma FacesNotMoreThanPoints(elementType: nat)
    ensures NFacesOfElementType(elementType) <= NPointsOfElementType(elementType)
    ensures elementType == TRIANGLE || elementType == QUADRILATERAL
            ==> NFacesOfElementType(elementType) == NPointsOfElementType(elementType)
  {
  }

  /** The table entries agree with the named constants of the header, code by code. */
  lemma ElementTableEntries()
    ensures NPointsOfElementType(LINE) == 2 && NFacesOfElementType(LINE) == 1
    ensures NPointsOfElementType(TRIANGLE) == 3 && NFacesOfElementType(TRIANGLE) == 3
    ensures NPointsOfElementType(QUADRILATERAL) == 4 && NFacesOfElementType(QUADRILATERAL) == 4
    ensures NPointsOfElementType(TETRAHEDRON) == 4 && NFacesOfElementType(TETRAHEDRON) == 4
    ensures NPointsOfElementType(HEXAHEDRON) == 8 && NFacesOfElementType(HEXAHEDRON) == 6
    ensures NPointsOfElementType(PYRAMID) == 5 && NFacesOfElementType(PYRAMID) == 5
    ensures NPointsOfElementType(PRISM) == 6 && NFacesOfElementType(PRISM) == 5
    ensures NPointsOfElementType(VERTEX) == 0 && NFacesOfElementType(VERTEX) == 0
  {
  }

  /** Codes (of an unsigned short) for which the point table is nonzero. */
  ghost function KnownPointCodes(): set<nat>
  {
    set t: nat | t < USHORT_LIMIT && NPointsOfElementType(t) != 0
  }

  /** Codes (of an unsigned short) for which the face table is nonzero. */
  ghost function KnownFaceCodes(): set<nat>
  {
    set t: nat | t < USHORT_LIMIT && NFacesOfElementType(t) != 0
  }

  /** Exactly N_ELEM_TYPES codes give a nonzero point count and a nonzero face count. */
  lemma ExactlyNElemTypesKnown()
    ensures |KnownPointCodes()| == N_ELEM_TYPES
    ensures |KnownFaceCodes()| == N_ELEM_TYPES
  {
    assert KnownPointCodes() == ElementTypes by {
      forall t | t in ElementTypes ensures t in KnownPointCodes() {
        assert t < USHORT_LIMIT;
      }
    }
    assert KnownFaceCodes() == ElementTypes by {
      forall t | t in ElementTypes ensures t in KnownFaceCodes() {
        assert t < USHORT_LIMIT;
      }
    }
    assert |ElementTypes| == 7;
  }

  /** ENUM_OUTPUT: the solution output formats. */
  datatype OutputFormat =
    | TECPLOT | TECPLOT_BINARY | SURFACE_TECPLOT | SURFACE_TECPLOT_BINARY
    | CSV | SURFACE_CSV
    | PARAVIEW | PARAVIEW_BINARY | SURFACE_PARAVIEW | SURFACE_PARAVIEW_BINARY
    | MESH | RESTART_BINARY | RESTART_ASCII | STL | STL_BINARY
    | PARAVIEW_XML | SURFACE_PARAVIEW_XML | PARAVIEW_MULTIBLOCK
    | CGNS | SURFACE_CGNS

  /** The numeric value of each ENUM_OUTPUT enumerator. */
  function OutputCode(f: OutputFormat): (c: nat)
    ensures 1 <= c <= 20
  {
    match f
    case TECPLOT => 1
    case TECPLOT_BINARY => 2
    case SURFACE_TECPLOT => 3
    case SURFACE_TECPLOT_BINARY => 4
    case CSV => 5
    case SURFACE_CSV => 6
    case PARAVIEW => 7
    case PARAVIEW_BINARY => 8
    case SURFACE_PARAVIEW => 9
    case SURFACE_PARAVIEW_BINARY => 10
    case MESH => 11
    case RESTART_BINARY => 12
    case RESTART_ASCII => 13
    case STL => 14
    case STL_BINARY => 15
    case PARAVIEW_XML => 16
    case SURFACE_PARAVIEW_XML => 17
    case PARAVIEW_MULTIBLOCK => 18
    case CGNS => 19
    case SURFACE_CGNS => 20
  }

  /** Distinct enumerators have distinct values. */
  lemma OutputCodeInjective(f: OutputFormat, g: OutputFormat)
    ensures OutputCode(f) == OutputCode(g) ==> f == g
  {
  }

  /** isParaview */
  predicate IsParaview(f: OutputFormat)
  {
    match f
    case PARAVIEW | PARAVIEW_BINARY | SURFACE_PARAVIEW | SURFACE_PARAVIEW_BINARY
       | PARAVIEW_XML | SURFACE_PARAVIEW_XML | PARAVIEW_MULTIBLOCK => true
    case _ => false
  }

  /** isTecplot */
  predicate IsTecplot(f: OutputFormat)
  {
    match f
    case TECPLOT | TECPLOT_BINARY | SURFACE_TECPLOT | SURFACE_TECPLOT_BINARY => true
    case _ => false
  }

  /** The two families in terms of the enumerator values: Tecplot is 1..4, Paraview is 7..10 and 16..18. */
  lemma FormatFamiliesByCode(f: OutputFormat)
    ensures IsTecplot(f) <==> 1 <= OutputCode(f) <= 4
    ensures IsParaview(f) <==> (7 <= OutputCode(f) <= 10 || 16 <= OutputCode(f) <= 18)
  {
  }

  /** No format is both a Paraview and a Tecplot format; CSV, STL, CGNS and restart files are neither. */
  lemma FormatFamiliesDisjoint(f: OutputFormat)
    ensures !(IsParaview(f) && IsTecplot(f))
    ensures f in {CSV, SURFACE_CSV, STL, STL_BINARY, CGNS, SURFACE_CGNS, RESTART_BINARY, RESTART_ASCII, MESH}
            ==> !IsParaview(f) && !IsTecplot(f)
  {
  }

  const MULTIPLE_VALUES_TEXT: string := ": multiple values for type "
  const IMPROPER_VALUE_TEXT: string := ": improper option value for type "

  /** COptionBase::optionCheckMultipleValues: "" when exactly one value was given, an error text otherwise. */
  function OptionCheckMultipleValues(optionValue: seq<string>, typeId: string, optionName: string): (msg: string)
    ensures msg == "" <==> |optionValue| == 1
    ensures |optionValue| != 1 ==> msg == optionName + MULTIPLE_VALUES_TEXT + typeId
  {
    if |optionValue| != 1 then optionName + MULTIPLE_VALUES_TEXT + typeId else ""
  }

  /** COptionBase::badValue: an error text naming the option and the type, whatever the values. */
  function BadValue(optionValue: seq<string>, typeId: string, optionName: string): (msg: string)
    ensures msg != ""
    ensures |msg| == |optionName| + |IMPROPER_VALUE_TEXT| + |typeId|
    ensures msg[..|optionName|] == optionName
    ensures msg[|optionName|..|msg| - |typeId|] == IMPROPER_VALUE_TEXT
    ensures msg[|msg| - |typeId|..] == typeId
  {
    optionName + IMPROPER_VALUE_TEXT + typeId
  }

  /** A bad-value text can never be mistaken for a multiple-values text, nor for success. */
  lemma OptionMessagesDistinct(values: seq<string>, others: seq<string>, typeId: string, typeId2: string, name: string)
    ensures BadValue(values, typeId, name) != OptionCheckMultipleValues(others, typeId2, name)
  {
    var bad := BadValue(values, typeId, name);
    var multi := OptionCheckMultipleValues(others, typeId2, name);
    if |others| != 1 {
      assert bad[|name| + 2] == 'i';
      assert multi[|name| + 2] == 'm';
    }
  }
}
