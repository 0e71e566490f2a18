// The conversion driver: which collision attributes count as "default", and
// the scans over the hulls and meshes of the parsed physics document that turn
// the selected shapes into triangles.
module Conversion {
  import opened Results
  import opened Document
  import opened Geometry
  import opened Kv3

  // ---------------------------------------------------------------------------
  // Collision attributes

  /** The group strings GetCollisionAttributeIndices keeps. Scalars keep their
      quotes, so the comparison is with the quoted names. */
  predicate IsDefaultGroup(g: string) {
    g == "\"default\"" || g == "\"Default\""
  }

  /** The path of attribute `i`'s group string,
      `m_collisionAttributes[i].m_CollisionGroupString`. */
  function AttributePath(i: nat): string {
    JoinDots(["m_collisionAttributes" + "[" + DecimalString(i) + "]", "m_CollisionGroupString"])
  }

  /** The group string GetCollisionAttributeIndices reads for attribute `i`. */
  function Group(doc: Option<Value>, i: nat): string {
    Query(doc, AttributePath(i))
  }

  /** `n` is where GetCollisionAttributeIndices stops: the first attribute
      whose group string is empty. */
  predicate AttributesEndAt(doc: Option<Value>, n: nat) {
    Group(doc, n) == "" && forall j: nat :: j < n ==> Group(doc, j) != ""
  }

  /** The scan stops at one place only. */
  lemma AttributesEndUnique(doc: Option<Value>, n: nat, m: nat)
    requires AttributesEndAt(doc, n) && AttributesEndAt(doc, m)
    ensures n == m
  {
  }

  /** The indices below `n` that `keep` selects, in increasing order. */
  function Selected(keep: nat -> bool, n: nat): seq<nat> {
    if n == 0 then []
    else Selected(keep, n - 1) + (if keep(n - 1) then [n - 1] else [])
  }

  lemma {:induction false} SelectedIncreasing(keep: nat -> bool, n: nat)
    ensures forall k :: 0 <= k < |Selected(keep, n)| ==> 0 <= Selected(keep, n)[k] < n
    ensures forall k, l :: 0 <= k < l < |Selected(keep, n)| ==> Selected(keep, n)[k] < Selected(keep, n)[l]
  {
    if n > 0 {
      SelectedIncreasing(keep, n - 1);
    }
  }

  lemma {:induction false} SelectedMembers(keep: nat -> bool, n: nat, x: int)
    ensures x in Selected(keep, n) <==> 0 <= x < n && keep(x)
  {
    if n > 0 {
      SelectedMembers(keep, n - 1, x);
    }
  }

  /** Whether attribute `i`'s group string is a default one. */
  function DefaultAt(doc: Option<Value>): nat -> bool {
    (i: nat) => IsDefaultGroup(Group(doc, i))
  }

  /** The attribute indices below `n` whose group string is a default one. */
  function DefaultsBelow(doc: Option<Value>, n: nat): seq<int> {
    Selected(DefaultAt(doc), n)
  }

  /** The kept indices lie below `n` and come in strictly increasing order. */
  lemma DefaultsIncreasing(doc: Option<Value>, n: nat)
    ensures forall k :: 0 <= k < |DefaultsBelow(doc, n)| ==> 0 <= DefaultsBelow(doc, n)[k] < n
    ensures forall k, l :: 0 <= k < l < |DefaultsBelow(doc, n)| ==> DefaultsBelow(doc, n)[k] < DefaultsBelow(doc, n)[l]
  {
    SelectedIncreasing(DefaultAt(doc), n);
  }

  /** An index below `n` is kept exactly when its group string is a default
      one. */
  lemma DefaultsMembers(doc: Option<Value>, n: nat, x: int)
    ensures x in DefaultsBelow(doc, n) <==> 0 <= x < n && IsDefaultGroup(Group(doc, x))
  {
    SelectedMembers(DefaultAt(doc), n, x);
  }

  /** A non-empty group string is not the one at `stop`. */
  lemma BeforeEnd(doc: Option<Value>, i: nat, stop: nat)
    requires Group(doc, stop) == "" && Group(doc, i) != ""
    ensures i != stop
  {
  }

  /** The names on the attribute path hold no dot or bracket. */
  lemma AttributeKeysPlain()
    ensures DotFree([] + ["m_collisionAttributes"] + ["m_CollisionGroupString"])
    ensures '[' !in "m_collisionAttributes" && ']' !in "m_collisionAttributes"
  {
  }

  /** When m_collisionAttributes is an array of `|a|` entries, the attribute
      scan finds an empty group string at index `|a|` at the latest, so the
      stop that CollisionAttributeIndices asks for exists. */
  lemma AttributesStop(doc: Option<Value>, a: seq<Value>)
    requires Resolve(doc, ["m_collisionAttributes"]) == At(Some(Arr(a)))
    requires |a| <= Int32Max
    ensures Group(doc, |a|) == ""
  {
    var seg := "m_collisionAttributes" + "[" + DecimalString(|a|) + "]";
    assert [] + ["m_collisionAttributes"] == ["m_collisionAttributes"];
    assert [] + [seg] + ["m_CollisionGroupString"] == [seg, "m_CollisionGroupString"];
    AttributeKeysPlain();
    QueryPastEnd(doc, [], "m_collisionAttributes", ["m_CollisionGroupString"], a);
  }

  /** The read at the head of GetCollisionAttributeIndices' loop. */
  method ReadGroup(parser: Parser, index: nat) returns (collisionGroupString: string)
    ensures collisionGroupString == Group(parser.parsedData, index)
  {
    collisionGroupString := parser.GetValue(AttributePath(index));
  }

  /** GetCollisionAttributeIndices: read the group string of attribute 0, 1,
      2, ... until one is empty, keeping the indices of the default ones. The
      source loops for ever when no group string is empty; `stop` names an
      attribute whose group string is empty, one that the 32-bit counter
      reaches. `end` is where the loop stops. */
  method CollisionAttributeIndices(parser: Parser, ghost stop: nat) returns (indices: seq<int>, end: nat)
    requires stop <= Int32Max && Group(parser.parsedData, stop) == ""
    ensures end <= stop && AttributesEndAt(parser.parsedData, end)
    ensures indices == DefaultsBelow(parser.parsedData, end)
  {
    indices := [];
    var index: nat := 0;
    while true
      invariant index <= stop
      invariant forall j: nat :: j < index ==> Group(parser.parsedData, j) != ""
      invariant indices == DefaultsBelow(parser.parsedData, index)
      decreases stop - index
    {
      var collisionGroupString := ReadGroup(parser, index);
      if collisionGroupString == "" {
        end := index;
        return;
      }
      BeforeEnd(parser.parsedData, index, stop);
      forall j: nat | j < index + 1
        ensures Group(parser.parsedData, j) != ""
      {
        if j == index {
          assert Group(parser.parsedData, j) == collisionGroupString;
        }
      }
      if IsDefaultGroup(collisionGroupString) {
        indices := indices + [index];
      }
      index := index + 1;
    }
  }

  // ---------------------------------------------------------------------------
  // Hulls and meshes

  /** The two shape lists Main scans, with the same loop. */
  datatype ShapeKind = Hulls | Meshes

  /** The array of shapes of a kind under m_parts[0].m_rnShape. */
  function ShapeKey(kind: ShapeKind): string {
    match kind
    case Hulls => "m_hulls"
    case Meshes => "m_meshes"
  }

  /** The path of a field of shape `i` in the hull list or the mesh list,
      `m_parts[0].m_rnShape.m_hulls[i].field` or `...m_meshes[i].field`. */
  function ShapePath(kind: ShapeKind, i: nat, field: string): string {
    JoinDots(["m_parts[0]", "m_rnShape", ShapeKey(kind) + "[" + DecimalString(i) + "]", field])
  }

  /** The field holding a shape's collision attribute index. */
  const TagField: string := "m_nCollisionAttributeIndex"

  /** A selected hull: the vertex positions (or, when that field is empty, the
      vertices) as floats grouped in threes, the face list and the edge list as
      bytes, the edges grouped in fours, and the fan of every face. */
  function HullTriangles(doc: Option<Value>, i: nat): Result<seq<Triangle>> {
    var positions := Query(doc, ShapePath(Hulls, i, "m_Hull.m_VertexPositions"));
    var vertexText := if positions == "" then Query(doc, ShapePath(Hulls, i, "m_Hull.m_Vertices")) else positions;
    match Vec(vertexText, 4)
    case Err => Err
    case Ok(coordRecords) =>
      match Vertices(WordValues(coordRecords))
      case Err => Err
      case Ok(vertices) =>
        match Vec(Query(doc, ShapePath(Hulls, i, "m_Hull.m_Faces")), 1)
        case Err => Err
        case Ok(faceRecords) =>
          match Vec(Query(doc, ShapePath(Hulls, i, "m_Hull.m_Edges")), 1)
          case Err => Err
          case Ok(edgeRecords) =>
            match Edges(Bytes(edgeRecords))
            case Err => Err
            case Ok(edges) => Fans(edges, vertices, Bytes(faceRecords))
  }

  /** A selected mesh: the triangle list as 32-bit ints, the vertices as floats
      grouped in threes, and one triangle per three indices. */
  function MeshTriangles(doc: Option<Value>, i: nat): Result<seq<Triangle>> {
    match Vec(Query(doc, ShapePath(Meshes, i, "m_Mesh.m_Triangles")), 4)
    case Err => Err
    case Ok(indexRecords) =>
      match Vec(Query(doc, ShapePath(Meshes, i, "m_Mesh.m_Vertices")), 4)
      case Err => Err
      case Ok(coordRecords) =>
        match Vertices(WordValues(coordRecords))
        case Err => Err
        case Ok(vertices) => Mesh(Int32s(indexRecords), vertices)
  }

  function ShapeTriangles(doc: Option<Value>, kind: ShapeKind, i: nat): Result<seq<Triangle>> {
    match kind
    case Hulls => HullTriangles(doc, i)
    case Meshes => MeshTriangles(doc, i)
  }

  /** The tag Main reads for shape `i`. */
  function Tag(doc: Option<Value>, kind: ShapeKind, i: nat): string {
    Query(doc, ShapePath(kind, i, TagField))
  }

  /** `n` is where the shape loop stops: the first shape whose tag is empty. */
  predicate ShapesEndAt(doc: Option<Value>, kind: ShapeKind, n: nat) {
    Tag(doc, kind, n) == "" && forall j: nat :: j < n ==> Tag(doc, kind, j) != ""
  }

  /** The loop over shapes 0 .. n-1, for parsed shape tags `tag` (None where
      int.Parse raises) and shape triangles `shape`: a tag that does not parse
      is an error; a shape whose tag is one of the kept attribute indices adds
      its triangles, any other adds none. */
  function Gather(tag: nat -> Option<int>, shape: nat -> Result<seq<Triangle>>, attrs: seq<int>, n: nat)
    : Result<seq<Triangle>>
  {
    if n == 0 then Ok([])
    else
      match Gather(tag, shape, attrs, n - 1)
      case Err => Err
      case Ok(earlier) =>
        match tag(n - 1)
        case None => Err
        case Some(c) => if c in attrs then Then(earlier, shape(n - 1)) else Ok(earlier)
  }

  /** With no kept index the loop adds no triangle, and it fails exactly when
      some tag does not parse. */
  lemma {:induction false} GatherWithoutSelection(tag: nat -> Option<int>, shape: nat -> Result<seq<Triangle>>, n: nat)
    ensures Gather(tag, shape, [], n) == if forall j: nat :: j < n ==> tag(j).Some? then Ok([]) else Err
  {
    if n > 0 {
      GatherWithoutSelection(tag, shape, n - 1);
      if forall j: nat :: j < n - 1 ==> tag(j).Some? {
        if tag(n - 1).Some? {
          assert forall j: nat :: j < n ==> tag(j).Some?;
        }
      }
    }
  }

  /** Whether a kept attribute index tags shape `j`. */
  function Picked(tag: nat -> Option<int>, attrs: seq<int>): nat -> bool {
    (j: nat) => tag(j).Some? && tag(j).value in attrs
  }

  /** The triangles of the shapes `picks`, in order; an error in any of them
      is an error. */
  function Joined(shape: nat -> Result<seq<Triangle>>, picks: seq<nat>): Result<seq<Triangle>> {
    if picks == [] then Ok([])
    else
      match Joined(shape, picks[..|picks| - 1])
      case Err => Err
      case Ok(earlier) => Then(earlier, shape(picks[|picks| - 1]))
  }

  /** When every tag parses, the loop gives the triangles of exactly the
      shapes a kept index tags, in shape order. */
  lemma {:induction false} GatherPicked(tag: nat -> Option<int>, shape: nat -> Result<seq<Triangle>>, attrs: seq<int>, n: nat)
    requires forall j: nat :: j < n ==> tag(j).Some?
    ensures Gather(tag, shape, attrs, n) == Joined(shape, Selected(Picked(tag, attrs), n))
  {
    if n > 0 {
      GatherPicked(tag, shape, attrs, n - 1);
      var before := Selected(Picked(tag, attrs), n - 1);
      if Picked(tag, attrs)(n - 1) {
        assert Selected(Picked(tag, attrs), n) == before + [n - 1];
        assert (before + [n - 1])[..|before|] == before;
      } else {
        assert Selected(Picked(tag, attrs), n) == before + [];
        assert before + [] == before;
      }
    }
  }

  /** The parsed tag of each shape. */
  function TagOf(doc: Option<Value>, kind: ShapeKind): nat -> Option<int> {
    (i: nat) => ParseInt(Tag(doc, kind, i))
  }

  /** The triangles of each shape. */
  function ShapeOf(doc: Option<Value>, kind: ShapeKind): nat -> Result<seq<Triangle>> {
    (i: nat) => ShapeTriangles(doc, kind, i)
  }

  /** The triangles the shapes below `n` of the document add. */
  function ShapesBelow(doc: Option<Value>, attrs: seq<int>, kind: ShapeKind, n: nat): Result<seq<Triangle>> {
    Gather(TagOf(doc, kind), ShapeOf(doc, kind), attrs, n)
  }

  /** Only shapes tagged with a kept attribute index add triangles: with no
      kept index the loop adds none, and fails exactly when a tag is not a
      number. */
  lemma ShapesPicked(doc: Option<Value>, attrs: seq<int>, kind: ShapeKind, n: nat)
    requires forall j: nat :: j < n ==> TagOf(doc, kind)(j).Some?
    ensures ShapesBelow(doc, attrs, kind, n) ==
            Joined(ShapeOf(doc, kind), Selected(Picked(TagOf(doc, kind), attrs), n))
  {
    GatherPicked(TagOf(doc, kind), ShapeOf(doc, kind), attrs, n);
  }

  lemma ShapesWithoutDefaults(doc: Option<Value>, kind: ShapeKind, n: nat)
    ensures ShapesBelow(doc, [], kind, n) ==
            if forall j: nat :: j < n ==> TagOf(doc, kind)(j).Some? then Ok([]) else Err
  {
    GatherWithoutSelection(TagOf(doc, kind), ShapeOf(doc, kind), n);
  }

  /** The body of the hull loop for a selected hull. */
  method ProcessHull(parser: Parser, index: nat) returns (r: Result<seq<Triangle>>)
    ensures r == HullTriangles(parser.parsedData, index)
  {
    var vertexPositions := parser.GetValue(ShapePath(Hulls, index, "m_Hull.m_VertexPositions"));
    if vertexPositions == "" {
      vertexPositions := parser.GetValue(ShapePath(Hulls, index, "m_Hull.m_Vertices"));
    }
    var coordRecords := BytesToVec(vertexPositions, 4);
    if coordRecords.Err? {
      return Err;
    }
    var vertices := GroupVertices(WordValues(coordRecords.value));
    if vertices.Err? {
      return Err;
    }
    var faceText := parser.GetValue(ShapePath(Hulls, index, "m_Hull.m_Faces"));
    var faceRecords := BytesToVec(faceText, 1);
    if faceRecords.Err? {
      return Err;
    }
    var edgeText := parser.GetValue(ShapePath(Hulls, index, "m_Hull.m_Edges"));
    var edgeRecords := BytesToVec(edgeText, 1);
    if edgeRecords.Err? {
      return Err;
    }
    var edges := GroupEdges(Bytes(edgeRecords.value));
    if edges.Err? {
      return Err;
    }
    r := HullFaces(edges.value, vertices.value, Bytes(faceRecords.value));
  }

  /** The body of the mesh loop for a selected mesh. */
  method ProcessMesh(parser: Parser, index: nat) returns (r: Result<seq<Triangle>>)
    ensures r == MeshTriangles(parser.parsedData, index)
  {
    var triangleText := parser.GetValue(ShapePath(Meshes, index, "m_Mesh.m_Triangles"));
    var indexRecords := BytesToVec(triangleText, 4);
    if indexRecords.Err? {
      return Err;
    }
    var vertexText := parser.GetValue(ShapePath(Meshes, index, "m_Mesh.m_Vertices"));
    var coordRecords := BytesToVec(vertexText, 4);
    if coordRecords.Err? {
      return Err;
    }
    var vertices := GroupVertices(WordValues(coordRecords.value));
    if vertices.Err? {
      return Err;
    }
    r := AssembleMesh(Int32s(indexRecords.value), vertices.value);
  }

  /** The loop one shape further. */
  lemma ShapesBelowNext(doc: Option<Value>, attrs: seq<int>, kind: ShapeKind, n: nat, earlier: seq<Triangle>)
    requires ShapesBelow(doc, attrs, kind, n) == Ok(earlier)
    ensures ShapesBelow(doc, attrs, kind, n + 1) ==
            match ParseInt(Tag(doc, kind, n))
            case None => Err
            case Some(c) => if c in attrs then Then(earlier, ShapeTriangles(doc, kind, n)) else Ok(earlier)
  {
  }

  /** The body of either loop for a selected shape. */
  method ProcessShape(parser: Parser, kind: ShapeKind, index: nat) returns (r: Result<seq<Triangle>>)
    ensures r == ShapeTriangles(parser.parsedData, kind, index)
  {
    if kind == Hulls {
      r := ProcessHull(parser, index);
    } else {
      r := ProcessMesh(parser, index);
    }
  }

  /** A round that reads a tag and succeeds is not one where the loop leaves. */
  lemma RoundBeforeHalt(doc: Option<Value>, attrs: seq<int>, kind: ShapeKind, i: nat, stop: nat)
    requires ScanHalts(doc, attrs, kind, stop)
    requires Tag(doc, kind, i) != "" && ShapesBelow(doc, attrs, kind, i).Ok? && ShapesBelow(doc, attrs, kind, i + 1).Ok?
    ensures i != stop
  {
    ShapesBelowNext(doc, attrs, kind, i, ShapesBelow(doc, attrs, kind, i).value);
  }

  /** The names on the shape paths hold no dot or bracket, and the tag path
      is the shape list's path with an index and the tag field appended. */
  lemma ShapeKeysPlain(kind: ShapeKind, seg: string)
    ensures DotFree(["m_parts[0]", "m_rnShape"] + [ShapeKey(kind)] + [TagField])
    ensures '[' !in ShapeKey(kind) && ']' !in ShapeKey(kind)
    ensures ["m_parts[0]", "m_rnShape"] + [ShapeKey(kind)] == ["m_parts[0]", "m_rnShape", ShapeKey(kind)]
    ensures ["m_parts[0]", "m_rnShape"] + [seg] + [TagField] == ["m_parts[0]", "m_rnShape", seg, TagField]
  {
  }

  /** When the shapes of a kind form an array of `|a|` entries, the shape
      scan finds an empty tag at index `|a|` at the latest, so the stop that
      ProcessShapes asks for exists. */
  lemma ShapesStop(doc: Option<Value>, kind: ShapeKind, a: seq<Value>)
    requires Resolve(doc, ["m_parts[0]", "m_rnShape", ShapeKey(kind)]) == At(Some(Arr(a)))
    requires |a| <= Int32Max
    ensures Tag(doc, kind, |a|) == ""
  {
    var seg := ShapeKey(kind) + "[" + DecimalString(|a|) + "]";
    ShapeKeysPlain(kind, seg);
    QueryPastEnd(doc, ["m_parts[0]", "m_rnShape"], ShapeKey(kind), [TagField], a);
  }

  /** The read at the head of the shape loop. */
  method ReadTag(parser: Parser, kind: ShapeKind, index: nat) returns (collisionIndexStr: string)
    ensures collisionIndexStr == Tag(parser.parsedData, kind, index)
  {
    collisionIndexStr := parser.GetValue(ShapePath(kind, index, TagField));
  }

  /** The rest of one round of the shape loop once the tag is known not to be
      empty: parse it, and add the shape's triangles when it is selected. */
  method AddShape(parser: Parser, attrs: seq<int>, kind: ShapeKind, index: nat,
                  triangles: seq<Triangle>, collisionIndexStr: string)
    returns (r: Result<seq<Triangle>>)
    requires ShapesBelow(parser.parsedData, attrs, kind, index) == Ok(triangles)
    requires collisionIndexStr == Tag(parser.parsedData, kind, index)
    ensures r == ShapesBelow(parser.parsedData, attrs, kind, index + 1)
  {
    ShapesBelowNext(parser.parsedData, attrs, kind, index, triangles);
    var collisionIndex := ParseInt(collisionIndexStr);
    if collisionIndex.None? {
      return Err;
    }
    r := Ok(triangles);
    if collisionIndex.value in attrs {
      var shape := ProcessShape(parser, kind, index);
      if shape.Err? {
        return Err;
      }
      r := Ok(triangles + shape.value);
    }
  }

  /** Round `n` of the shape loop raises: its tag is not an integer, or it
      is a kept attribute index and reading the shape fails. */
  predicate RoundFails(doc: Option<Value>, attrs: seq<int>, kind: ShapeKind, n: nat) {
    match ParseInt(Tag(doc, kind, n))
    case None => true
    case Some(c) => c in attrs && ShapeTriangles(doc, kind, n).Err?
  }

  /** The shape loop leaves at round `n` if it gets there: the tag read is
      empty, or the round raises. */
  predicate ScanHalts(doc: Option<Value>, attrs: seq<int>, kind: ShapeKind, n: nat) {
    Tag(doc, kind, n) == "" || RoundFails(doc, attrs, kind, n)
  }

  /** Round `n - 1` is the first round of the shape loop that raises: the
      rounds before it all succeed. */
  predicate FirstFailure(doc: Option<Value>, attrs: seq<int>, kind: ShapeKind, n: nat) {
    0 < n && ShapesBelow(doc, attrs, kind, n - 1).Ok? && ShapesBelow(doc, attrs, kind, n).Err?
  }

  /** The hull loop or the mesh loop of Main: the triangles the selected shapes
      add, in shape order. `stop` names a round, one the 32-bit counter
      reaches, at which the loop leaves; `end` is where it does stop: at the
      first empty tag, or just past the first round that fails. */
  method ProcessShapes(parser: Parser, attrs: seq<int>, kind: ShapeKind, ghost stop: nat)
    returns (r: Result<seq<Triangle>>, end: nat)
    requires stop <= Int32Max && ScanHalts(parser.parsedData, attrs, kind, stop)
    ensures forall j: nat :: j < end ==> Tag(parser.parsedData, kind, j) != ""
    ensures r.Ok? ==> end <= stop && Tag(parser.parsedData, kind, end) == ""
    ensures r.Err? ==> 0 < end <= stop + 1
    ensures r.Err? ==> FirstFailure(parser.parsedData, attrs, kind, end)
    ensures r == ShapesBelow(parser.parsedData, attrs, kind, end)
  {
    var triangles: seq<Triangle> := [];
    var index: nat := 0;
    while true
      invariant index <= stop
      invariant forall j: nat :: j < index ==> Tag(parser.parsedData, kind, j) != ""
      invariant ShapesBelow(parser.parsedData, attrs, kind, index) == Ok(triangles)
      decreases stop - index
    {
      var collisionIndexStr := ReadTag(parser, kind, index);
      if collisionIndexStr == "" {
        r, end := Ok(triangles), index;
        break;
      }
      forall j: nat | j < index + 1
        ensures Tag(parser.parsedData, kind, j) != ""
      {
        if j == index {
          assert Tag(parser.parsedData, kind, j) == collisionIndexStr;
        }
      }
      var next := AddShape(parser, attrs, kind, index, triangles, collisionIndexStr);
      if next.Err? {
        r, end := Err, index + 1;
        assert FirstFailure(parser.parsedData, attrs, kind, end);
        break;
      }
      RoundBeforeHalt(parser.parsedData, attrs, kind, index, stop);
      triangles := next.value;
      index := index + 1;
    }
  }

  /** Everything Main writes out for a parsed document, given where its three
      loops stop: the hull triangles, then the mesh triangles. */
  function Triangles(doc: Option<Value>, ends: (nat, nat, nat)): Result<seq<Triangle>> {
    var attrs := DefaultsBelow(doc, ends.0);
    match ShapesBelow(doc, attrs, Hulls, ends.1)
    case Err => Err
    case Ok(hulls) => Then(hulls, ShapesBelow(doc, attrs, Meshes, ends.2))
  }

  /** Main after the parse: the attribute indices, then the hull loop, then the
      mesh loop. An error in the hull loop ends the run before the mesh loop. */
  method Convert(parser: Parser, ghost stops: (nat, nat, nat)) returns (r: Result<seq<Triangle>>, ends: (nat, nat, nat))
    requires stops.0 <= Int32Max && AttributesEndAt(parser.parsedData, stops.0)
    requires stops.1 <= Int32Max && ScanHalts(parser.parsedData, DefaultsBelow(parser.parsedData, stops.0), Hulls, stops.1)
    requires forall j: nat :: j < stops.1 ==> Tag(parser.parsedData, Hulls, j) != ""
    requires Tag(parser.parsedData, Hulls, stops.1) == "" ==>
             stops.2 <= Int32Max && ScanHalts(parser.parsedData, DefaultsBelow(parser.parsedData, stops.0), Meshes, stops.2)
    ensures AttributesEndAt(parser.parsedData, ends.0)
    ensures forall j: nat :: j < ends.1 ==> Tag(parser.parsedData, Hulls, j) != ""
    ensures r.Ok? ==> ShapesEndAt(parser.parsedData, Hulls, ends.1) && ShapesEndAt(parser.parsedData, Meshes, ends.2)
    ensures r.Err? ==> FirstFailure(parser.parsedData, DefaultsBelow(parser.parsedData, ends.0), Hulls, ends.1) ||
                       (ShapesEndAt(parser.parsedData, Hulls, ends.1) &&
                        FirstFailure(parser.parsedData, DefaultsBelow(parser.parsedData, ends.0), Meshes, ends.2))
    ensures r == Triangles(parser.parsedData, ends)
  {
    var attrs, attrsEnd := CollisionAttributeIndices(parser, stops.0);
    AttributesEndUnique(parser.parsedData, attrsEnd, stops.0);
    var hulls, hullsEnd := ProcessShapes(parser, attrs, Hulls, stops.1);
    if hulls.Err? {
      return Err, (attrsEnd, hullsEnd, 0);
    }
    var meshes, meshesEnd := ProcessShapes(parser, attrs, Meshes, stops.2);
    ends := (attrsEnd, hullsEnd, meshesEnd);
    if meshes.Err? {
      return Err, ends;
    }
    r := Ok(hulls.value + meshes.value);
  }
}
