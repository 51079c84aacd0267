/** The triangle and part bookkeeping of model/model.go.

    A `Mesh` is a triangle: a fixed array of three vertex vectors, each of
    which must be three-dimensional.  A `Part` places its meshes with a
    rotation matrix and a position vector; a `Box` is a part made of the
    twelve triangles of a rectangular box.  Vertices are Go interface
    values, so they may be nil; a method called on nil panics, which the
    model reports as `NilReference`. */
module Model {
  import opened Faults
  import opened Scalars
  import opened Vectors
  import opened Matrices

  /** The `[3]vector.Vector` array of a Mesh; Go's zero value holds three nils. */
  type Triangle = s: seq<Vector?> | |s| == 3 witness [null, null, null]

  datatype Mesh = Mesh(vertices: Triangle)

  /** A vertex NewMesh accepts: present and three-dimensional. */
  predicate IsPoint(v: Vector?) {
    v != null && v.dimension == 3
  }

  /** The check NewMesh's loop makes of vertices[i..], in order: the first
      nil vertex or vertex of another dimension stops it. */
  function Vetted(vertices: seq<Vector?>, i: nat): Outcome
    requires i <= |vertices|
    decreases |vertices| - i
  {
    if i == |vertices| then Pass
    else if vertices[i] == null then Fail(NilReference)
    else if vertices[i].dimension != 3 then Fail(WrongVertexDimension)
    else Vetted(vertices, i + 1)
  }

  /** The check passes exactly when every remaining vertex is a point. */
  lemma {:induction false} VettedIff(vertices: seq<Vector?>, i: nat)
    requires i <= |vertices|
    ensures Vetted(vertices, i).Pass? <==> forall j :: i <= j < |vertices| ==> IsPoint(vertices[j])
    ensures Vetted(vertices, i).Fail? ==> Vetted(vertices, i).error in {NilReference, WrongVertexDimension}
    decreases |vertices| - i
  {
    if i < |vertices| {
      VettedIff(vertices, i + 1);
    }
  }

  /** Points already checked do not change the outcome. */
  lemma {:induction false} VettedSkipsPoints(vertices: seq<Vector?>, i: nat)
    requires i <= |vertices| && forall j :: 0 <= j < i ==> IsPoint(vertices[j])
    ensures Vetted(vertices, 0) == Vetted(vertices, i)
    decreases i
  {
    if i > 0 {
      VettedSkipsPoints(vertices, i - 1);
    }
  }

  /** The backing arrays of a mesh's vertices. */
  ghost function MeshCells(m: Mesh): set<object> {
    set k | 0 <= k < 3 && m.vertices[k] != null :: m.vertices[k].cells
  }

  /** What NewMesh guarantees of its result: three valid 3-D vertices. */
  ghost predicate IsMesh(m: Mesh)
    reads MeshCells(m)
  {
    forall k :: 0 <= k < 3 ==> IsPoint(m.vertices[k]) && m.vertices[k].Valid()
  }

  /** NewMesh: exactly three vertices, then each one in order must be a
      three-dimensional vector; they are copied into the mesh's array. */
  method NewMesh(vertices: seq<Vector?>) returns (r: Result<Mesh>)
    requires forall i :: 0 <= i < |vertices| && vertices[i] != null ==> vertices[i].Valid()
    ensures |vertices| != 3 ==> r == Err(WrongVertexCount)
    ensures |vertices| == 3 ==> (r.Ok? <==> forall i :: 0 <= i < 3 ==> IsPoint(vertices[i]))
    ensures |vertices| == 3 && r.Err? ==> Vetted(vertices, 0) == Fail(r.error)
    ensures r.Ok? ==> r.value.vertices == vertices && IsMesh(r.value)
  {
    if |vertices| != 3 {
      return Err(WrongVertexCount);
    }
    var slots: Triangle := [null, null, null];
    var i := 0;
    while i < |vertices|
      invariant 0 <= i <= 3
      invariant forall j :: 0 <= j < i ==> IsPoint(vertices[j]) && slots[j] == vertices[j]
    {
      var point := vertices[i];
      if point == null || point.Len() != 3 {
        VettedSkipsPoints(vertices, i);
        VettedIff(vertices, 0);
        return Err(if point == null then NilReference else WrongVertexDimension);
      }
      slots := slots[i := point];
      i := i + 1;
    }
    assert slots == vertices;
    VettedIff(vertices, 0);
    r := Ok(Mesh(slots));
  }

  /** GetVertex: indices 0, 1 and 2 only. */
  function GetVertex(m: Mesh, index: GoInt): (r: Result<Vector?>)
    ensures r.Ok? <==> 0 <= index <= 2
    ensures r.Err? ==> r.error == IndexOutOfRange
  {
    if index < 0 || index > 2 then Err(IndexOutOfRange) else Ok(m.vertices[index])
  }

  /** GetVertex hands back, in order, the vertices NewMesh stored. */
  lemma GetVertexReturnsStored(vertices: seq<Vector?>, m: Mesh)
    requires m.vertices == vertices
    ensures forall i :: 0 <= i < 3 ==> GetVertex(m, i) == Ok(vertices[i])
  {
  }

  // ---------------------------------------------------------------------
  // Parts.

  /** SetPosition's guard as written: rejects only a position that is both
      not 3-D and not Float32. */
  predicate PositionRejected(dimension: int, kind: ElementKind) {
    dimension != 3 && kind != Float32
  }

  /** The guard SetPosition evidently intends: only 3-D Float32 positions. */
  predicate PositionRejectedChecked(dimension: int, kind: ElementKind) {
    dimension != 3 || kind != Float32
  }

  /** As written, a position passes when it is 3-D or when it is Float32. */
  lemma PositionGuardAdmitsEither(dimension: int, kind: ElementKind)
    ensures !PositionRejected(dimension, kind) <==> dimension == 3 || kind == Float32
    ensures !PositionRejectedChecked(dimension, kind) <==> dimension == 3 && kind == Float32
  {
  }

  /** A 2-D Float32 vector and a 3-D Int vector both pass the written guard;
      the intended guard rejects them. */
  lemma PositionGuardExamples()
    ensures !PositionRejected(2, Float32) && PositionRejectedChecked(2, Float32)
    ensures !PositionRejected(3, Int) && PositionRejectedChecked(3, Int)
  {
  }

  /** model.go's Part: position, rotation and scaling, and its meshes. */
  class Part {
    var position: Vector?
    var rotation: Matrix?
    var scaling: Matrix?
    var meshes: seq<Mesh>

    /** The zero Part (`var box Box` starts from it). */
    constructor ()
      ensures position == null && rotation == null && scaling == null && meshes == []
    {
      position := null;
      rotation := null;
      scaling := null;
      meshes := [];
    }

    ghost function Footprint(): set<object>
      reads this
    {
      (if position != null then {position.cells} else {}) +
      (if rotation != null then {rotation.cells} else {}) +
      (set i, k | 0 <= i < |meshes| && 0 <= k < 3 && meshes[i].vertices[k] != null :: meshes[i].vertices[k].cells)
    }

    ghost predicate Valid()
      reads this, Footprint()
    {
      (position != null ==> position.Valid()) &&
      (rotation != null ==> rotation.Valid()) &&
      forall i :: 0 <= i < |meshes| ==> IsMesh(meshes[i])
    }

    /** Meshes: the number of stored meshes. */
    function Meshes(): (n: int)
      reads this
      ensures n == |meshes|
    {
      |meshes|
    }

    /** SetPosition as written, with the `&&` guard. */
    method SetPosition(position: Vector?) returns (r: Outcome)
      requires position != null ==> position.Valid()
      modifies this
      ensures position == null ==> r == Fail(NilReference)
      ensures position != null ==>
        r == if PositionRejected(position.dimension, position.kind) then Fail(WrongPosition) else Pass
      ensures r.Pass? ==> this.position == position
      ensures r.Fail? ==> this.position == old(this.position)
      ensures rotation == old(rotation) && scaling == old(scaling) && meshes == old(meshes)
    {
      if position == null {
        return Fail(NilReference);
      }
      if position.Len() != 3 && position.Kind() != Float32 {
        return Fail(WrongPosition);
      }
      this.position := position;
      r := Pass;
    }

    /** SetPosition with the guard it intends, the `||` one. */
    method SetPositionChecked(position: Vector?) returns (r: Outcome)
      requires position != null ==> position.Valid()
      modifies this
      ensures position == null ==> r == Fail(NilReference)
      ensures position != null ==>
        r == if PositionRejectedChecked(position.dimension, position.kind) then Fail(WrongPosition) else Pass
      ensures r.Pass? ==> this.position == position && position.dimension == 3 && position.kind == Float32
      ensures r.Fail? ==> this.position == old(this.position)
      ensures rotation == old(rotation) && scaling == old(scaling) && meshes == old(meshes)
    {
      if position == null {
        return Fail(NilReference);
      }
      if position.Len() != 3 || position.Kind() != Float32 {
        return Fail(WrongPosition);
      }
      this.position := position;
      r := Pass;
    }

    /** Everything GetMesh needs to place mesh m: a 3 x 3 rotation and a
        3-D position, all of the vertices' kind. */
    predicate Placeable(m: Mesh)
      reads this
    {
      rotation != null && rotation.rows == 3 && Fits(m, 0) && Fits(m, 1) && Fits(m, 2)
    }

    /** What PlaceVertex needs for vertex k of m: a rotation with three
        columns, and a position as long as the rotation has rows, all of
        the vertex's kind. */
    predicate Fits(m: Mesh, k: nat)
      reads this
      requires k < 3
    {
      rotation != null && position != null && rotation.cols == 3 &&
      m.vertices[k] != null && m.vertices[k].kind == rotation.kind &&
      position.kind == rotation.kind && position.dimension == rotation.rows
    }

    /** Vertex k of mesh m, rotated and then moved to the position. */
    ghost function Placed(m: Mesh, k: nat, fpu: FloatUnit): seq<int>
      requires k < 3 && Fits(m, k)
      requires rotation.Valid() && position.Valid() && IsPoint(m.vertices[k]) && m.vertices[k].Valid()
      reads this, rotation.cells, position.cells, m.vertices[k].cells
    {
      Sum(rotation.kind, Product(rotation.kind, rotation.Grid(), m.vertices[k].cells[..], fpu),
          position.cells[..], fpu)
    }

    /** GetMesh: the index check admits index == Meshes(), which then faults
        on the slice access; otherwise each vertex is rotated, moved, and
        the three results go through NewMesh. */
    method GetMesh(index: GoInt, fpu: FloatUnit) returns (r: Result<Mesh>)
      requires Valid()
      ensures index < 0 || index > |meshes| ==> r == Err(IndexOutOfRange)
      ensures index == |meshes| ==> r == Err(IndexFault)
      ensures 0 <= index < |meshes| ==> (r.Ok? <==> Placeable(meshes[index]))
      ensures r.Ok? ==>
        0 <= index < |meshes| && IsMesh(r.value) &&
        forall k :: 0 <= k < 3 ==>
          fresh(r.value.vertices[k].cells) && r.value.vertices[k].cells[..] == Placed(meshes[index], k, fpu)
    {
      if index < 0 || index > Meshes() {
        return Err(IndexOutOfRange);
      }
      if index == |meshes| {
        return Err(IndexFault);
      }
      var mesh := meshes[index];
      assert Holds(mesh);
      var placed :- PlaceAll(mesh, fpu);
      assert IsPoint(placed[0]) <==> rotation.rows == 3;
      r := NewMesh(placed);
    }

    /** The three vertices of mesh m, placed in order; the first that
        cannot be placed stops it. */
    method PlaceAll(mesh: Mesh, fpu: FloatUnit) returns (r: Result<seq<Vector?>>)
      requires Holds(mesh)
      ensures r.Ok? <==> Fits(mesh, 0) && Fits(mesh, 1) && Fits(mesh, 2)
      ensures r.Ok? ==>
        |r.value| == 3 &&
        forall k :: 0 <= k < 3 ==>
          r.value[k] != null && fresh(r.value[k].cells) && r.value[k].Valid() &&
          r.value[k].dimension == rotation.rows && r.value[k].cells[..] == Placed(mesh, k, fpu)
    {
      var a :- PlaceVertex(mesh, 0, fpu);
      var b :- PlaceVertex(mesh, 1, fpu);
      var c :- PlaceVertex(mesh, 2, fpu);
      var placed: seq<Vector?> := [a, b, c];
      assert placed[0] == a && placed[1] == b && placed[2] == c;
      r := Ok(placed);
    }

    /** What PlaceVertex needs of a valid part: its rotation, position and
        the mesh's vertices are well formed. */
    ghost predicate Holds(mesh: Mesh)
      reads this, MeshCells(mesh)
      reads if rotation != null then {rotation.cells} else {}
      reads if position != null then {position.cells} else {}
    {
      (position != null ==> position.Valid()) && (rotation != null ==> rotation.Valid()) && IsMesh(mesh)
    }

    /** `p.rotation.Mulv(mesh.GetVertex(k)).Add(p.position)`. */
    method PlaceVertex(mesh: Mesh, k: GoInt, fpu: FloatUnit) returns (r: Result<Vector>)
      requires Holds(mesh) && 0 <= k < 3
      ensures r.Ok? <==> Fits(mesh, k)
      ensures r.Ok? ==>
        fresh(r.value.cells) && r.value.Valid() && r.value.dimension == rotation.rows &&
        r.value.cells[..] == Placed(mesh, k, fpu)
    {
      var got := GetVertex(mesh, k);
      var vertex := got.value;
      if rotation == null {
        return Err(NilReference);
      }
      var turned :- rotation.Mulv(vertex, fpu);
      if position == null {
        return Err(NilReference);
      }
      AreaBounds(rotation.rows, rotation.cols);
      r := turned.Add(position, fpu);
    }
  }

  // ---------------------------------------------------------------------
  // Boxes.

  /** The bit pattern of the float32 2.0. */
  const FloatTwo: int := 0x4000_0000

  /** The eight corners, in the order NewBox builds them:
      fbl, bbl, bbr, fbr, ftl, btl, btr, ftr (front/back, bottom/top,
      left/right). */
  predicate IsLeft(c: nat) { c == 0 || c == 1 || c == 4 || c == 5 }

  predicate IsTop(c: nat) { c >= 4 }

  predicate IsFront(c: nat) { c == 0 || c == 3 || c == 4 || c == 7 }

  /** The cells of corner c: x = ∓width/2, y = 0 or height, z = ∓depth/2. */
  function Corner(c: nat, width: int, depth: int, height: int, fpu: FloatUnit): (p: seq<int>)
    requires InRange(Float32, width) && InRange(Float32, depth) && InRange(Float32, height)
    ensures |p| == 3 && forall i :: 0 <= i < 3 ==> InRange(Float32, p[i])
  {
    [if IsLeft(c) then Div(Float32, FloatNeg(Float32, width), FloatTwo, fpu) else Div(Float32, width, FloatTwo, fpu),
     if IsTop(c) then height else Zero(Float32),
     if IsFront(c) then Div(Float32, FloatNeg(Float32, depth), FloatTwo, fpu) else Div(Float32, depth, FloatTwo, fpu)]
  }

  /** The corners of the twelve triangles, two per side, in NewBox's order:
      bottom, top, left, right, front, back. */
  const BoxFaces: seq<seq<nat>> :=
    [[0, 1, 3], [1, 2, 3], [4, 5, 7], [5, 6, 7], [0, 1, 5], [0, 4, 5],
     [3, 2, 6], [3, 7, 6], [0, 4, 7], [0, 3, 7], [1, 5, 6], [1, 2, 6]]

  /** Corner c lies on side s (0 bottom, 1 top, 2 left, 3 right, 4 front, 5 back). */
  predicate OnSide(s: nat, c: nat) {
    if s == 0 then !IsTop(c)
    else if s == 1 then IsTop(c)
    else if s == 2 then IsLeft(c)
    else if s == 3 then !IsLeft(c)
    else if s == 4 then IsFront(c)
    else !IsFront(c)
  }

  /** Every triangle has three distinct corners of the box, all on its side,
      and the two triangles of a side together use all four of its corners. */
  lemma BoxFacesTileTheSides()
    ensures |BoxFaces| == 12
    ensures forall f :: 0 <= f < 12 ==>
      |BoxFaces[f]| == 3 &&
      BoxFaces[f][0] != BoxFaces[f][1] && BoxFaces[f][1] != BoxFaces[f][2] && BoxFaces[f][0] != BoxFaces[f][2] &&
      forall k :: 0 <= k < 3 ==> BoxFaces[f][k] < 8 && OnSide(f / 2, BoxFaces[f][k])
    ensures forall s, c :: 0 <= s < 6 && 0 <= c < 8 && OnSide(s, c) ==>
      c in BoxFaces[2 * s] || c in BoxFaces[2 * s + 1]
  {
  }

  /** model.go's Box: a Part with its three sizes (float32 bit patterns). */
  class Box {
    const part: Part
    const width: int
    const depth: int
    const height: int

    constructor (part: Part, width: int, depth: int, height: int)
      ensures this.part == part && this.width == width && this.depth == depth && this.height == height
    {
      this.part := part;
      this.width := width;
      this.depth := depth;
      this.height := height;
    }
  }

  /** Vector v is corner c of the box. */
  ghost predicate IsCorner(v: Vector, c: nat, width: int, depth: int, height: int, fpu: FloatUnit)
    reads v.cells
    requires InRange(Float32, width) && InRange(Float32, depth) && InRange(Float32, height)
  {
    v.Valid() && v.dimension == 3 && v.kind == Float32 && v.cells[..] == Corner(c, width, depth, height, fpu)
  }

  /** No vector occurs twice in s. */
  predicate Distinct(s: seq<Vector>) {
    forall c, c2 :: 0 <= c < c2 < |s| ==> s[c] != s[c2]
  }

  lemma DistinctExtend(s: seq<Vector>, v: Vector)
    requires Distinct(s) && v !in s
    ensures Distinct(s + [v])
  {
    var t := s + [v];
    assert forall c :: 0 <= c < |s| ==> t[c] == s[c];
  }

  /** A NewBox corner: FilledVector of corner c's three float32 values.  The
      vector is new, so it is none of the corners made before. */
  method Point(c: nat, width: int, depth: int, height: int, fpu: FloatUnit, ghost before: seq<Vector>) returns (v: Vector)
    requires InRange(Float32, width) && InRange(Float32, depth) && InRange(Float32, height)
    ensures IsCorner(v, c, width, depth, height, fpu) && v !in before
  {
    var cells := Corner(c, width, depth, height, fpu);
    var r := FilledVector([Scalar(Float32, cells[0]), Scalar(Float32, cells[1]), Scalar(Float32, cells[2])]);
    v := r.value;
    assert v.cells[..] == cells;
  }

  /** A NewBox triangle: NewMesh of three corners, which always succeeds. */
  method Face(a: Vector, b: Vector, c: Vector) returns (m: Mesh)
    requires a.Valid() && b.Valid() && c.Valid() && a.dimension == 3 && b.dimension == 3 && c.dimension == 3
    ensures m == Mesh([a, b, c])
  {
    var r := NewMesh([a, b, c]);
    m := r.value;
  }

  /** The triangles of a box over its eight corners, as listed in BoxFaces. */
  function BoxTriangles(corners: seq<Vector>): (meshes: seq<Mesh>)
    requires |corners| == 8
    ensures |meshes| == 12
    ensures forall f, k :: 0 <= f < 12 && 0 <= k < 3 ==> meshes[f].vertices[k] == corners[BoxFaces[f][k]]
  {
    seq(12, f requires 0 <= f < 12 =>
      Mesh([corners[BoxFaces[f][0]], corners[BoxFaces[f][1]], corners[BoxFaces[f][2]]]))
  }

  /** The triangles share a vertex object exactly where they share a corner. */
  lemma BoxTrianglesShareCorners(corners: seq<Vector>)
    requires |corners| == 8 && Distinct(corners)
    ensures forall f, k, f2, k2 :: 0 <= f < 12 && 0 <= k < 3 && 0 <= f2 < 12 && 0 <= k2 < 3 ==>
      (BoxTriangles(corners)[f].vertices[k] == BoxTriangles(corners)[f2].vertices[k2] <==>
       BoxFaces[f][k] == BoxFaces[f2][k2])
  {
    BoxFacesTileTheSides();
    forall f, k, f2, k2 | 0 <= f < 12 && 0 <= k < 3 && 0 <= f2 < 12 && 0 <= k2 < 3
      ensures corners[BoxFaces[f][k]] == corners[BoxFaces[f2][k2]] ==> BoxFaces[f][k] == BoxFaces[f2][k2]
    {
      var c, c2 := BoxFaces[f][k], BoxFaces[f2][k2];
      if c < c2 {
        assert corners[c] != corners[c2];
      } else if c2 < c {
        assert corners[c2] != corners[c];
      }
    }
  }

  /** The eight corners of a box, each a new 3-D Float32 vector. */
  method BoxCorners(width: int, depth: int, height: int, fpu: FloatUnit) returns (corners: seq<Vector>)
    requires InRange(Float32, width) && InRange(Float32, depth) && InRange(Float32, height)
    ensures |corners| == 8 && Distinct(corners)
    ensures forall c :: 0 <= c < 8 ==> IsCorner(corners[c], c, width, depth, height, fpu)
  {
    var bottom := CornerRun(0, width, depth, height, fpu, []);
    assert [] + bottom == bottom;
    var top := CornerRun(4, width, depth, height, fpu, bottom);
    corners := bottom + top;
  }

  /** Corners first .. first+3, made one after the other: new vectors, so
      distinct from each other and from those made before. */
  method CornerRun(first: nat, width: int, depth: int, height: int, fpu: FloatUnit, ghost before: seq<Vector>)
    returns (run: seq<Vector>)
    requires InRange(Float32, width) && InRange(Float32, depth) && InRange(Float32, height)
    requires Distinct(before)
    ensures |run| == 4 && Distinct(before + run)
    ensures forall c :: 0 <= c < 4 ==> IsCorner(run[c], first + c, width, depth, height, fpu)
  {
    ghost var made := before;
    var a := Point(first, width, depth, height, fpu, made);
    DistinctExtend(made, a);
    made := made + [a];
    var b := Point(first + 1, width, depth, height, fpu, made);
    DistinctExtend(made, b);
    made := made + [b];
    var c := Point(first + 2, width, depth, height, fpu, made);
    DistinctExtend(made, c);
    made := made + [c];
    var d := Point(first + 3, width, depth, height, fpu, made);
    DistinctExtend(made, d);
    made := made + [d];
    run := [a, b, c, d];
    assert made == before + run;
  }

  /** The twelve triangles of NewBox over its corners. */
  method BoxMeshes(corners: seq<Vector>) returns (meshes: seq<Mesh>)
    requires |corners| == 8 && forall c :: 0 <= c < 8 ==> corners[c].Valid() && corners[c].dimension == 3
    ensures meshes == BoxTriangles(corners)
  {
    var low := LowerSides(corners);
    var high := UpperSides(corners);
    meshes := low + high;
  }

  /** The bottom, top and left triangles. */
  method LowerSides(corners: seq<Vector>) returns (meshes: seq<Mesh>)
    requires |corners| == 8 && forall c :: 0 <= c < 8 ==> corners[c].Valid() && corners[c].dimension == 3
    ensures meshes == BoxTriangles(corners)[..6]
  {
    var fbl, bbl, bbr, fbr, ftl, btl, btr, ftr :=
      corners[0], corners[1], corners[2], corners[3], corners[4], corners[5], corners[6], corners[7];
    var bottom0 := Face(fbl, bbl, fbr);
    var bottom1 := Face(bbl, bbr, fbr);
    var top0 := Face(ftl, btl, ftr);
    var top1 := Face(btl, btr, ftr);
    var left0 := Face(fbl, bbl, btl);
    var left1 := Face(fbl, ftl, btl);
    meshes := [bottom0, bottom1, top0, top1, left0, left1];
  }

  /** The right, front and back triangles. */
  method UpperSides(corners: seq<Vector>) returns (meshes: seq<Mesh>)
    requires |corners| == 8 && forall c :: 0 <= c < 8 ==> corners[c].Valid() && corners[c].dimension == 3
    ensures meshes == BoxTriangles(corners)[6..]
  {
    var fbl, bbl, bbr, fbr, ftl, btl, btr, ftr :=
      corners[0], corners[1], corners[2], corners[3], corners[4], corners[5], corners[6], corners[7];
    var right0 := Face(fbr, bbr, btr);
    var right1 := Face(fbr, ftr, btr);
    var front0 := Face(fbl, ftl, ftr);
    var front1 := Face(fbl, fbr, ftr);
    var back0 := Face(bbl, btl, btr);
    var back1 := Face(bbl, bbr, btr);
    meshes := [right0, right1, front0, front1, back0, back1];
  }

  /** NewBox: positive sizes only (a NaN size passes `<= 0.0`).  The part
      gets a zero 3-D Float32 position, a 3 x 3 Float32 unit rotation, no
      scaling, and the twelve triangles over eight distinct new corners,
      which `corners` names; the sizes are stored. */
  method NewBox(width: int, depth: int, height: int, fpu: FloatUnit) returns (r: Result<Box>, ghost corners: seq<Vector>)
    requires InRange(Float32, width) && InRange(Float32, depth) && InRange(Float32, height)
    ensures r.Err? <==>
      FloatAtMostZero(Float32, width) || FloatAtMostZero(Float32, depth) || FloatAtMostZero(Float32, height)
    ensures r.Err? ==> r.error == NonPositiveSize
    ensures r.Ok? ==>
      fresh(r.value) && fresh(r.value.part) &&
      r.value.width == width && r.value.depth == depth && r.value.height == height
    ensures r.Ok? ==>
      var p := r.value.part;
      p.scaling == null &&
      p.position != null && p.position.Valid() && p.position.dimension == 3 && p.position.kind == Float32 &&
      p.position.cells[..] == Zeros(Float32, 3) &&
      p.rotation != null && p.rotation.Valid() && p.rotation.rows == 3 && p.rotation.cols == 3 &&
      p.rotation.kind == Float32 && p.rotation.Grid() == Identity(Float32, 3, 3)
    ensures r.Ok? ==>
      |corners| == 8 && Distinct(corners) && r.value.part.meshes == BoxTriangles(corners) &&
      forall c :: 0 <= c < 8 ==> IsCorner(corners[c], c, width, depth, height, fpu)
  {
    corners := [];
    if FloatAtMostZero(Float32, width) || FloatAtMostZero(Float32, depth) || FloatAtMostZero(Float32, height) {
      return Err(NonPositiveSize), corners;
    }
    var made := BoxCorners(width, depth, height, fpu);
    corners := made;
    var meshes := BoxMeshes(made);
    var position := ZeroVector(3, Float32);
    GoMulExact(3, 3);
    OffsetIsProduct(3, 3, 0);
    var rotation := UnitMatrix(3, 3, Float32);
    var part := new Part();
    part.position, part.rotation, part.meshes := position.value, rotation.value, meshes;
    var box := new Box(part, width, depth, height);
    r := Ok(box);
  }

  /** A new box is a valid part, and vertex k of triangle f is corner
      BoxFaces[f][k] of the box. */
  lemma NewBoxIsValid(p: Part, corners: seq<Vector>, width: int, depth: int, height: int, fpu: FloatUnit)
    requires InRange(Float32, width) && InRange(Float32, depth) && InRange(Float32, height)
    requires p.position != null && p.position.Valid() && p.rotation != null && p.rotation.Valid()
    requires |corners| == 8 && p.meshes == BoxTriangles(corners)
    requires forall c :: 0 <= c < 8 ==> IsCorner(corners[c], c, width, depth, height, fpu)
    ensures p.Valid()
    ensures forall f, k :: 0 <= f < 12 && 0 <= k < 3 ==>
      BoxFaces[f][k] < 8 && IsCorner(p.meshes[f].vertices[k], BoxFaces[f][k], width, depth, height, fpu)
  {
    BoxFacesTileTheSides();
  }
}
