/**
 * Mesh sanitisation before the geometry pass (src/main.py:17-32, used at
 * 60-62): per-corner normals are collapsed to one normal per vertex, then
 * every triangle whose winding disagrees with the normal of its first vertex
 * has its first two indices swapped in place.
 *
 * Coordinates are integers here, so the orientation test is exact; index
 * arrays are numpy/numba arrays, where a negative index counts from the end.
 */
module Mesh {
  import opened Common

  /** A vertex position or normal with integer coordinates. */
  datatype Vec3 = Vec3(x: int, y: int, z: int)

  function Sub(a: Vec3, b: Vec3): Vec3 {
    Vec3(a.x - b.x, a.y - b.y, a.z - b.z)
  }

  /**
   * Integer multiplication, by recursion on the second factor (see
   * MulIsProduct). Written this way so that a proof about the triangle list
   * sees products only as terms and expands them only where it needs the
   * algebra.
   */
  function Mul(a: int, b: int): int
    decreases if b < 0 then 1 - b else b
  {
    if b < 0 then -Mul(a, -b) else if b == 0 then 0 else a + Mul(a, b - 1)
  }

  lemma {:induction false} MulIsProduct(a: int, b: int)
    ensures Mul(a, b) == a * b
    decreases if b < 0 then 1 - b else b
  {
    if b < 0 {
      MulIsProduct(a, -b);
      assert a * -b == -(a * b);
    } else if b > 0 {
      MulIsProduct(a, b - 1);
      assert a * (b - 1) == a * b - a;
    }
  }

  function Cross(a: Vec3, b: Vec3): Vec3 {
    Vec3(Mul(a.y, b.z) - Mul(a.z, b.y), Mul(a.z, b.x) - Mul(a.x, b.z), Mul(a.x, b.y) - Mul(a.y, b.x))
  }

  function Dot(a: Vec3, b: Vec3): int {
    Mul(a.x, b.x) + Mul(a.y, b.y) + Mul(a.z, b.z)
  }

  /** The cross product, in ordinary arithmetic. */
  lemma CrossIsProduct(a: Vec3, b: Vec3)
    ensures Cross(a, b) == Vec3(a.y * b.z - a.z * b.y, a.z * b.x - a.x * b.z, a.x * b.y - a.y * b.x)
  {
    MulIsProduct(a.y, b.z); MulIsProduct(a.z, b.y);
    MulIsProduct(a.z, b.x); MulIsProduct(a.x, b.z);
    MulIsProduct(a.x, b.y); MulIsProduct(a.y, b.x);
  }

  /** The dot product, in ordinary arithmetic. */
  lemma DotIsProduct(a: Vec3, b: Vec3)
    ensures Dot(a, b) == a.x * b.x + a.y * b.y + a.z * b.z
  {
    MulIsProduct(a.x, b.x); MulIsProduct(a.y, b.y); MulIsProduct(a.z, b.z);
  }

  /** `i` is a legal index into an axis of length `n` (negative ones count from the end). */
  predicate InRange(i: int, n: nat) {
    -(n as int) <= i < n
  }

  /** The position an in-range index designates. */
  function Wrap(i: int, n: nat): (r: nat)
    requires InRange(i, n)
    ensures r < n
    ensures (r - i) % n == 0
    ensures i >= 0 ==> r == i
  {
    if i < 0 then i + n else i
  }

  // ---------------------------------------------------------------------
  // normal_array_kernel

  /** `zip` stops at the shorter of the two index arrays. */
  function Corners(tri: seq<int>, nidx: seq<int>): (n: nat)
    ensures n <= |tri| && n <= |nidx|
    ensures n == |tri| || n == |nidx|
  {
    if |tri| <= |nidx| then |tri| else |nidx|
  }

  /** Every corner `zip` visits names a row of the result and a row of `normals`. */
  predicate ValidCorners<T>(tri: seq<int>, nidx: seq<int>, normals: seq<T>, vertexNum: nat) {
    forall k :: 0 <= k < Corners(tri, nidx) ==> InRange(tri[k], vertexNum) && InRange(nidx[k], |normals|)
  }

  /** The rows after the first `n` corners have been written over `rows`, in order. */
  function Scatter<T>(tri: seq<int>, nidx: seq<int>, normals: seq<T>, rows: seq<T>, n: nat): (r: seq<T>)
    requires n <= Corners(tri, nidx) && ValidCorners(tri, nidx, normals, |rows|)
    ensures |r| == |rows|
  {
    if n == 0 then rows
    else Scatter(tri, nidx, normals, rows, n - 1)[Wrap(tri[n - 1], |rows|) := normals[Wrap(nidx[n - 1], |normals|)]]
  }

  /** Corner index `i` designates vertex `v`. */
  predicate Refers(i: int, vertexNum: nat, v: nat) {
    InRange(i, vertexNum) && Wrap(i, vertexNum) == v
  }

  /** The last of the first `n` corners that designates vertex `v`, if any does. */
  function LastCorner(tri: seq<int>, vertexNum: nat, n: nat, v: nat): (r: Option<nat>)
    requires n <= |tri|
    ensures r.Some? ==> r.value < n && Refers(tri[r.value], vertexNum, v)
    ensures r.Some? ==> forall k :: r.value < k < n ==> !Refers(tri[k], vertexNum, v)
    ensures r.None? ==> forall k :: 0 <= k < n ==> !Refers(tri[k], vertexNum, v)
  {
    if n == 0 then None
    else if Refers(tri[n - 1], vertexNum, v) then Some(n - 1)
    else LastCorner(tri, vertexNum, n - 1, v)
  }

  /**
   * Row `v` of the scattered array is the normal of the last corner that
   * designates `v` (later corners overwrite earlier ones); a row no corner
   * designates keeps its initial contents.
   */
  lemma {:induction false} ScatterRow<T>(tri: seq<int>, nidx: seq<int>, normals: seq<T>, rows: seq<T>, n: nat, v: nat)
    requires n <= Corners(tri, nidx) && ValidCorners(tri, nidx, normals, |rows|)
    requires v < |rows|
    ensures Scatter(tri, nidx, normals, rows, n)[v] ==
              match LastCorner(tri, |rows|, n, v)
              case Some(k) => normals[Wrap(nidx[k], |normals|)]
              case None => rows[v]
  {
    if n > 0 && !Refers(tri[n - 1], |rows|, v) {
      ScatterRow(tri, nidx, normals, rows, n - 1, v);
    }
  }

  /**
   * `normal_array_kernel`: a fresh array of `vertexNum` rows, filled by
   * copying `normals[nidx[k]]` into row `tri[k]` for every corner `k`.
   * `np.empty` promises nothing about the rows' first contents, so they are
   * an arbitrary `init`, row by row.
   */
  method NormalArray<T>(tri: array<int>, nidx: array<int>, normals: array<T>, vertexNum: nat, init: seq<T>)
    returns (rows: array<T>)
    requires |init| == vertexNum
    requires ValidCorners(tri[..], nidx[..], normals[..], vertexNum)
    ensures fresh(rows) && rows.Length == vertexNum
    ensures rows[..] == Scatter(tri[..], nidx[..], normals[..], init, Corners(tri[..], nidx[..]))
  {
    rows := new T[vertexNum](i requires 0 <= i < vertexNum => init[i]);
    var n := if tri.Length <= nidx.Length then tri.Length else nidx.Length;
    for k := 0 to n
      invariant rows[..] == Scatter(tri[..], nidx[..], normals[..], init, k)
    {
      rows[Wrap(tri[k], vertexNum)] := normals[Wrap(nidx[k], normals.Length)];
    }
  }

  // ---------------------------------------------------------------------
  // ccw_check_kernel

  /** Triangle `j` of a flat list: its corners index `nv` vertices, its first corner `nn` normals. */
  predicate TriangleInRange(tri: seq<int>, j: nat, nv: nat, nn: nat)
    requires 3 * j + 3 <= |tri|
  {
    InRange(tri[3 * j], nv) && InRange(tri[3 * j + 1], nv) && InRange(tri[3 * j + 2], nv) && InRange(tri[3 * j], nn)
  }

  /** A flat list of whole triangles, each in range. */
  predicate ValidTriangles(tri: seq<int>, nv: nat, nn: nat) {
    && |tri| % 3 == 0
    && forall j :: 0 <= j < |tri| && 3 * j + 3 <= |tri| ==> TriangleInRange(tri, j, nv, nn)
  }

  /** The three entries of triangle `j`. */
  function Triangle(tri: seq<int>, j: nat): (t: seq<int>)
    requires 3 * j + 3 <= |tri|
    ensures t == [tri[3 * j], tri[3 * j + 1], tri[3 * j + 2]]
  {
    tri[3 * j..3 * j + 3]
  }

  /** `dot(cross(p1 - p0, p2 - p0), n)`: positive for counter-clockwise winding seen along `n`. */
  function Orientation(verts: seq<Vec3>, i0: int, i1: int, i2: int, n: Vec3): int
    requires InRange(i0, |verts|) && InRange(i1, |verts|) && InRange(i2, |verts|)
  {
    var p0, p1, p2 := verts[Wrap(i0, |verts|)], verts[Wrap(i1, |verts|)], verts[Wrap(i2, |verts|)];
    Dot(Cross(Sub(p1, p0), Sub(p2, p0)), n)
  }

  /** The kernel's test: the winding disagrees with the normal of the first vertex. */
  predicate Clockwise(verts: seq<Vec3>, normals: seq<Vec3>, i0: int, i1: int, i2: int)
    requires InRange(i0, |verts|) && InRange(i1, |verts|) && InRange(i2, |verts|) && InRange(i0, |normals|)
    ensures Clockwise(verts, normals, i0, i1, i2) <==> Orientation(verts, i1, i0, i2, normals[Wrap(i0, |normals|)]) > 0
  {
    SwapNegates(verts, i0, i1, i2, normals[Wrap(i0, |normals|)]);
    Orientation(verts, i0, i1, i2, normals[Wrap(i0, |normals|)]) < 0
  }

  /** Triangle `t` with its first two indices swapped when `swap` holds. */
  function SwapFirstTwo(t: seq<int>, swap: bool): (r: seq<int>)
    requires |t| == 3
    ensures |r| == 3
  {
    if swap then [t[1], t[0], t[2]] else t
  }

  /** The first `k` triangles of `tri`, triangle `j` passed through `SwapFirstTwo` with `swap[j]`. */
  function SwapEach(tri: seq<int>, swap: seq<bool>, k: nat): (r: seq<int>)
    requires 3 * k <= |tri| && k <= |swap|
    ensures |r| == 3 * k
  {
    if k == 0 then [] else SwapEach(tri, swap, k - 1) + SwapFirstTwo(Triangle(tri, k - 1), swap[k - 1])
  }

  /** Triangle `j` of the rebuilt prefix is triangle `j` of the input, treated on its own. */
  lemma {:induction false} SwapEachTriangle(tri: seq<int>, swap: seq<bool>, k: nat, j: nat)
    requires 3 * k <= |tri| && k <= |swap| && j < k
    ensures Triangle(SwapEach(tri, swap, k), j) == SwapFirstTwo(Triangle(tri, j), swap[j])
  {
    var r := SwapEach(tri, swap, k);
    var prev := SwapEach(tri, swap, k - 1);
    var last := SwapFirstTwo(Triangle(tri, k - 1), swap[k - 1]);
    assert r == prev + last;
    if j < k - 1 {
      SwapEachTriangle(tri, swap, k - 1, j);
      assert r[3 * j] == prev[3 * j] && r[3 * j + 1] == prev[3 * j + 1] && r[3 * j + 2] == prev[3 * j + 2];
    } else {
      assert Triangle(r, j) == last;
    }
  }

  /** The kernel's test, triangle by triangle. */
  function ClockwiseFlags(verts: seq<Vec3>, normals: seq<Vec3>, tri: seq<int>): (r: seq<bool>)
    requires ValidTriangles(tri, |verts|, |normals|)
    ensures |r| == |tri| / 3
  {
    seq(|tri| / 3, j requires 0 <= j < |tri| / 3 =>
      assert TriangleInRange(tri, j, |verts|, |normals|);
      Clockwise(verts, normals, tri[3 * j], tri[3 * j + 1], tri[3 * j + 2]))
  }

  /** The whole triangle list after the check. */
  function FixWinding(verts: seq<Vec3>, normals: seq<Vec3>, tri: seq<int>): (r: seq<int>)
    requires ValidTriangles(tri, |verts|, |normals|)
    ensures |r| == |tri|
  {
    SwapEach(tri, ClockwiseFlags(verts, normals, tri), |tri| / 3)
  }

  /**
   * What the check does to triangle `j`: the third index never changes; the
   * first two are swapped exactly when the original triangle is clockwise
   * with respect to the normal of its first vertex (a zero product keeps
   * them), and are otherwise kept.
   */
  lemma FixWindingSwapsIffClockwise(verts: seq<Vec3>, normals: seq<Vec3>, tri: seq<int>, j: nat)
    requires ValidTriangles(tri, |verts|, |normals|) && 3 * j + 3 <= |tri|
    ensures TriangleInRange(tri, j, |verts|, |normals|)
    ensures var r := FixWinding(verts, normals, tri);
            && r[3 * j + 2] == tri[3 * j + 2]
            && (if Clockwise(verts, normals, tri[3 * j], tri[3 * j + 1], tri[3 * j + 2])
                then r[3 * j] == tri[3 * j + 1] && r[3 * j + 1] == tri[3 * j]
                else r[3 * j] == tri[3 * j] && r[3 * j + 1] == tri[3 * j + 1])
  {
    assert TriangleInRange(tri, j, |verts|, |normals|);
    SwapEachTriangle(tri, ClockwiseFlags(verts, normals, tri), |tri| / 3, j);
  }

  /** Every triangle keeps its three vertex indices: the check only reorders them. */
  lemma FixWindingKeepsVertices(verts: seq<Vec3>, normals: seq<Vec3>, tri: seq<int>, j: nat)
    requires ValidTriangles(tri, |verts|, |normals|) && 3 * j + 3 <= |tri|
    ensures multiset(Triangle(FixWinding(verts, normals, tri), j)) == multiset(Triangle(tri, j))
  {
    FixWindingSwapsIffClockwise(verts, normals, tri, j);
  }

  /** One component of the cross product changes sign when the first two corners are swapped. */
  lemma DeterminantSwap(a0: int, a1: int, b0: int, b1: int, c0: int, c1: int)
    ensures (a0 - b0) * (c1 - b1) - (a1 - b1) * (c0 - b0) == -((b0 - a0) * (c1 - a1) - (b1 - a1) * (c0 - a0))
  {
    var u0, u1, w0, w1 := b0 - a0, b1 - a1, c0 - a0, c1 - a1;
    assert (a0 - b0) * (c1 - b1) == -(u0 * w1) + u0 * u1;
    assert (a1 - b1) * (c0 - b0) == -(u1 * w0) + u1 * u0;
  }

  /** The normal of the swapped triangle is the negated normal. */
  lemma CrossSwap(p0: Vec3, p1: Vec3, p2: Vec3)
    ensures var c := Cross(Sub(p1, p0), Sub(p2, p0));
            Cross(Sub(p0, p1), Sub(p2, p1)) == Vec3(-c.x, -c.y, -c.z)
  {
    CrossIsProduct(Sub(p1, p0), Sub(p2, p0));
    CrossIsProduct(Sub(p0, p1), Sub(p2, p1));
    DeterminantSwap(p0.y, p0.z, p1.y, p1.z, p2.y, p2.z);
    DeterminantSwap(p0.z, p0.x, p1.z, p1.x, p2.z, p2.x);
    DeterminantSwap(p0.x, p0.y, p1.x, p1.y, p2.x, p2.y);
  }

  /** Negating one side negates the dot product. */
  lemma DotNegate(c: Vec3, n: Vec3)
    ensures Dot(Vec3(-c.x, -c.y, -c.z), n) == -Dot(c, n)
  {
    DotIsProduct(c, n);
    DotIsProduct(Vec3(-c.x, -c.y, -c.z), n);
  }

  /** Swapping the first two corners negates the orientation. */
  lemma SwapNegates(verts: seq<Vec3>, i0: int, i1: int, i2: int, n: Vec3)
    requires InRange(i0, |verts|) && InRange(i1, |verts|) && InRange(i2, |verts|)
    ensures Orientation(verts, i1, i0, i2, n) == -Orientation(verts, i0, i1, i2, n)
  {
    var p0, p1, p2 := verts[Wrap(i0, |verts|)], verts[Wrap(i1, |verts|)], verts[Wrap(i2, |verts|)];
    CrossSwap(p0, p1, p2);
    DotNegate(Cross(Sub(p1, p0), Sub(p2, p0)), n);
  }

  /**
   * After the check every triangle winds counter-clockwise (or degenerately)
   * with respect to the normal of the vertex that came first in the input.
   */
  lemma FixWindingCounterClockwise(verts: seq<Vec3>, normals: seq<Vec3>, tri: seq<int>, j: nat)
    requires ValidTriangles(tri, |verts|, |normals|) && 3 * j + 3 <= |tri|
    ensures TriangleInRange(tri, j, |verts|, |normals|)
    ensures var r := FixWinding(verts, normals, tri);
            && InRange(r[3 * j], |verts|) && InRange(r[3 * j + 1], |verts|) && InRange(r[3 * j + 2], |verts|)
            && Orientation(verts, r[3 * j], r[3 * j + 1], r[3 * j + 2], normals[Wrap(tri[3 * j], |normals|)]) >= 0
  {
    FixWindingSwapsIffClockwise(verts, normals, tri, j);
    SwapNegates(verts, tri[3 * j], tri[3 * j + 1], tri[3 * j + 2], normals[Wrap(tri[3 * j], |normals|)]);
  }

  /** Stepping by three from a multiple of three never runs past a length that is a multiple of three. */
  lemma WholeTriangleAhead(j: nat, n: nat)
    requires n % 3 == 0 && 3 * j < n
    ensures 3 * j + 3 <= n
  {
  }

  /**
   * One iteration of `ccw_check_kernel`: the triangle starting at `tri[i]`
   * has its first two indices swapped when it is clockwise; nothing else
   * changes.
   */
  method FixTriangleAt(tri: array<int>, i: nat, verts: array<Vec3>, normals: array<Vec3>)
    requires i + 3 <= tri.Length
    requires InRange(tri[i], verts.Length) && InRange(tri[i + 1], verts.Length) && InRange(tri[i + 2], verts.Length)
    requires InRange(tri[i], normals.Length)
    modifies tri
    ensures if Clockwise(verts[..], normals[..], old(tri[i]), old(tri[i + 1]), old(tri[i + 2]))
            then tri[i] == old(tri[i + 1]) && tri[i + 1] == old(tri[i])
            else tri[i] == old(tri[i]) && tri[i + 1] == old(tri[i + 1])
    ensures forall k :: 0 <= k < tri.Length && k != i && k != i + 1 ==> tri[k] == old(tri[k])
  {
    var i0, i1, i2 := tri[i], tri[i + 1], tri[i + 2];
    var p0, p1, p2 := verts[Wrap(i0, verts.Length)], verts[Wrap(i1, verts.Length)], verts[Wrap(i2, verts.Length)];
    var n := Cross(Sub(p1, p0), Sub(p2, p0));
    if Dot(n, normals[Wrap(i0, normals.Length)]) < 0 {
      tri[i], tri[i + 1] := i1, i0;
    }
  }

  /**
   * `ccw_check_kernel`: walks the triangle list three entries at a time and
   * swaps the first two indices of every clockwise triangle, in place. The
   * vertex and normal arrays are only read.
   */
  method FixWindingInPlace(tri: array<int>, verts: array<Vec3>, normals: array<Vec3>)
    requires ValidTriangles(tri[..], verts.Length, normals.Length)
    modifies tri
    ensures tri[..] == FixWinding(verts[..], normals[..], old(tri[..]))
    ensures verts[..] == old(verts[..]) && normals[..] == old(normals[..])
  {
    ghost var orig, vs, ns := tri[..], verts[..], normals[..];
    ghost var fixed := FixWinding(vs, ns, orig);
    ghost var j := 0;
    var i := 0;
    while i < tri.Length
      invariant 0 <= i <= tri.Length && i == 3 * j && tri.Length % 3 == 0
      invariant verts[..] == vs && normals[..] == ns
      invariant forall k :: 0 <= k < i ==> tri[k] == fixed[k]
      invariant forall k :: i <= k < tri.Length ==> tri[k] == orig[k]
    {
      WholeTriangleAhead(j, tri.Length);
      FixWindingSwapsIffClockwise(vs, ns, orig, j);
      ghost var before := tri[..];
      FixTriangleAt(tri, i, verts, normals);
      forall k | 0 <= k < i + 3
        ensures tri[k] == fixed[k]
      {
        if k < i {
          assert tri[k] == before[k];
        } else {
          assert before[i] == orig[i] && before[i + 1] == orig[i + 1] && before[i + 2] == orig[i + 2];
        }
      }
      i, j := i + 3, j + 1;
    }
    assert tri[..] == fixed;
  }
}
