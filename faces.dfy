/**
 * The face rewrite of the OBJ loader in naive_bvh/main.cpp: each face line
 * gives four corners, each a position, a texture-coordinate and a normal
 * index. The loader swaps the last two corners of each of the three index
 * quadruples and appends them to the face list 0-based, positions first,
 * then texture coordinates, then normals.
 *
 * Indices are `int32_t`: the decrement overflows only at the smallest
 * value, which the caller must not pass.
 */
module ObjFaces {

  type Int32 = x: int | -0x8000_0000 <= x < 0x8000_0000

  /** The four corners' indices into one attribute list. */
  type Quad = s: seq<Int32> | |s| == 4 witness [0, 0, 0, 0]

  /** The corner stored at position `j` of a rewritten quadruple: the last two trade places. */
  function Corner(j: nat): nat {
    if j == 2 then 3 else if j == 3 then 2 else j
  }

  /** Every index of `q` can be decremented without leaving `int32_t`. */
  predicate Decrementable(q: Quad) {
    forall j :: 0 <= j < 4 ==> q[j] > -0x8000_0000
  }

  /** Every index of `q` can be incremented without leaving `int32_t`. */
  predicate Incrementable(q: seq<Int32>) {
    forall j :: 0 <= j < |q| ==> q[j] < 0x7FFF_FFFF
  }

  /** `q` with its last two corners swapped and made 0-based. */
  function Rewrite(q: Quad): Quad
    requires Decrementable(q)
  {
    seq(4, j requires 0 <= j < 4 => q[Corner(j)] - 1)
  }

  /** The twelve entries a face line appends. */
  function FaceEntries(vi: Quad, ti: Quad, ni: Quad): seq<Int32>
    requires Decrementable(vi) && Decrementable(ti) && Decrementable(ni)
  {
    Rewrite(vi) + Rewrite(ti) + Rewrite(ni)
  }

  /**
   * Entry `4 * a + j` is corner `Corner(j)` of quadruple `a` (positions,
   * texture coordinates, normals), made 0-based.
   */
  lemma FaceLayout(vi: Quad, ti: Quad, ni: Quad)
    requires Decrementable(vi) && Decrementable(ti) && Decrementable(ni)
    ensures |FaceEntries(vi, ti, ni)| == 12
    ensures forall j :: 0 <= j < 4 ==>
              && FaceEntries(vi, ti, ni)[j] == vi[Corner(j)] - 1
              && FaceEntries(vi, ti, ni)[4 + j] == ti[Corner(j)] - 1
              && FaceEntries(vi, ti, ni)[8 + j] == ni[Corner(j)] - 1
  {
    var e := FaceEntries(vi, ti, ni);
    forall j | 0 <= j < 4
      ensures e[j] == vi[Corner(j)] - 1 && e[4 + j] == ti[Corner(j)] - 1 && e[8 + j] == ni[Corner(j)] - 1
    {
      assert e[j] == Rewrite(vi)[j];
      assert e[4 + j] == Rewrite(ti)[j];
      assert e[8 + j] == Rewrite(ni)[j];
    }
  }

  /** The inverse of `Rewrite`: swap back and make 1-based again. */
  function Restore(r: Quad): Quad
    requires Incrementable(r)
  {
    seq(4, j requires 0 <= j < 4 => r[Corner(j)] + 1)
  }

  /** Rewriting a quadruple loses nothing: restoring it gives the original back. */
  lemma RestoreRewrite(q: Quad)
    requires Decrementable(q)
    ensures Incrementable(Rewrite(q)) && Restore(Rewrite(q)) == q
  {
    var r := Rewrite(q);
    assert forall j :: 0 <= j < 4 ==> Corner(Corner(j)) == j;
    assert forall j :: 0 <= j < 4 ==> Restore(r)[j] == r[Corner(j)] + 1 == q[j];
  }

  /** Every 0-based quadruple is the rewrite of exactly one face quadruple. */
  lemma RewriteRestore(r: Quad)
    requires Incrementable(r)
    ensures Decrementable(Restore(r)) && Rewrite(Restore(r)) == r
  {
    var q := Restore(r);
    assert forall j :: 0 <= j < 4 ==> Corner(Corner(j)) == j;
    assert forall j :: 0 <= j < 4 ==> Rewrite(q)[j] == q[Corner(j)] - 1 == r[j];
  }

  /** The three quadruples of a face line, recovered from the twelve entries it appended. */
  function RestoreFace(e: seq<Int32>): (Quad, Quad, Quad)
    requires |e| == 12 && Incrementable(e)
  {
    (Restore(e[0..4]), Restore(e[4..8]), Restore(e[8..12]))
  }

  /** The face list determines the face line: `RestoreFace` undoes `FaceEntries`. */
  lemma RestoreFaceEntries(vi: Quad, ti: Quad, ni: Quad)
    requires Decrementable(vi) && Decrementable(ti) && Decrementable(ni)
    ensures |FaceEntries(vi, ti, ni)| == 12 && Incrementable(FaceEntries(vi, ti, ni))
    ensures RestoreFace(FaceEntries(vi, ti, ni)) == (vi, ti, ni)
  {
    var e := FaceEntries(vi, ti, ni);
    RestoreRewrite(vi);
    RestoreRewrite(ti);
    RestoreRewrite(ni);
    assert e[0..4] == Rewrite(vi) && e[4..8] == Rewrite(ti) && e[8..12] == Rewrite(ni);
  }

  /** Any twelve entries that can be made 1-based come from a face line. */
  lemma FaceEntriesRestoreFace(e: seq<Int32>)
    requires |e| == 12 && Incrementable(e)
    ensures var (vi, ti, ni) := RestoreFace(e);
            Decrementable(vi) && Decrementable(ti) && Decrementable(ni) && FaceEntries(vi, ti, ni) == e
  {
    RewriteRestore(e[0..4]);
    RewriteRestore(e[4..8]);
    RewriteRestore(e[8..12]);
    assert e == e[0..4] + e[4..8] + e[8..12];
  }

  /** Appends the decremented indices of `q` to `face`, one by one. */
  method PushDecremented(face: seq<Int32>, q: Quad) returns (result: seq<Int32>)
    requires Decrementable(q)
    ensures result == face + seq(4, j requires 0 <= j < 4 => q[j] - 1)
  {
    result := face;
    for j := 0 to 4
      invariant result == face + seq(j, k requires 0 <= k < j => q[k] - 1)
    {
      result := result + [q[j] - 1];
    }
  }

  /** One face line: swaps the last two corners of each quadruple and appends them 0-based. */
  method AppendFace(face: seq<Int32>, vi: Quad, ti: Quad, ni: Quad) returns (result: seq<Int32>)
    requires Decrementable(vi) && Decrementable(ti) && Decrementable(ni)
    ensures result == face + FaceEntries(vi, ti, ni)
  {
    var v, t, n := vi, ti, ni;
    v := v[2 := vi[3]][3 := vi[2]];
    t := t[2 := ti[3]][3 := ti[2]];
    n := n[2 := ni[3]][3 := ni[2]];
    assert v == seq(4, j requires 0 <= j < 4 => vi[Corner(j)]);
    assert t == seq(4, j requires 0 <= j < 4 => ti[Corner(j)]);
    assert n == seq(4, j requires 0 <= j < 4 => ni[Corner(j)]);
    result := PushDecremented(face, v);
    result := PushDecremented(result, t);
    result := PushDecremented(result, n);
    assert seq(4, j requires 0 <= j < 4 => v[j] - 1) == Rewrite(vi);
    assert seq(4, j requires 0 <= j < 4 => t[j] - 1) == Rewrite(ti);
    assert seq(4, j requires 0 <= j < 4 => n[j] - 1) == Rewrite(ni);
  }
}
