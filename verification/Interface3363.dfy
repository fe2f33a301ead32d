/** The entry points of the Ed3363 engine, on words and bytes of the caller. The coordinates that
    they compute are right; the words that they store stand for them exactly where the store,
    which does not normalise, meets limbs that it can pack. */
module Interface3363 {
  import opened PrimeField
  import opened Edwards
  import opened Formulas
  import opened Multiples
  import Limbs1174
  import opened Limbs3363
  import Codec1174
  import opened Codec3363
  import opened Field3363
  import opened Points3363
  import opened Recoding
  import opened Scalar3363

  type int64 = Limbs1174.int64
  type uint64 = Codec1174.uint64

  /** A coordinate as the caller passes it: below 2^336, congruent to v. */
  ghost predicate Coordinate(a: array<uint64>, v: int)
    requires a.Length == 6
    reads a
  {
    WV6(W6(a)) < TOP && Eq(WV6(W6(a)), v, Q)
  }

  /** Words below 2^336 that denote coordinates (X : Y : Z) of the point a. */
  ghost predicate Projects(x: Words6, y: Words6, z: Words6, a: Aff) {
    WV6(x) < TOP && WV6(y) < TOP && WV6(z) < TOP && Rep(C, WV6(x), WV6(y), WV6(z), a)
  }

  ghost predicate Projective(ptx: array<uint64>, pty: array<uint64>, ptz: array<uint64>, a: Aff)
    requires ptx.Length == 6 && pty.Length == 6 && ptz.Length == 6
    reads ptx, pty, ptz
  {
    Projects(W6(ptx), W6(pty), W6(ptz), a)
  }

  /** The limbs of a result before they are stored. */
  datatype Coords = Coords(x: Fe6, y: Fe6, z: Fe6)

  /** Reduced limbs that stand for the point a. */
  ghost predicate Stands(c: Coords, a: Aff) {
    Tight6(c.x) && Tight6(c.y) && Tight6(c.z) && Rep(C, V6(c.x), V6(c.y), V6(c.z), a)
  }

  /** What gstore leaves in the caller's words. */
  ghost predicate Packed(ptx: array<uint64>, pty: array<uint64>, ptz: array<uint64>, c: Coords)
    requires ptx.Length == 6 && pty.Length == 6 && ptz.Length == 6
    reads ptx, pty, ptz
  {
    W6(ptx) == PackWords6(c.x) && W6(pty) == PackWords6(c.y) && W6(ptz) == PackWords6(c.z)
  }

  // ---------------------------------------------------------------- what a stored point denotes

  /** A storable element is stored as a number below 2^336 congruent to it. */
  lemma StoredBelow(f: Fe6)
    requires Tight6(f) && Storable(f)
    ensures 0 <= WV6(PackWords6(f)) < TOP
  {
    hide WV6, PackWords6, Slip;
    PackCorrect6(f);
    SlipZero(f);
    StorableRange(f);
  }

  lemma StorableRange(f: Fe6)
    requires Tight6(f) && Storable(f)
    ensures 0 <= V6(f) < TOP
  {
  }

  /** The stored triple denotes the computed point where all three limbs 0 are storable; and
      where Z is, only there. */
  lemma StoredPoint(c: Coords, a: Aff)
    requires Stands(c, a)
    ensures Storable(c.x) && Storable(c.y) && Storable(c.z) ==>
      Projects(PackWords6(c.x), PackWords6(c.y), PackWords6(c.z), a)
    ensures Projects(PackWords6(c.x), PackWords6(c.y), PackWords6(c.z), a) && Storable(c.z) ==>
      Storable(c.x) && Storable(c.y)
  {
    hide WV6, V6, PackWords6, Storable, Eq, Rep, Tight6;
    StoredIff(c.x);
    StoredIff(c.y);
    StoredIff(c.z);
    if Storable(c.z) {
      RepSame(C, a, V6(c.x), V6(c.y), V6(c.z), WV6(PackWords6(c.x)), WV6(PackWords6(c.y)), WV6(PackWords6(c.z)));
      StoredBelow(c.z);
      if Storable(c.x) { StoredBelow(c.x); }
      if Storable(c.y) { StoredBelow(c.y); }
    }
  }

  // ---------------------------------------------------------------- fetch and store

  method Fetch(a: array<uint64>) returns (f: Fe6)
    requires a.Length == 6
    ensures 0 <= Mag6(f) <= 0x100000000100000
    ensures WV6(W6(a)) < TOP ==> V6(f) == WV6(W6(a))
  {
    hide WV6, V6, Mag6, FetchFe6, Tight6;
    var w := new int64[6];
    GFetch6(a, w);
    f := L6(w);
    DigitsTight(f);
    TightMag6(f);
    WordsNonNegative(W6(a));
    SmallResidue(WV6(W6(a)), TOP);
  }

  lemma DigitsTight(f: Fe6)
    ensures Digits6(f) ==> Tight6(f)
  {
  }

  lemma WordsNonNegative(w: Words6)
    requires Proper6(w)
    ensures WV6(w) >= 0
  {
  }

  lemma SmallResidue(n: int, m: int)
    requires m > 0 && n >= 0
    ensures n < m ==> n % m == n
  {
  }

  method Store(f: Fe6, a: array<uint64>)
    requires a.Length == 6 && Tight6(f)
    modifies a
    ensures W6(a) == PackWords6(f)
  {
    hide WV6, V6, PackWords6, NormFe6, Tight6, Storable, Eq;
    TightWithin(f);
    var w := new int64[6];
    w[0], w[1], w[2], w[3], w[4], w[5] := f.a0, f.a1, f.a2, f.a3, f.a4, f.a5;
    GStore6(w, a);
  }

  lemma TightWithin(f: Fe6)
    requires Tight6(f)
    ensures Within6(f, 0x4000_0000_0000_0000)
  {
  }

  /** Store all three coordinates. */
  method StorePoint(c: Coords, ptx: array<uint64>, pty: array<uint64>, ptz: array<uint64>, ghost a: Aff)
    requires ptx.Length == 6 && pty.Length == 6 && ptz.Length == 6 && ptx != pty && ptx != ptz && pty != ptz
    requires Stands(c, a)
    modifies ptx, pty, ptz
    ensures Packed(ptx, pty, ptz, c)
    ensures Storable(c.z) ==> (Projective(ptx, pty, ptz, a) <==> Storable(c.x) && Storable(c.y))
  {
    StoredPoint(c, a);
    hide V6, WV6, Tight6, Rep, Storable, PackWords6, Projects;
    Store(c.x, ptx);
    Store(c.y, pty);
    Store(c.z, ptz);
  }

  // ---------------------------------------------------------------- the entry points

  /** Ed3363_affine_mul: n times the affine point (x, y), in projective coordinates. */
  method AffineMul(ptx: array<uint64>, pty: array<uint64>, ptz: array<uint64>, nv: array<byte>, ghost a: Aff)
    returns (ghost c: Coords)
    requires ptx.Length == 6 && pty.Length == 6 && ptz.Length == 6 && ptx != pty && ptx != ptz && pty != ptz
    requires nv.Length == 42 && Recodable(Bytes(nv[..]), 84)
    requires Sound(C) && Associative(C) && On(C, a) && Coordinate(ptx, a.x) && Coordinate(pty, a.y)
    modifies ptx, pty, ptz
    ensures Stands(c, Times(C, Bytes(old(nv[..])), a)) && Packed(ptx, pty, ptz, c)
    ensures Storable(c.z) ==>
      (Projective(ptx, pty, ptz, Times(C, Bytes(old(nv[..])), a)) <==> Storable(c.x) && Storable(c.y))
  {
    hide WV6, V6, Mag6, Eq, Rep, RepT, Sound, On, Times, Bytes, Horner, Recodable, Projective, Tight6, Storable, Packed;
    var w := Recode(nv);
    var px := Fetch(ptx);
    var py := Fetch(pty);
    var p := new ECp();
    p.Init(px, py, a);
    MulToProj(w, p, a);
    var r := Coords(p.x, p.y, p.z);
    StorePoint(r, ptx, pty, ptz, Times(C, Bytes(nv[..]), a));
    c := r;
  }

  /** Ed3363_projective_mul: n times the projective point, normalised first. */
  method ProjectiveMul(ptx: array<uint64>, pty: array<uint64>, ptz: array<uint64>, nv: array<byte>, ghost a: Aff)
    returns (ghost c: Coords)
    requires ptx.Length == 6 && pty.Length == 6 && ptz.Length == 6 && ptx != pty && ptx != ptz && pty != ptz
    requires nv.Length == 42 && Recodable(Bytes(nv[..]), 84)
    requires Sound(C) && Associative(C) && On(C, a) && Projective(ptx, pty, ptz, a)
    modifies ptx, pty, ptz
    ensures Stands(c, Times(C, Bytes(old(nv[..])), a)) && Packed(ptx, pty, ptz, c)
    ensures Storable(c.z) ==>
      (Projective(ptx, pty, ptz, Times(C, Bytes(old(nv[..])), a)) <==> Storable(c.x) && Storable(c.y))
  {
    hide WV6, V6, Mag6, Eq, RepT, On, Times, Bytes, Horner, Recodable, Tight6, PrimeField.Pow, IsPrime, Storable,
      Packed;
    var w := Recode(nv);
    var px := Fetch(ptx);
    var py := Fetch(pty);
    var pz := Fetch(ptz);
    px, py := NormZ(px, py, pz, a);
    var p := new ECp();
    hide Rep, Projective, Sound;
    p.Init(px, py, a);
    MulToProj(w, p, a);
    var r := Coords(p.x, p.y, p.z);
    StorePoint(r, ptx, pty, ptz, Times(C, Bytes(nv[..]), a));
    c := r;
  }

  /** normz: the affine coordinates. */
  method NormZ(px: Fe6, py: Fe6, pz: Fe6, ghost a: Aff) returns (x: Fe6, y: Fe6)
    requires 0 <= Mag6(px) <= 0x100000000100000 && 0 <= Mag6(py) <= 0x100000000100000
    requires 0 <= Mag6(pz) <= 0x100000000100000 && Sound(C) && Rep(C, V6(px), V6(py), V6(pz), a)
    ensures Tight6(x) && Tight6(y) && Eq(V6(x), a.x, Q) && Eq(V6(y), a.y, Q)
    ensures 0 <= Mag6(x) <= 0x100000000100000 && 0 <= Mag6(y) <= 0x100000000100000
  {
    hide V6, Mag6, Eq, Tight6, PrimeField.Pow, IsPrime, Loose6;
    LooseMag6(pz);
    var w := GInv6(pz);
    TightMag6(w);
    NormRep(C, a, V6(px), V6(py), V6(pz), 0, V6(w));
    x := Affine(px, w, a.x);
    y := Affine(py, w, a.y);
    TightMag6(x);
    TightMag6(y);
  }

  /** Ed3363_projective_add: the first point becomes the sum. */
  method ProjectiveAdd(p1x: array<uint64>, p1y: array<uint64>, p1z: array<uint64>,
    p2x: array<uint64>, p2y: array<uint64>, p2z: array<uint64>, ghost a: Aff, ghost b: Aff)
    returns (ghost c: Coords)
    requires p1x.Length == 6 && p1y.Length == 6 && p1z.Length == 6 && p1x != p1y && p1x != p1z && p1y != p1z
    requires p2x.Length == 6 && p2y.Length == 6 && p2z.Length == 6
    requires Sound(C) && On(C, a) && On(C, b) && Projective(p1x, p1y, p1z, a) && Projective(p2x, p2y, p2z, b)
    modifies p1x, p1y, p1z
    ensures Stands(c, Add(C, a, b)) && Packed(p1x, p1y, p1z, c)
    ensures Storable(c.z) ==> (Projective(p1x, p1y, p1z, Add(C, a, b)) <==> Storable(c.x) && Storable(c.y))
  {
    hide WV6, V6, Mag6, Eq, Rep, On, Add, Sound, Tight6, Storable, Packed;
    var p := new ECp();
    var q := new ECp();
    p.x := Fetch(p1x);
    p.y := Fetch(p1y);
    p.z := Fetch(p1z);
    q.x := Fetch(p2x);
    q.y := Fetch(p2y);
    q.z := Fetch(p2z);
    p.AddProj(q, a, b);
    var r := Coords(p.x, p.y, p.z);
    StorePoint(r, p1x, p1y, p1z, Add(C, a, b));
    c := r;
  }

  /** Ed3363_to_affine: the words of x and y are the affine coordinates exactly where the limbs of the
      quotient are storable and denote a number below p; z becomes 1/z under the same condition. */
  method ToAffine(ptx: array<uint64>, pty: array<uint64>, ptz: array<uint64>, ghost a: Aff)
    returns (ghost c: Coords)
    requires ptx.Length == 6 && pty.Length == 6 && ptz.Length == 6 && ptx != pty && ptx != ptz && pty != ptz
    requires Sound(C) && On(C, a) && Projective(ptx, pty, ptz, a)
    modifies ptx, pty, ptz
    ensures Tight6(c.x) && Tight6(c.y) && Tight6(c.z) && Packed(ptx, pty, ptz, c)
    ensures Eq(V6(c.x), a.x, Q) && Eq(V6(c.y), a.y, Q) && Eq(old(WV6(W6(ptz))) * V6(c.z), 1, Q)
    ensures WV6(W6(ptx)) == a.x <==> Storable(c.x) && V6(c.x) < Q
    ensures WV6(W6(pty)) == a.y <==> Storable(c.y) && V6(c.y) < Q
    ensures Eq(old(WV6(W6(ptz))) * WV6(W6(ptz)), 1, Q) <==> Storable(c.z)
  {
    hide WV6, V6, Mag6, Eq, CurveEq, Tight6, PrimeField.Pow, IsPrime, Loose6, Storable, PackWords6, Packed;
    var px := Fetch(ptx);
    var py := Fetch(pty);
    var pz := Fetch(ptz);
    ghost var X, Y, Z := V6(px), V6(py), V6(pz);
    LooseMag6(pz);
    pz := GInv6(pz);
    TightMag6(pz);
    NormRep(C, a, X, Y, Z, 0, V6(pz));
    var tx := Quotient(pz, px, a.x);
    Store(tx, ptx);
    var ty := Quotient(pz, py, a.y);
    Store(ty, pty);
    Store(pz, ptz);
    c := Coords(tx, ty, pz);
    StoredResidue(tx, a.x);
    StoredResidue(ty, a.y);
    StoredInverse(pz, Z);
    assert Packed(ptx, pty, ptz, c) by { PackedIs(ptx, pty, ptz, c); }
  }

  lemma PackedIs(ptx: array<uint64>, pty: array<uint64>, ptz: array<uint64>, c: Coords)
    requires ptx.Length == 6 && pty.Length == 6 && ptz.Length == 6
    requires W6(ptx) == PackWords6(c.x) && W6(pty) == PackWords6(c.y) && W6(ptz) == PackWords6(c.z)
    ensures Packed(ptx, pty, ptz, c)
  {
  }

  /** gmul(pz, v, t). */
  method Quotient(w: Fe6, v: Fe6, ghost r: int) returns (t: Fe6)
    requires 0 <= Mag6(v) <= 0x100000000100000 && 0 <= Mag6(w) <= 0x100000000100000
    requires Eq(V6(v) * V6(w), r, Q)
    ensures Tight6(t) && Eq(V6(t), r, Q)
  {
    hide V6, Mag6, Eq, Tight6;
    t := Product6(w, v);
    assert V6(v) * V6(w) == V6(w) * V6(v);
    EqTrans(V6(t), V6(w) * V6(v), r, Q);
  }

  /** A stored element reads as its residue r exactly when it is storable and below p. */
  lemma StoredResidue(f: Fe6, r: int)
    requires Tight6(f) && Eq(V6(f), r, Q) && 0 <= r < Q
    ensures WV6(PackWords6(f)) == r <==> Storable(f) && V6(f) < Q
  {
    hide V6, WV6, PackWords6, Storable, Tight6, Eq;
    StoredIff(f);
    EqModIff(V6(f), r, Q);
    SmallResidue(r, Q);
  }

  /** A stored inverse is one exactly when it is storable. */
  lemma StoredInverse(f: Fe6, Z: int)
    requires Tight6(f) && Eq(Z * V6(f), 1, Q)
    ensures Eq(Z * WV6(PackWords6(f)), 1, Q) <==> Storable(f)
  {
    hide V6, WV6, PackWords6, Storable, Tight6, Eq;
    StoredIff(f);
    InverseIff(Z, V6(f), WV6(PackWords6(f)), Q);
  }
}
