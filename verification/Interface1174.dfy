/** The entry points of the Curve1174 engine, on words and bytes of the caller. */
module Interface1174 {
  import opened PrimeField
  import opened Edwards
  import opened Formulas
  import opened Multiples
  import opened Limbs1174
  import opened Codec1174
  import opened Field1174
  import opened Points1174
  import opened Recoding
  import opened Scalar1174

  /** A coordinate as the caller passes it: below 2^251, congruent to v. */
  ghost predicate Coordinate(a: array<uint64>, v: int)
    requires a.Length == 4
    reads a
  {
    WV(W(a)) < 0x800000000000000000000000000000000000000000000000000000000000000 && Eq(WV(W(a)), v, P)
  }

  /** Words below 2^251 that denote coordinates (X : Y : Z) of the point a: what gfetch reads. */
  ghost predicate Coordinates(ptx: array<uint64>, pty: array<uint64>, ptz: array<uint64>, a: Aff)
    requires ptx.Length == 4 && pty.Length == 4 && ptz.Length == 4
    reads ptx, pty, ptz
  {
    && WV(W(ptx)) < 0x800000000000000000000000000000000000000000000000000000000000000
    && WV(W(pty)) < 0x800000000000000000000000000000000000000000000000000000000000000
    && WV(W(ptz)) < 0x800000000000000000000000000000000000000000000000000000000000000
    && Rep(C, WV(W(ptx)), WV(W(pty)), WV(W(ptz)), a)
  }

  /** The words hold the canonical residues of coordinates (X : Y : Z) of the point a. */
  ghost predicate Projective(ptx: array<uint64>, pty: array<uint64>, ptz: array<uint64>, a: Aff)
    requires ptx.Length == 4 && pty.Length == 4 && ptz.Length == 4
    reads ptx, pty, ptz
  {
    && WV(W(ptx)) < P && WV(W(pty)) < P && WV(W(ptz)) < P
    && Rep(C, WV(W(ptx)), WV(W(pty)), WV(W(ptz)), a)
  }

  method Fetch(a: array<uint64>) returns (f: Fe)
    requires a.Length == 4
    ensures 0 <= Mag(f) <= 0x8000001000000
    ensures WV(W(a)) < 0x800000000000000000000000000000000000000000000000000000000000000 ==> V(f) == WV(W(a))
  {
    hide WV, V, Mag, FetchFe;
    var w := new int64[5];
    GFetch(a, w);
    f := L(w);
    TightMag(f);
    WordsNonNegative(W(a));
    SmallResidue(WV(W(a)), 0x800000000000000000000000000000000000000000000000000000000000000);
  }

  lemma WordsNonNegative(w: Words)
    requires Proper(w)
    ensures WV(w) >= 0
  {
  }

  lemma SmallResidue(n: int, m: int)
    requires m > 0 && n >= 0
    ensures n < m ==> n % m == n
  {
  }

  method Store(f: Fe, a: array<uint64>)
    requires a.Length == 4 && 0 <= Mag(f) <= 0x8000001000000
    modifies a
    ensures 0 <= WV(W(a)) < P && Eq(WV(W(a)), V(f), P)
  {
    hide WV, V, Mag, PackWords, NormFe;
    MagWithin(f);
    var w := FromLimbs(f, Mag(f));
    GStore(w, a);
    ResidueOfP(V(f));
  }

  method FromLimbs(f: Fe, ghost n: int) returns (w: array<int64>)
    requires Within(f, n) && n <= 0x8000001000000
    ensures fresh(w) && w.Length == 5 && L(w) == f
  {
    w := new int64[5];
    w[0], w[1], w[2], w[3], w[4] := f.a0, f.a1, f.a2, f.a3, f.a4;
  }

  lemma ResidueOfP(v: int)
    ensures 0 <= v % 0x7fffffffffffffffffffffffffffffffffffffffffffffffffffffffffffff7 < P
    ensures Eq(v % 0x7fffffffffffffffffffffffffffffffffffffffffffffffffffffffffffff7, v, P)
  {
    EqMod(v, P);
  }

  /** Store all three coordinates. */
  method StorePoint(p: ECp, ptx: array<uint64>, pty: array<uint64>, ptz: array<uint64>, ghost a: Aff)
    requires ptx.Length == 4 && pty.Length == 4 && ptz.Length == 4 && ptx != pty && ptx != ptz && pty != ptz
    requires p.Is(a)
    modifies ptx, pty, ptz
    ensures Projective(ptx, pty, ptz, a)
  {
    hide WV, V, Mag, Eq;
    Store(p.x, ptx);
    Store(p.y, pty);
    Store(p.z, ptz);
    RepCong(C, a, V(p.x), V(p.y), V(p.z), WV(W(ptx)), WV(W(pty)), WV(W(ptz)));
  }

  /** Curve1174_affine_mul: n times the affine point (x, y), in projective coordinates. */
  method AffineMul(ptx: array<uint64>, pty: array<uint64>, ptz: array<uint64>, nv: array<byte>, ghost a: Aff)
    requires ptx.Length == 4 && pty.Length == 4 && ptz.Length == 4 && ptx != pty && ptx != ptz && pty != ptz
    requires nv.Length == 32 && Recodable(Bytes(nv[..]), 64)
    requires Sound(C) && Associative(C) && On(C, a) && Coordinate(ptx, a.x) && Coordinate(pty, a.y)
    modifies ptx, pty, ptz
    ensures Projective(ptx, pty, ptz, Times(C, Bytes(old(nv[..])), a))
  {
    hide WV, V, Mag, Eq, Rep, RepT, Sound, On, Times, Bytes, Horner, Recodable, Projective;
    var w := Recode(nv);
    var px := Fetch(ptx);
    var py := Fetch(pty);
    var p := new ECp();
    p.Init(px, py, a);
    MulToProj(w, p, a);
    StorePoint(p, ptx, pty, ptz, Times(C, Bytes(nv[..]), a));
  }

  /** Curve1174_projective_mul: n times the projective point, normalised first. */
  method ProjectiveMul(ptx: array<uint64>, pty: array<uint64>, ptz: array<uint64>, nv: array<byte>, ghost a: Aff)
    requires ptx.Length == 4 && pty.Length == 4 && ptz.Length == 4 && ptx != pty && ptx != ptz && pty != ptz
    requires nv.Length == 32 && Recodable(Bytes(nv[..]), 64)
    requires Sound(C) && Associative(C) && On(C, a) && Coordinates(ptx, pty, ptz, a)
    modifies ptx, pty, ptz
    ensures Projective(ptx, pty, ptz, Times(C, Bytes(old(nv[..])), a))
  {
    hide WV, V, Mag, Eq, RepT, On, Times, Bytes, Horner, Recodable, Tight, Pow, IsPrime;
    var w := Recode(nv);
    var px := Fetch(ptx);
    var py := Fetch(pty);
    var pz := Fetch(ptz);
    ghost var X, Y, Z := V(px), V(py), V(pz);
    pz := GInv(pz);
    TightMag(pz);
    NormRep(C, a, X, Y, Z, 0, V(pz));
    px := Affine(px, pz, a.x);
    py := Affine(py, pz, a.y);
    TightMag(px);
    TightMag(py);
    var p := new ECp();
    hide Rep;
    p.Init(px, py, a);
    MulToProj(w, p, a);
    StorePoint(p, ptx, pty, ptz, Times(C, Bytes(nv[..]), a));
  }

  /** Curve1174_projective_add: the first point becomes the sum. */
  method ProjectiveAdd(p1x: array<uint64>, p1y: array<uint64>, p1z: array<uint64>,
    p2x: array<uint64>, p2y: array<uint64>, p2z: array<uint64>, ghost a: Aff, ghost b: Aff)
    requires p1x.Length == 4 && p1y.Length == 4 && p1z.Length == 4 && p1x != p1y && p1x != p1z && p1y != p1z
    requires p2x.Length == 4 && p2y.Length == 4 && p2z.Length == 4
    requires Sound(C) && On(C, a) && On(C, b) && Coordinates(p1x, p1y, p1z, a) && Coordinates(p2x, p2y, p2z, b)
    modifies p1x, p1y, p1z
    ensures Projective(p1x, p1y, p1z, Add(C, a, b))
  {
    hide WV, V, Mag, Eq, Rep, On, Add, Sound;
    var p := new ECp();
    var q := new ECp();
    p.x := Fetch(p1x);
    p.y := Fetch(p1y);
    p.z := Fetch(p1z);
    q.x := Fetch(p2x);
    q.y := Fetch(p2y);
    q.z := Fetch(p2z);
    p.AddProj(q, a, b);
    StorePoint(p, p1x, p1y, p1z, Add(C, a, b));
  }

  /** Curve1174_to_affine: the canonical affine coordinates, and 1/z. */
  method ToAffine(ptx: array<uint64>, pty: array<uint64>, ptz: array<uint64>, ghost a: Aff)
    requires ptx.Length == 4 && pty.Length == 4 && ptz.Length == 4 && ptx != pty && ptx != ptz && pty != ptz
    requires Sound(C) && On(C, a) && Coordinates(ptx, pty, ptz, a)
    modifies ptx, pty, ptz
    ensures WV(W(ptx)) == a.x && WV(W(pty)) == a.y
    ensures Eq(old(WV(W(ptz))) * WV(W(ptz)), 1, P)
  {
    hide WV, V, Mag, Eq, CurveEq, Tight, Pow, IsPrime;
    var px := Fetch(ptx);
    var py := Fetch(pty);
    var pz := Fetch(ptz);
    ghost var X, Y, Z := V(px), V(py), V(pz);
    pz := GInv(pz);
    TightMag(pz);
    NormRep(C, a, X, Y, Z, 0, V(pz));
    StoreQuotient(pz, px, ptx, a.x);
    StoreQuotient(pz, py, pty, a.y);
    Store(pz, ptz);
    EqScale(Z, WV(W(ptz)), V(pz), P);
    EqTrans(Z * WV(W(ptz)), Z * V(pz), 1, P);
  }

  method StoreQuotient(w: Fe, v: Fe, a: array<uint64>, ghost r: int)
    requires a.Length == 4 && 0 <= Mag(v) <= 0x8000001000000 && 0 <= Mag(w) <= 0x8000001000000
    requires 0 <= r < P && Eq(V(v) * V(w), r, P)
    modifies a
    ensures WV(W(a)) == r
  {
    hide WV, V, Mag, Eq, Tight;
    var t := Product(w, v);
    Store(t, a);
    assert V(v) * V(w) == V(w) * V(v);
    EqTrans(WV(W(a)), V(t), V(w) * V(v), P);
    EqTrans(WV(W(a)), V(w) * V(v), r, P);
    EqResidue(WV(W(a)), r, P);
  }

  /** g1173_sqrt: true exactly when the source has a square root, and then dst is one. */
  method Sqrt(src: array<uint64>, dst: array<uint64>) returns (ok: bool)
    requires src.Length == 4 && dst.Length == 4
    requires WV(W(src)) < 0x800000000000000000000000000000000000000000000000000000000000000
    modifies dst
    ensures ok ==> Eq(WV(W(dst)) * WV(W(dst)), old(WV(W(src))), P)
    ensures IsPrime(P) ==> (ok <==> IsSquare(old(WV(W(src)))))
    ensures WV(W(dst)) < P
  {
    hide WV, V, Mag, Eq, Tight, Pow, IsPrime, IsSquare;
    var s := Fetch(src);
    ghost var n := V(s);
    var d;
    d, ok := GSqrt(s);
    TightMag(d);
    Store(d, dst);
    EqMul(WV(W(dst)), V(d), WV(W(dst)), V(d), P);
    if ok { EqTrans(WV(W(dst)) * WV(W(dst)), V(d) * V(d), n, P); }
  }
}
