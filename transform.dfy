/** The transform compiler of transform.py: each command `(tag, x, y)` becomes
    an elementary 3×3 matrix, the matrices are collected in command order, and
    the list is folded left to right with the matrix product.

    Matrices act on row vectors (see module Matrix), so in the product
    `M1 · M2 · … · Mn` the first command is applied to a point first. */
module Transform {
  import opened Matrix

  datatype Option<T> = None | Some(value: T)

  /** Errors the Python code raises:
      `UnboundMatrix` is the NameError of appending `m` before any recognised
      command assigned it; `EmptyReduce` is the TypeError of `reduce` over an
      empty list with no initial value. */
  datatype Error = UnboundMatrix | EmptyReduce

  datatype Result<T> = Ok(value: T) | Err(error: Error)

  /** One line of the transformation file, with its parameters already parsed. */
  datatype Command = Command(tag: string, x: real, y: real)

  predicate Recognised(tag: string)
  {
    tag == "S" || tag == "R" || tag == "T"
  }

  predicate AllRecognised(cmds: seq<Command>)
  {
    forall i :: 0 <= i < |cmds| ==> Recognised(cmds[i].tag)
  }

  // ---------------------------------------------------------------------------
  // Elementary matrices

  /** create_scale_matrix: scales x by `sx` and y by `sy`. */
  function ScaleMatrix(sx: real, sy: real): (m: Mat3)
    ensures IsAffine(m)
    ensures forall p :: Apply(p, m) == Vec3(p.x * sx, p.y * sy, p.w)
  {
    Mat3(sx, 0.0, 0.0,
         0.0, sy, 0.0,
         0.0, 0.0, 1.0)
  }

  /** create_rotate_matrix, given `c = cos θ` and `s = sin θ`: a rotation of
      row vectors about the origin. */
  function RotateMatrix(c: real, s: real): (m: Mat3)
    ensures IsAffine(m)
    ensures forall p :: Apply(p, m) == Vec3(p.x * c - p.y * s, p.x * s + p.y * c, p.w)
  {
    Mat3(c, s, 0.0,
         -s, c, 0.0,
         0.0, 0.0, 1.0)
  }

  /** create_translate_matrix: the offset sits in the bottom row. */
  function TranslateMatrix(dx: real, dy: real): (m: Mat3)
    ensures IsAffine(m)
    ensures forall p :: Apply(p, m) == Vec3(p.x + p.w * dx, p.y + p.w * dy, p.w)
  {
    var m := Mat3(1.0, 0.0, 0.0,
         0.0, 1.0, 0.0,
         dx, dy, 1.0);
    assert forall p :: Apply(p, m) == Vec3(p.x + p.w * dx, p.y + p.w * dy, p.w) by {
      forall p ensures Apply(p, m) == Vec3(p.x + p.w * dx, p.y + p.w * dy, p.w) {
        assert Apply(p, m).x == p.x * 1.0 + p.y * 0.0 + p.w * dx;
      }
    }
    m
  }

  /** The matrix a recognised command selects. A rotation passes its first
      parameter straight to `cos` and `sin` and ignores the second. */
  function Elementary(c: Command, cos: real -> real, sin: real -> real): (m: Mat3)
    requires Recognised(c.tag)
    ensures IsAffine(m)
  {
    if c.tag == "S" then ScaleMatrix(c.x, c.y)
    else if c.tag == "R" then RotateMatrix(cos(c.x), sin(c.x))
    else TranslateMatrix(c.x, c.y)
  }

  // ---------------------------------------------------------------------------
  // create_matrices

  /** Result `r` with `xs` put in front of its list (errors pass through). */
  function PrependAll(xs: seq<Mat3>, r: Result<seq<Mat3>>): Result<seq<Mat3>>
  {
    match r
    case Ok(ys) => Ok(xs + ys)
    case Err(e) => Err(e)
  }

  /** What the loop of create_matrices produces from `cmds` when the variable
      `m` holds `last` (None: not yet assigned). A recognised command assigns
      `m`; an unrecognised one leaves it, and the stale `m` is appended again. */
  function MatricesFrom(cmds: seq<Command>, last: Option<Mat3>, cos: real -> real, sin: real -> real)
    : Result<seq<Mat3>>
    decreases |cmds|
  {
    if cmds == [] then Ok([])
    else
      var m := if Recognised(cmds[0].tag) then Some(Elementary(cmds[0], cos, sin)) else last;
      match m
      case None => Err(UnboundMatrix)
      case Some(mat) => PrependAll([mat], MatricesFrom(cmds[1..], m, cos, sin))
  }

  /** The matrices of recognised commands, one per command, in order. */
  function ElementaryAll(cmds: seq<Command>, cos: real -> real, sin: real -> real): seq<Mat3>
    requires AllRecognised(cmds)
    decreases |cmds|
  {
    if cmds == [] then []
    else [Elementary(cmds[0], cos, sin)] + ElementaryAll(cmds[1..], cos, sin)
  }

  /** create_matrices: the loop over the commands, appending to `matrices`. */
  method CreateMatrices(cmds: seq<Command>, cos: real -> real, sin: real -> real)
    returns (r: Result<seq<Mat3>>)
    ensures r == MatricesFrom(cmds, None, cos, sin)
    ensures r.Err? <==> cmds != [] && !Recognised(cmds[0].tag)
    ensures r.Ok? ==> |r.value| == |cmds|
  {
    var matrices: seq<Mat3> := [];
    var m: Option<Mat3> := None;
    var i := 0;
    assert cmds[0..] == cmds;
    assert MatricesFrom(cmds, None, cos, sin) == PrependAll(matrices, MatricesFrom(cmds, None, cos, sin)) by {
      var r0 := MatricesFrom(cmds, None, cos, sin);
      if r0.Ok? { assert [] + r0.value == r0.value; }
    }
    while i < |cmds|
      invariant 0 <= i <= |cmds|
      invariant |matrices| == i
      invariant MatricesFrom(cmds, None, cos, sin) == PrependAll(matrices, MatricesFrom(cmds[i..], m, cos, sin))
    {
      assert cmds[i..][0] == cmds[i] && cmds[i..][1..] == cmds[i + 1..];
      if Recognised(cmds[i].tag) {
        m := Some(Elementary(cmds[i], cos, sin));
      } else if m.None? {
        MatricesFromShape(cmds, None, cos, sin);
        return Err(UnboundMatrix);
      }
      ghost var rest := MatricesFrom(cmds[i + 1..], m, cos, sin);
      assert rest.Ok? ==> matrices + ([m.value] + rest.value) == (matrices + [m.value]) + rest.value;
      matrices := matrices + [m.value];
      i := i + 1;
    }
    assert cmds[i..] == [];
    assert matrices + [] == matrices;
    r := Ok(matrices);
    MatricesFromShape(cmds, None, cos, sin);
  }

  /** What create_matrices yields, command by command: the matrix of a
      recognised command, or the previous matrix again for an unrecognised
      one; it fails exactly when the very first command is unrecognised and
      no matrix was assigned before. */
  lemma {:induction false} MatricesFromShape(cmds: seq<Command>, last: Option<Mat3>, cos: real -> real, sin: real -> real)
    ensures var r := MatricesFrom(cmds, last, cos, sin);
      && (r.Err? <==> cmds != [] && last.None? && !Recognised(cmds[0].tag))
      && (r.Ok? ==> |r.value| == |cmds|)
      && (r.Ok? ==> forall i :: 0 <= i < |cmds| && Recognised(cmds[i].tag) ==>
            r.value[i] == Elementary(cmds[i], cos, sin))
      && (r.Ok? ==> forall i :: 0 < i < |cmds| && !Recognised(cmds[i].tag) ==>
            r.value[i] == r.value[i - 1])
      && (r.Ok? && cmds != [] && !Recognised(cmds[0].tag) ==> r.value[0] == last.value)
    decreases |cmds|
  {
    if cmds != [] {
      var m := if Recognised(cmds[0].tag) then Some(Elementary(cmds[0], cos, sin)) else last;
      if m.Some? {
        MatricesFromShape(cmds[1..], m, cos, sin);
        var rest := MatricesFrom(cmds[1..], m, cos, sin);
        if rest.Ok? {
          var r := MatricesFrom(cmds, last, cos, sin);
          assert r.value == [m.value] + rest.value;
          forall i | 0 < i < |cmds|
            ensures r.value[i] == rest.value[i - 1]
            ensures cmds[i] == cmds[1..][i - 1]
          {
          }
        }
      }
    }
  }

  /** With only recognised tags, create_matrices returns one matrix per
      command, in command order, each the one its tag selects. */
  lemma {:induction false} WellTaggedMatrices(cmds: seq<Command>, last: Option<Mat3>, cos: real -> real, sin: real -> real)
    requires AllRecognised(cmds)
    ensures MatricesFrom(cmds, last, cos, sin) == Ok(ElementaryAll(cmds, cos, sin))
    decreases |cmds|
  {
    if cmds != [] {
      assert AllRecognised(cmds[1..]) by {
        forall i | 0 <= i < |cmds[1..]| ensures Recognised(cmds[1..][i].tag) {
          assert cmds[1..][i] == cmds[i + 1];
        }
      }
      WellTaggedMatrices(cmds[1..], Some(Elementary(cmds[0], cos, sin)), cos, sin);
    }
  }

  lemma {:induction false} ElementaryAllAppend(a: seq<Command>, b: seq<Command>, cos: real -> real, sin: real -> real)
    requires AllRecognised(a) && AllRecognised(b)
    ensures AllRecognised(a + b)
    ensures ElementaryAll(a + b, cos, sin) == ElementaryAll(a, cos, sin) + ElementaryAll(b, cos, sin)
    decreases |a|
  {
    assert AllRecognised(a + b) by {
      forall i | 0 <= i < |a + b| ensures Recognised((a + b)[i].tag) {
        if i >= |a| { assert (a + b)[i] == b[i - |a|]; }
      }
    }
    if a == [] {
      assert a + b == b;
    } else {
      assert (a + b)[0] == a[0];
      assert (a + b)[1..] == a[1..] + b;
      assert AllRecognised(a[1..]) by {
        forall i | 0 <= i < |a[1..]| ensures Recognised(a[1..][i].tag) {
          assert a[1..][i] == a[i + 1];
        }
      }
      ElementaryAllAppend(a[1..], b, cos, sin);
      var e0 := [Elementary(a[0], cos, sin)];
      calc {
        ElementaryAll(a + b, cos, sin);
        e0 + ElementaryAll(a[1..] + b, cos, sin);
        e0 + (ElementaryAll(a[1..], cos, sin) + ElementaryAll(b, cos, sin));
        (e0 + ElementaryAll(a[1..], cos, sin)) + ElementaryAll(b, cos, sin);
        ElementaryAll(a, cos, sin) + ElementaryAll(b, cos, sin);
      }
    }
  }

  // ---------------------------------------------------------------------------
  // multiple_matrices

  /** `reduce(np.dot, ms)` continued from the accumulator `acc`. */
  function FoldProduct(acc: Mat3, ms: seq<Mat3>): Mat3
    decreases |ms|
  {
    if ms == [] then acc else FoldProduct(Mul(acc, ms[0]), ms[1..])
  }

  /** multiple_matrices: the left fold `M1 · M2 · … · Mn`; reduce has no
      initial value, so an empty list is an error and a single matrix comes
      back as it is. */
  function MultipleMatrices(ms: seq<Mat3>): (r: Result<Mat3>)
    ensures r.Err? <==> ms == []
    ensures r.Err? ==> r.error == EmptyReduce
    ensures |ms| == 1 ==> r == Ok(ms[0])
  {
    if ms == [] then Err(EmptyReduce) else Ok(FoldProduct(ms[0], ms[1..]))
  }

  /** Maps `p` by each matrix of `ms` in turn, first to last. */
  function ApplyAll(p: Vec3, ms: seq<Mat3>): Vec3
    decreases |ms|
  {
    if ms == [] then p else ApplyAll(Apply(p, ms[0]), ms[1..])
  }

  lemma {:induction false} FoldProductAppend(acc: Mat3, xs: seq<Mat3>, ys: seq<Mat3>)
    ensures FoldProduct(acc, xs + ys) == FoldProduct(FoldProduct(acc, xs), ys)
    decreases |xs|
  {
    if xs == [] {
      assert xs + ys == ys;
    } else {
      assert (xs + ys)[1..] == xs[1..] + ys;
      FoldProductAppend(Mul(acc, xs[0]), xs[1..], ys);
    }
  }

  lemma {:induction false} FoldProductApply(p: Vec3, acc: Mat3, ms: seq<Mat3>)
    ensures Apply(p, FoldProduct(acc, ms)) == ApplyAll(Apply(p, acc), ms)
    decreases |ms|
  {
    if ms != [] {
      FoldProductApply(p, Mul(acc, ms[0]), ms[1..]);
      ApplyMul(p, acc, ms[0]);
    }
  }

  /** The composed matrix maps a point as the matrices do one after the other,
      in list order: the first command is applied first. */
  lemma ProductAppliesInOrder(p: Vec3, ms: seq<Mat3>)
    requires ms != []
    ensures Apply(p, MultipleMatrices(ms).value) == ApplyAll(p, ms)
  {
    FoldProductApply(p, ms[0], ms[1..]);
  }

  lemma {:induction false} FoldProductAffine(acc: Mat3, ms: seq<Mat3>)
    requires IsAffine(acc)
    requires forall i :: 0 <= i < |ms| ==> IsAffine(ms[i])
    ensures IsAffine(FoldProduct(acc, ms))
    decreases |ms|
  {
    if ms != [] {
      FoldProductAffine(Mul(acc, ms[0]), ms[1..]);
    }
  }

  /** The product of affine matrices is affine: last column `(0, 0, 1)ᵀ`. */
  lemma ProductAffine(ms: seq<Mat3>)
    requires ms != []
    requires forall i :: 0 <= i < |ms| ==> IsAffine(ms[i])
    ensures IsAffine(MultipleMatrices(ms).value)
  {
    FoldProductAffine(ms[0], ms[1..]);
  }

  /** Inserting the identity anywhere into a non-empty list leaves the
      product unchanged. (Into the empty list it does not: `[I]` composes to
      `I`, while `[]` is an error.) */
  lemma InsertIdentity(ms: seq<Mat3>, k: nat)
    requires ms != [] && k <= |ms|
    ensures MultipleMatrices(ms[..k] + [Identity] + ms[k..]) == MultipleMatrices(ms)
  {
    var ins := ms[..k] + [Identity] + ms[k..];
    if k == 0 {
      assert ins == [Identity] + ms;
      assert ins[1..] == ms;
      MulIdentity(ms[0]);
      assert FoldProduct(Identity, ms) == FoldProduct(ms[0], ms[1..]);
    } else {
      var x := FoldProduct(ms[0], ms[1..k]);
      assert ins[0] == ms[0];
      assert ins[1..] == ms[1..k] + ([Identity] + ms[k..]);
      FoldProductAppend(ms[0], ms[1..k], [Identity] + ms[k..]);
      MulIdentity(x);
      assert FoldProduct(x, [Identity] + ms[k..]) == FoldProduct(x, ms[k..]);
      assert ms[1..] == ms[1..k] + ms[k..];
      FoldProductAppend(ms[0], ms[1..k], ms[k..]);
    }
  }

  // ---------------------------------------------------------------------------
  // transformation_to_matrices

  /** The composed matrix of a command list, or the error Python raises. */
  function TransformationOf(cmds: seq<Command>, cos: real -> real, sin: real -> real): Result<Mat3>
  {
    match MatricesFrom(cmds, None, cos, sin)
    case Ok(ms) => MultipleMatrices(ms)
    case Err(e) => Err(e)
  }

  /** transformation_to_matrices: create_matrices, then multiple_matrices. */
  method TransformationToMatrices(cmds: seq<Command>, cos: real -> real, sin: real -> real)
    returns (r: Result<Mat3>)
    ensures r == TransformationOf(cmds, cos, sin)
    ensures r == Err(EmptyReduce) <==> cmds == []
    ensures r == Err(UnboundMatrix) <==> cmds != [] && !Recognised(cmds[0].tag)
    ensures r.Ok? ==> IsAffine(r.value)
    ensures r.Ok? ==> forall p :: Apply(p, r.value) == ApplyAll(p, MatricesFrom(cmds, None, cos, sin).value)
  {
    var ms := CreateMatrices(cmds, cos, sin);
    match ms
    case Err(e) =>
      r := Err(e);
    case Ok(list) =>
      r := MultipleMatrices(list);
      if list != [] {
        MatricesFromShape(cmds, None, cos, sin);
        forall i | 0 <= i < |list| ensures IsAffine(list[i]) {
          MatricesAffineAt(cmds, list, i, cos, sin);
        }
        ProductAffine(list);
        forall p ensures Apply(p, r.value) == ApplyAll(p, list) {
          ProductAppliesInOrder(p, list);
        }
      }
  }

  /** Every matrix create_matrices returns is affine (each is an elementary
      matrix or a copy of the one before it). */
  lemma {:induction false} MatricesAffineAt(cmds: seq<Command>, list: seq<Mat3>, i: nat, cos: real -> real, sin: real -> real)
    requires MatricesFrom(cmds, None, cos, sin) == Ok(list)
    requires i < |list|
    ensures IsAffine(list[i])
    decreases i
  {
    MatricesFromShape(cmds, None, cos, sin);
    if !Recognised(cmds[i].tag) {
      MatricesAffineAt(cmds, list, i - 1, cos, sin);
    }
  }

  // ---------------------------------------------------------------------------
  // Algebra of the elementary matrices

  /** `S 1 1` and `T 0 0` are the identity. */
  lemma NeutralMatrices()
    ensures ScaleMatrix(1.0, 1.0) == Identity
    ensures TranslateMatrix(0.0, 0.0) == Identity
  {
  }

  /** Inserting the command `S 1 1` or `T 0 0` anywhere into a non-empty list
      of recognised commands leaves the composed matrix unchanged. */
  lemma NeutralCommandInsertion(cmds: seq<Command>, k: nat, c: Command, cos: real -> real, sin: real -> real)
    requires cmds != [] && AllRecognised(cmds) && k <= |cmds|
    requires c == Command("S", 1.0, 1.0) || c == Command("T", 0.0, 0.0)
    ensures TransformationOf(cmds[..k] + [c] + cmds[k..], cos, sin) == TransformationOf(cmds, cos, sin)
  {
    var a, b := cmds[..k], cmds[k..];
    assert cmds == a + b;
    assert AllRecognised(a) by {
      forall i | 0 <= i < |a| ensures Recognised(a[i].tag) { assert a[i] == cmds[i]; }
    }
    assert AllRecognised(b) by {
      forall i | 0 <= i < |b| ensures Recognised(b[i].tag) { assert b[i] == cmds[k + i]; }
    }
    assert AllRecognised([c]);
    ElementaryAllAppend(a, b, cos, sin);
    ElementaryAllAppend([c], b, cos, sin);
    ElementaryAllAppend(a, [c] + b, cos, sin);
    assert ElementaryAll([c], cos, sin) == [Identity] by {
      assert [c][1..] == [];
    }
    assert a + [c] + b == a + ([c] + b);
    var ms := ElementaryAll(cmds, cos, sin);
    var ea := ElementaryAll(a, cos, sin);
    var eb := ElementaryAll(b, cos, sin);
    ElementaryAllLength(a, cos, sin);
    ElementaryAllLength(cmds, cos, sin);
    assert ms[..k] == ea && ms[k..] == eb;
    WellTaggedMatrices(cmds, None, cos, sin);
    WellTaggedMatrices(a + [c] + b, None, cos, sin);
    assert ElementaryAll(a + [c] + b, cos, sin) == ms[..k] + [Identity] + ms[k..];
    InsertIdentity(ms, k);
  }

  lemma {:induction false} ElementaryAllLength(cmds: seq<Command>, cos: real -> real, sin: real -> real)
    requires AllRecognised(cmds)
    ensures |ElementaryAll(cmds, cos, sin)| == |cmds|
    decreases |cmds|
  {
    if cmds != [] {
      assert AllRecognised(cmds[1..]) by {
        forall i | 0 <= i < |cmds[1..]| ensures Recognised(cmds[1..][i].tag) {
          assert cmds[1..][i] == cmds[i + 1];
        }
      }
      ElementaryAllLength(cmds[1..], cos, sin);
    }
  }

  /** Two translations compose to the translation by the summed offsets. */
  lemma ComposeTranslations(a: real, b: real, c: real, d: real)
    ensures Mul(TranslateMatrix(a, b), TranslateMatrix(c, d)) == TranslateMatrix(a + c, b + d)
    ensures MultipleMatrices([TranslateMatrix(a, b), TranslateMatrix(c, d)]) == Ok(TranslateMatrix(a + c, b + d))
  {
    assert [TranslateMatrix(a, b), TranslateMatrix(c, d)][1..] == [TranslateMatrix(c, d)];
    assert [TranslateMatrix(c, d)][1..] == [];
    assert FoldProduct(TranslateMatrix(a, b), [TranslateMatrix(c, d)]) == Mul(TranslateMatrix(a, b), TranslateMatrix(c, d));
  }

  /** Two scalings compose to the scaling by the per-axis products. */
  lemma ComposeScales(a: real, b: real, c: real, d: real)
    ensures Mul(ScaleMatrix(a, b), ScaleMatrix(c, d)) == ScaleMatrix(a * c, b * d)
    ensures MultipleMatrices([ScaleMatrix(a, b), ScaleMatrix(c, d)]) == Ok(ScaleMatrix(a * c, b * d))
  {
    assert [ScaleMatrix(a, b), ScaleMatrix(c, d)][1..] == [ScaleMatrix(c, d)];
    assert [ScaleMatrix(c, d)][1..] == [];
    assert FoldProduct(ScaleMatrix(a, b), [ScaleMatrix(c, d)]) == Mul(ScaleMatrix(a, b), ScaleMatrix(c, d));
  }

  /** Two rotations compose by the angle-addition formulas:
      `cos(α+β) = cos α cos β − sin α sin β`, `sin(α+β) = sin α cos β + cos α sin β`. */
  lemma ComposeRotations(c1: real, s1: real, c2: real, s2: real)
    ensures Mul(RotateMatrix(c1, s1), RotateMatrix(c2, s2))
         == RotateMatrix(c1 * c2 - s1 * s2, s1 * c2 + c1 * s2)
  {
  }

  /** With `c² + s² = 1` a rotation has determinant 1. */
  lemma RotationDeterminant(c: real, s: real)
    requires c * c + s * s == 1.0
    ensures Det(RotateMatrix(c, s)) == 1.0
  {
  }

  /** With `c² + s² = 1` a rotation keeps the distance of every point from
      the origin. */
  lemma RotationKeepsLength(c: real, s: real, p: Vec3)
    requires c * c + s * s == 1.0
    ensures SquaredLength(Apply(p, RotateMatrix(c, s))) == SquaredLength(p)
  {
    assert RotateMatrix(c, s) == Mat3(c, s, 0.0, -s, c, 0.0, 0.0, 0.0, 1.0);
    assert p == Vec3(p.x, p.y, p.w);
    RotatedComponents(p.x, p.y, p.w, c, s);
    UnitRotationNorm(p, c, s);
  }

  /** The rotation literal applied to a point given by its coordinates. */
  lemma RotatedComponents(x: real, y: real, w: real, c: real, s: real)
    ensures Apply(Vec3(x, y, w), Mat3(c, s, 0.0, -s, c, 0.0, 0.0, 0.0, 1.0))
         == Vec3(x * c - y * s, x * s + y * c, w)
  {
  }

  /** A unit `(c, s)` rotates `p` to a point of the same squared length. */
  lemma UnitRotationNorm(p: Vec3, c: real, s: real)
    requires c * c + s * s == 1.0
    ensures SquaredLength(Vec3(p.x * c - p.y * s, p.x * s + p.y * c, p.w)) == SquaredLength(p)
  {
    var x, y := p.x, p.y;
    var n, k := c * c + s * s, x * x + y * y;
    calc {
      SquaredLength(Vec3(x * c - y * s, x * s + y * c, p.w));
      (x * c - y * s) * (x * c - y * s) + (x * s + y * c) * (x * s + y * c);
      { RotationNorm(x, y, c, s); }
      n * k;
      { ScaleByOne(n, k); }
      k;
      SquaredLength(p);
    }
  }

  lemma ScaleByOne(n: real, k: real)
    requires n == 1.0
    ensures n * k == k
  {
  }

  lemma RotationNorm(x: real, y: real, c: real, s: real)
    ensures (x * c - y * s) * (x * c - y * s) + (x * s + y * c) * (x * s + y * c)
         == (c * c + s * s) * (x * x + y * y)
  {
  }
}
