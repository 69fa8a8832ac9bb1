/** The post-processing script: its own geometric skew factor, and the pass
    over Cura's G-code layers that shears the X and Y coordinates of every
    move by the three factors. */
module SkewScript {
  import opened Wrappers
  import Text
  import Decimal
  import Maths

  // The geometric factor.

  /** `2*ac*ac + 2*bd*bd - 4*ad*ad`, four times the squared side AB. */
  function RootTerm(ac: real, bd: real, ad: real): real {
    2.0 * Maths.Sq(ac) + 2.0 * Maths.Sq(bd) - 4.0 * Maths.Sq(ad)
  }

  /** Why the guards stop the computation, or the `acos` argument they let
      through. */
  datatype Check =
    | Accepted(arg: real)
    | NonPositive       // some measurement is not above zero
    | NegativeRoot      // the square-root term is negative
    | ZeroDenominator   // `2 * ab * ad` is zero
    | OutOfRange        // the `acos` argument lies outside [-1, 1]

  /** The guard chain of `calculate_skew_factor`, in its order. */
  function Guards(ac: real, bd: real, ad: real, sqrt: real -> real): (r: Check)
    ensures r == NonPositive <==> ac <= 0.0 || bd <= 0.0 || ad <= 0.0
    ensures r == NegativeRoot <==> ac > 0.0 && bd > 0.0 && ad > 0.0 && RootTerm(ac, bd, ad) < 0.0
    ensures r == ZeroDenominator <==>
      ac > 0.0 && bd > 0.0 && ad > 0.0 && RootTerm(ac, bd, ad) >= 0.0
      && 2.0 * Maths.Times(sqrt(RootTerm(ac, bd, ad)) / 2.0, ad) == 0.0
    ensures r == OutOfRange <==>
      ac > 0.0 && bd > 0.0 && ad > 0.0 && RootTerm(ac, bd, ad) >= 0.0
      && (var ab := sqrt(RootTerm(ac, bd, ad)) / 2.0;
          var den := 2.0 * Maths.Times(ab, ad);
          den != 0.0 && !(-1.0 <= (Maths.Sq(ac) - Maths.Sq(ab) - Maths.Sq(ad)) / den <= 1.0))
    ensures r.Accepted? ==> RootTerm(ac, bd, ad) >= 0.0 && -1.0 <= r.arg <= 1.0
    ensures r.Accepted? ==>
      var ab := sqrt(RootTerm(ac, bd, ad)) / 2.0;
      2.0 * Maths.Times(ab, ad) != 0.0
      && r.arg * (2.0 * Maths.Times(ab, ad)) == Maths.Sq(ac) - Maths.Sq(ab) - Maths.Sq(ad)
  {
    if ac <= 0.0 || bd <= 0.0 || ad <= 0.0 then NonPositive
    else
      var term := RootTerm(ac, bd, ad);
      if term < 0.0 then NegativeRoot
      else
        var ab := sqrt(term) / 2.0;
        var den := 2.0 * Maths.Times(ab, ad);
        if den == 0.0 then ZeroDenominator
        else
          var arg := (Maths.Sq(ac) - Maths.Sq(ab) - Maths.Sq(ad)) / den;
          Maths.DivCancel(Maths.Sq(ac) - Maths.Sq(ab) - Maths.Sq(ad), den);
          if !(-1.0 <= arg <= 1.0) then OutOfRange else Accepted(arg)
  }

  /** `calculate_skew_factor`: `tan(pi/2 - acos(arg))` when every guard
      passes, and 0.0 for every rejected input. */
  function SkewFactor(ac: real, bd: real, ad: real, t: Maths.Trig): (r: real)
    ensures ac <= 0.0 || bd <= 0.0 || ad <= 0.0 ==> r == 0.0
    ensures RootTerm(ac, bd, ad) < 0.0 ==> r == 0.0
    ensures !Guards(ac, bd, ad, t.sqrt).Accepted? ==> r == 0.0
    ensures Guards(ac, bd, ad, t.sqrt).Accepted? ==>
      r == t.tan(t.pi / 2.0 - t.acos(Guards(ac, bd, ad, t.sqrt).arg))
  {
    match Guards(ac, bd, ad, t.sqrt)
    case Accepted(arg) => t.tan(t.pi / 2.0 - t.acos(arg))
    case _ => 0.0
  }

  /** With a true square root the `acos` argument simplifies: `ab^2` is a
      quarter of the root term, so the argument times `4 * ab * ad` is
      `ac^2 - bd^2`. */
  lemma ArgumentSimplified(ac: real, bd: real, ad: real, t: Maths.Trig)
    requires t.SquareRoot()
    requires Guards(ac, bd, ad, t.sqrt).Accepted?
    ensures var ab := t.sqrt(RootTerm(ac, bd, ad)) / 2.0;
      Guards(ac, bd, ad, t.sqrt).arg * (4.0 * Maths.Times(ab, ad)) == Maths.Sq(ac) - Maths.Sq(bd)
  {
    var term := RootTerm(ac, bd, ad);
    var s := t.sqrt(term);
    var ab := s / 2.0;
    var arg := Guards(ac, bd, ad, t.sqrt).arg;
    assert s * s == term;
    assert Maths.Sq(ab) == term / 4.0 by {
      assert Maths.Sq(ab) == (s / 2.0) * (s / 2.0);
      assert (s / 2.0) * (s / 2.0) == (s * s) / 4.0;
    }
    assert arg * (2.0 * Maths.Times(ab, ad)) == (Maths.Sq(ac) - Maths.Sq(bd)) / 2.0;
    assert arg * (4.0 * Maths.Times(ab, ad)) == 2.0 * (arg * (2.0 * Maths.Times(ab, ad)));
  }

  /** With a true square root and a positive side AD, the denominator guard
      fires exactly when the root term is zero. */
  lemma DenominatorZeroIffDegenerate(ac: real, bd: real, ad: real, t: Maths.Trig)
    requires t.SquareRoot()
    requires ac > 0.0 && bd > 0.0 && ad > 0.0 && RootTerm(ac, bd, ad) >= 0.0
    ensures Guards(ac, bd, ad, t.sqrt) == ZeroDenominator <==> RootTerm(ac, bd, ad) == 0.0
  {
    var term := RootTerm(ac, bd, ad);
    var s := t.sqrt(term);
    var ab := s / 2.0;
    assert s >= 0.0 && s * s == term;
    if term == 0.0 {
      if s != 0.0 {
        Maths.SqPositive(s);
      }
      assert Maths.Times(ab, ad) == 0.0;
    } else {
      assert s != 0.0;
      assert ab > 0.0;
      Maths.TimesPositive(ab, ad);
    }
  }

  /** A square print (equal diagonals) yields no correction, whichever guard
      decides: the argument is zero, `acos(0)` is a right angle, `tan(0)` is 0. */
  lemma SquareHasNoSkew(a: real, ad: real, t: Maths.Trig)
    requires t.SquareRoot() && t.RightAngle()
    ensures SkewFactor(a, a, ad, t) == 0.0
  {
    var g := Guards(a, a, ad, t.sqrt);
    if g.Accepted? {
      ArgumentSimplified(a, a, ad, t);
      var ab := t.sqrt(RootTerm(a, a, ad)) / 2.0;
      assert g.arg * (4.0 * Maths.Times(ab, ad)) == 0.0;
      assert 4.0 * Maths.Times(ab, ad) != 0.0;
      assert g.arg == 0.0;
      assert t.pi / 2.0 - t.acos(0.0) == 0.0;
    }
  }

  /** For a true square root, positive readings and a non-degenerate
      triangle, an argument `(ac^2 - bd^2) / (4 * ab * ad)` within [-1, 1] is
      accepted and the factor is `tan(pi/2 - acos` of it`)`. */
  lemma AcceptedFactor(ac: real, bd: real, ad: real, t: Maths.Trig)
    requires t.SquareRoot()
    requires ac > 0.0 && bd > 0.0 && ad > 0.0 && RootTerm(ac, bd, ad) > 0.0
    requires var ab := t.sqrt(RootTerm(ac, bd, ad)) / 2.0;
      -4.0 * Maths.Times(ab, ad) <= Maths.Sq(ac) - Maths.Sq(bd) <= 4.0 * Maths.Times(ab, ad)
    ensures var ab := t.sqrt(RootTerm(ac, bd, ad)) / 2.0;
      4.0 * Maths.Times(ab, ad) > 0.0
      && Guards(ac, bd, ad, t.sqrt) == Accepted((Maths.Sq(ac) - Maths.Sq(bd)) / (4.0 * Maths.Times(ab, ad)))
      && SkewFactor(ac, bd, ad, t)
         == t.tan(t.pi / 2.0 - t.acos((Maths.Sq(ac) - Maths.Sq(bd)) / (4.0 * Maths.Times(ab, ad))))
  {
    var term := RootTerm(ac, bd, ad);
    var s := t.sqrt(term);
    assert s >= 0.0 && s * s == term;
    assert s != 0.0;
    var ab := s / 2.0;
    var q := 4.0 * Maths.Times(ab, ad);
    RatioArgument(ac, bd, ad, s);
    UnitRatio(Maths.Sq(ac) - Maths.Sq(bd), q);
  }

  /** The `acos` argument as the guards compute it equals
      `(ac^2 - bd^2) / (4 * ab * ad)` when `s` is the exact root. */
  lemma RatioArgument(ac: real, bd: real, ad: real, s: real)
    requires s > 0.0 && s * s == RootTerm(ac, bd, ad) && ad > 0.0
    ensures var ab := s / 2.0;
      var q := 4.0 * Maths.Times(ab, ad);
      var den := 2.0 * Maths.Times(ab, ad);
      q > 0.0 && den != 0.0
      && (Maths.Sq(ac) - Maths.Sq(ab) - Maths.Sq(ad)) / den == (Maths.Sq(ac) - Maths.Sq(bd)) / q
  {
    var term := RootTerm(ac, bd, ad);
    var ab := s / 2.0;
    Maths.TimesPositive(ab, ad);
    var q := 4.0 * Maths.Times(ab, ad);
    var den := 2.0 * Maths.Times(ab, ad);
    var num := Maths.Sq(ac) - Maths.Sq(bd);
    var v := num / q;
    Maths.DivCancel(num, q);
    assert Maths.Sq(ab) == term / 4.0 by {
      assert Maths.Sq(ab) == (s / 2.0) * (s / 2.0);
      assert (s / 2.0) * (s / 2.0) == (s * s) / 4.0;
    }
    var arg := (Maths.Sq(ac) - Maths.Sq(ab) - Maths.Sq(ad)) / den;
    Maths.DivCancel(Maths.Sq(ac) - Maths.Sq(ab) - Maths.Sq(ad), den);
    assert arg * q == num by {
      assert arg * q == 2.0 * (arg * den);
    }
    Maths.CancelFactor(arg, v, q);
  }

  /** A ratio whose numerator lies within plus or minus its positive
      denominator lies in [-1, 1]. */
  lemma UnitRatio(num: real, q: real)
    requires q > 0.0 && -q <= num <= q
    ensures -1.0 <= num / q <= 1.0
  {
    var v := num / q;
    Maths.DivCancel(num, q);
    Maths.ScaleSign(v - 1.0, q);
    Maths.ScaleSign(-1.0 - v, q);
    assert (v - 1.0) * q == num - q;
    assert (-1.0 - v) * q == -q - num;
  }

  /** Out-of-range arguments are rejected, not clamped: the factor is 0.0
      even though a clamped argument would give a finite angle. */
  lemma OutOfRangeRejected(ac: real, bd: real, ad: real, t: Maths.Trig)
    requires Guards(ac, bd, ad, t.sqrt) == OutOfRange
    ensures SkewFactor(ac, bd, ad, t) == 0.0
  {
  }

  // The G-code pass.

  /** A number read from a G-code word: `Script.getValue` yields an `int`
      when the text has no decimal point and a `float` otherwise. */
  datatype Number = IntNum(i: int) | FloatNum(f: real)

  function Value(n: Number): real {
    match n
    case IntNum(i) => i as real
    case FloatNum(f) => f
  }

  /** What the script takes from its host: `getValue(line, key)` from Cura's
      `Script` class, and Python's `str` of a float. */
  datatype Host = Host(getValue: (string, string) -> Option<Number>, showFloat: real -> string)

  /** `str(n)` inside an f-string. */
  function Show(h: Host, n: Number): string {
    match n
    case IntNum(i) => Decimal.IntToString(i)
    case FloatNum(f) => h.showFloat(f)
  }

  /** `str(float)` is digits, a sign, a point, an exponent, `inf` or `nan`:
      never a newline, an `X` or a `Y`. */
  ghost predicate Sane(h: Host) {
    forall v: real :: '\n' !in h.showFloat(v) && 'X' !in h.showFloat(v) && 'Y' !in h.showFloat(v)
  }

  /** No printed number holds an axis letter. */
  lemma ShowNoAxis(h: Host, n: Number)
    requires Sane(h)
    ensures 'X' !in Show(h, n) && 'Y' !in Show(h, n)
  {
    if n.IntNum? {
      var t := Decimal.IntToString(n.i);
      assert forall j :: 0 <= j < |t| ==> t[j] != 'X' && t[j] != 'Y';
    }
  }

  /** The XY, XZ and YZ factors, as `_calculated_factors` holds them. */
  datatype Factors = Factors(xy: real, xz: real, yz: real)

  /** `line.startswith(("G0", "G1"))`: a raw prefix test, so `G10` and `G11`
      match as well. */
  predicate IsMove(line: string) {
    Text.StartsWith(line, "G0") || Text.StartsWith(line, "G1")
  }

  /** The corrected X: `round(round(x - y*xy, 3) - z*xz, 3)`. The two
      roundings keep it within a thousandth of the exact shear. */
  function ShearX(x: real, y: real, z: real, f: Factors): (r: real)
    ensures var exact := x - Maths.Times(y, f.xy) - Maths.Times(z, f.xz);
      exact - 1.0 / 1000.0 <= r <= exact + 1.0 / 1000.0
  {
    assert Decimal.Scale(3) == 1000.0;
    Decimal.RoundTo(Decimal.RoundTo(x - Maths.Times(y, f.xy), 3) - Maths.Times(z, f.xz), 3)
  }

  /** The corrected Y: `round(y - z*yz, 3)`, within half a thousandth of the
      exact shear. */
  function ShearY(y: real, z: real, f: Factors): (r: real)
    ensures var exact := y - Maths.Times(z, f.yz);
      exact - 1.0 / 2000.0 <= r <= exact + 1.0 / 2000.0
  {
    assert Decimal.Scale(3) == 1000.0;
    Decimal.RoundTo(y - Maths.Times(z, f.yz), 3)
  }

  /** Without skew the shear only rounds to three decimals. */
  lemma NoSkewOnlyRounds(x: real, y: real, z: real)
    ensures ShearX(x, y, z, Factors(0.0, 0.0, 0.0)) == Decimal.RoundTo(x, 3)
    ensures ShearY(y, z, Factors(0.0, 0.0, 0.0)) == Decimal.RoundTo(y, 3)
  {
    Decimal.RoundToIdempotent(x, 3);
  }

  /** The position a move line states: X and Y fall back to 0 when absent,
      Z to the height carried over from earlier lines. */
  datatype Position = Position(x: real, y: real, z: real)

  function Read(h: Host, z: real, line: string): (p: Position)
    ensures h.getValue(line, "X").None? ==> p.x == 0.0
    ensures h.getValue(line, "Y").None? ==> p.y == 0.0
    ensures h.getValue(line, "Z").None? ==> p.z == z
    ensures h.getValue(line, "X").Some? ==> p.x == Value(h.getValue(line, "X").value)
    ensures h.getValue(line, "Y").Some? ==> p.y == Value(h.getValue(line, "Y").value)
    ensures h.getValue(line, "Z").Some? ==> p.z == Value(h.getValue(line, "Z").value)
  {
    var cx := h.getValue(line, "X");
    var cy := h.getValue(line, "Y");
    var cz := h.getValue(line, "Z");
    Position(if cx.Some? then Value(cx.value) else 0.0,
             if cy.Some? then Value(cy.value) else 0.0,
             if cz.Some? then Value(cz.value) else z)
  }

  /** `s.replace(f"{key}{was}", f"{key}{now}")`. */
  function ReplaceWord(s: string, key: string, was: string, now: string): string
    requires key != []
  {
    Text.Replace(s, key + was, key + now)
  }

  /** One line of the inner loop: the line as it leaves, and the height
      carried to the next line. Only a move line reads a height; it is
      rewritten only when `rewrite` (layer index two or more) holds, X
      first and then Y, each only when the line states it. */
  function RewriteLine(h: Host, f: Factors, z: real, line: string, rewrite: bool): (r: (string, real))
    ensures !IsMove(line) ==> r == (line, z)
    ensures IsMove(line) ==> r.1 == Read(h, z, line).z
    ensures !rewrite ==> r.0 == line
    ensures h.getValue(line, "X").None? && h.getValue(line, "Y").None? ==> r.0 == line
  {
    if !IsMove(line) then (line, z)
    else
      var p := Read(h, z, line);
      if !rewrite then (line, p.z)
      else
        var cx := h.getValue(line, "X");
        var cy := h.getValue(line, "Y");
        var l1 := if cx.Some? then ReplaceWord(line, "X", Show(h, cx.value), h.showFloat(ShearX(p.x, p.y, p.z, f))) else line;
        var l2 := if cy.Some? then ReplaceWord(l1, "Y", Show(h, cy.value), h.showFloat(ShearY(p.y, p.z, f))) else l1;
        (l2, p.z)
  }

  /** A rewritten move line carries the sheared coordinates: where the line
      holds `X<old>` it now holds `X<new>` with `new` the printed `ShearX`,
      and likewise for Y with `ShearY`, at the height the line reads. */
  lemma RewriteLineShears(h: Host, f: Factors, z: real, line: string)
    requires Sane(h) && IsMove(line)
    ensures var p := Read(h, z, line);
      var r := RewriteLine(h, f, z, line, true).0;
      var cx, cy := h.getValue(line, "X"), h.getValue(line, "Y");
      (cx.Some? && Text.Contains(line, "X" + Show(h, cx.value)) ==>
         Text.Contains(r, "X" + h.showFloat(ShearX(p.x, p.y, p.z, f))))
      && (cy.Some? && Text.Contains(line, "Y" + Show(h, cy.value)) ==>
         Text.Contains(r, "Y" + h.showFloat(ShearY(p.y, p.z, f))))
  {
    var p := Read(h, z, line);
    var cx, cy := h.getValue(line, "X"), h.getValue(line, "Y");
    var xs, ys := h.showFloat(ShearX(p.x, p.y, p.z, f)), h.showFloat(ShearY(p.y, p.z, f));
    var l1 := if cx.Some? then ReplaceWord(line, "X", Show(h, cx.value), xs) else line;
    assert RewriteLine(h, f, z, line, true).0
      == if cy.Some? then ReplaceWord(l1, "Y", Show(h, cy.value), ys) else l1;
    assert 'X' !in xs && 'Y' !in xs && 'X' !in ys && 'Y' !in ys;
    if cx.Some? {
      ShowNoAxis(h, cx.value);
    }
    if cy.Some? {
      ShowNoAxis(h, cy.value);
    }
    if cx.Some? && Text.Contains(line, "X" + Show(h, cx.value)) {
      Text.ReplaceInserts(line, "X" + Show(h, cx.value), "X" + xs);
      if cy.Some? {
        Text.ReplaceKeeps(l1, "Y" + Show(h, cy.value), "Y" + ys, "X" + xs);
      }
    }
    if cy.Some? && Text.Contains(line, "Y" + Show(h, cy.value)) {
      if cx.Some? {
        Text.ReplaceKeeps(line, "X" + Show(h, cx.value), "X" + xs, "Y" + Show(h, cy.value));
      }
      Text.ReplaceInserts(l1, "Y" + Show(h, cy.value), "Y" + ys);
    }
  }

  /** The inner loop over the lines of one layer, in order. */
  function RewriteLines(h: Host, f: Factors, z: real, lines: seq<string>, rewrite: bool): (r: (seq<string>, real))
    ensures |r.0| == |lines|
    decreases |lines|
  {
    if lines == [] then ([], z)
    else
      var first := RewriteLine(h, f, z, lines[0], rewrite);
      var rest := RewriteLines(h, f, first.1, lines[1..], rewrite);
      ([first.0] + rest.0, rest.1)
  }

  /** The outer loop: split each layer on `"\n"`, rewrite its lines when the
      layer index is two or more, join it back. The height carries across
      layers. */
  function RewriteLayers(h: Host, f: Factors, z: real, layers: seq<string>, index: nat): (r: seq<string>)
    ensures |r| == |layers|
    decreases |layers|
  {
    if layers == [] then []
    else
      var out := RewriteLines(h, f, z, Text.Split(layers[0], '\n'), index >= 2);
      [Text.Join(out.0, '\n')] + RewriteLayers(h, f, out.1, layers[1..], index + 1)
  }

  /** `cura_compensation`: the height starts at 0 and the first layer has
      index 0. */
  function CuraCompensation(h: Host, f: Factors, data: seq<string>): (r: seq<string>)
    ensures |r| == |data|
  {
    RewriteLayers(h, f, 0.0, data, 0)
  }

  // Properties of the pass.

  /** The height a line sees: the Z of the last earlier move line stating
      one, else the height the layer started with. */
  function HeightBefore(h: Host, z: real, lines: seq<string>): real
    decreases |lines|
  {
    if lines == [] then z
    else
      var last := lines[|lines| - 1];
      if IsMove(last) && h.getValue(last, "Z").Some? then Value(h.getValue(last, "Z").value)
      else HeightBefore(h, z, lines[..|lines| - 1])
  }

  /** Each line leaves the inner loop rewritten with the height the earlier
      lines left behind, and the loop hands on the height after all lines. */
  lemma {:induction false} RewriteLinesExact(h: Host, f: Factors, z: real, lines: seq<string>, rewrite: bool)
    ensures RewriteLines(h, f, z, lines, rewrite).1 == HeightBefore(h, z, lines)
    ensures forall k :: 0 <= k < |lines| ==>
      RewriteLines(h, f, z, lines, rewrite).0[k] == RewriteLine(h, f, HeightBefore(h, z, lines[..k]), lines[k], rewrite).0
    decreases |lines|
  {
    if lines != [] {
      var first := RewriteLine(h, f, z, lines[0], rewrite);
      RewriteLinesExact(h, f, first.1, lines[1..], rewrite);
      HeightBeforeCons(h, z, lines);
      forall k | 0 <= k < |lines|
        ensures RewriteLines(h, f, z, lines, rewrite).0[k] == RewriteLine(h, f, HeightBefore(h, z, lines[..k]), lines[k], rewrite).0
      {
        if k == 0 {
          assert lines[..0] == [];
        } else {
          assert lines[1..][..k - 1] == lines[1..k];
          HeightBeforeCons(h, z, lines[..k]);
          assert lines[..k][1..] == lines[1..k];
        }
      }
    }
  }

  /** Reading the first line and then the rest gives the same height as
      reading backwards from the end. */
  lemma {:induction false} HeightBeforeCons(h: Host, z: real, lines: seq<string>)
    requires lines != []
    ensures HeightBefore(h, RewriteLine(h, Factors(0.0, 0.0, 0.0), z, lines[0], false).1, lines[1..]) == HeightBefore(h, z, lines)
    decreases |lines|
  {
    if |lines| > 1 {
      var front := lines[..|lines| - 1];
      HeightBeforeCons(h, z, front);
      assert front[1..] == lines[1..][..|lines[1..]| - 1];
      assert front[0] == lines[0];
    } else {
      assert lines[1..] == [];
      assert lines[..0] == [];
    }
  }

  /** The height a move line hands on does not depend on the factors or on
      whether the line is rewritten. */
  lemma HeightIgnoresRewrite(h: Host, f: Factors, z: real, line: string, rewrite: bool)
    ensures RewriteLine(h, f, z, line, rewrite).1 == RewriteLine(h, Factors(0.0, 0.0, 0.0), z, line, false).1
  {
  }

  /** Lines that are not moves leave the pass unchanged. */
  lemma NonMovesUnchanged(h: Host, f: Factors, z: real, lines: seq<string>, rewrite: bool, k: nat)
    requires k < |lines| && !IsMove(lines[k])
    ensures RewriteLines(h, f, z, lines, rewrite).0[k] == lines[k]
  {
    RewriteLinesExact(h, f, z, lines, rewrite);
  }

  /** Without rewriting, the inner loop returns the lines as they were. */
  lemma {:induction false} TrackOnlyKeepsLines(h: Host, f: Factors, z: real, lines: seq<string>)
    ensures RewriteLines(h, f, z, lines, false).0 == lines
    decreases |lines|
  {
    if lines != [] {
      var first := RewriteLine(h, f, z, lines[0], false);
      TrackOnlyKeepsLines(h, f, first.1, lines[1..]);
      assert lines == [lines[0]] + lines[1..];
    }
  }

  /** Layers 0 and 1 come back byte for byte. */
  lemma FirstLayersUnchanged(h: Host, f: Factors, data: seq<string>)
    ensures forall i :: 0 <= i < 2 && i < |data| ==> CuraCompensation(h, f, data)[i] == data[i]
  {
    if data != [] {
      TrackOnlyKeepsLines(h, f, 0.0, Text.Split(data[0], '\n'));
      Text.JoinSplit(data[0], '\n');
      if |data| > 1 {
        var z1 := RewriteLines(h, f, 0.0, Text.Split(data[0], '\n'), false).1;
        TrackOnlyKeepsLines(h, f, z1, Text.Split(data[1], '\n'));
        Text.JoinSplit(data[1], '\n');
        assert data[1..][0] == data[1];
        assert CuraCompensation(h, f, data)[1] == RewriteLayers(h, f, z1, data[1..], 1)[0];
      }
    }
  }

  /** A rewritten line gains no newline when `str(float)` produces none. */
  lemma RewriteLineNoNewline(h: Host, f: Factors, z: real, line: string, rewrite: bool)
    requires Sane(h) && '\n' !in line
    ensures '\n' !in RewriteLine(h, f, z, line, rewrite).0
  {
    if IsMove(line) && rewrite {
      var p := Read(h, z, line);
      var cx := h.getValue(line, "X");
      var cy := h.getValue(line, "Y");
      var xs := h.showFloat(ShearX(p.x, p.y, p.z, f));
      var ys := h.showFloat(ShearY(p.y, p.z, f));
      assert '\n' !in xs && '\n' !in ys;
      var l1 := if cx.Some? then ReplaceWord(line, "X", Show(h, cx.value), xs) else line;
      if cx.Some? {
        Text.ReplaceAvoids(line, "X" + Show(h, cx.value), "X" + xs, '\n');
      }
      if cy.Some? {
        Text.ReplaceAvoids(l1, "Y" + Show(h, cy.value), "Y" + ys, '\n');
      }
    }
  }

  lemma {:induction false} RewriteLinesNoNewline(h: Host, f: Factors, z: real, lines: seq<string>, rewrite: bool)
    requires Sane(h)
    requires forall k :: 0 <= k < |lines| ==> '\n' !in lines[k]
    ensures forall k :: 0 <= k < |lines| ==> '\n' !in RewriteLines(h, f, z, lines, rewrite).0[k]
    decreases |lines|
  {
    if lines != [] {
      var first := RewriteLine(h, f, z, lines[0], rewrite);
      RewriteLineNoNewline(h, f, z, lines[0], rewrite);
      RewriteLinesNoNewline(h, f, first.1, lines[1..], rewrite);
    }
  }

  /** Every layer keeps its lines: splitting the output layer gives exactly
      the rewritten lines, one for each input line. */
  lemma LayerLinesKept(h: Host, f: Factors, z: real, layer: string, rewrite: bool)
    requires Sane(h)
    ensures var lines := Text.Split(layer, '\n');
      var out := RewriteLines(h, f, z, lines, rewrite).0;
      Text.Split(Text.Join(out, '\n'), '\n') == out && |out| == |lines|
  {
    var lines := Text.Split(layer, '\n');
    RewriteLinesNoNewline(h, f, z, lines, rewrite);
    Text.SplitJoin(RewriteLines(h, f, z, lines, rewrite).0, '\n');
  }

  /** Line `k` of output layer `i` is input line `k` passed through
      `RewriteLine` at the height `HeightBefore` gives after the earlier
      layers and lines; it is rewritten exactly when `i >= 2`. */
  lemma CuraLayerLines(h: Host, f: Factors, data: seq<string>, i: nat)
    requires Sane(h) && i < |data|
    ensures var lines := Text.Split(data[i], '\n');
      var out := Text.Split(CuraCompensation(h, f, data)[i], '\n');
      var z := HeightAcross(h, 0.0, data[..i]);
      |out| == |lines|
      && forall k :: 0 <= k < |lines| ==>
           out[k] == RewriteLine(h, f, HeightBefore(h, z, lines[..k]), lines[k], i >= 2).0
  {
    var z := HeightAcross(h, 0.0, data[..i]);
    RewriteLayersExact(h, f, 0.0, data, 0);
    LayerLinesKept(h, f, z, data[i], i >= 2);
    RewriteLinesExact(h, f, z, Text.Split(data[i], '\n'), i >= 2);
  }

  /** The number of lines of every layer is preserved. */
  lemma LineCountsKept(h: Host, f: Factors, z: real, layers: seq<string>, index: nat)
    requires Sane(h)
    ensures forall i :: 0 <= i < |layers| ==>
      |Text.Split(RewriteLayers(h, f, z, layers, index)[i], '\n')| == |Text.Split(layers[i], '\n')|
  {
    RewriteLayersExact(h, f, z, layers, index);
    forall i | 0 <= i < |layers|
      ensures |Text.Split(RewriteLayers(h, f, z, layers, index)[i], '\n')| == |Text.Split(layers[i], '\n')|
    {
      LayerLinesKept(h, f, HeightAcross(h, z, layers[..i]), layers[i], index + i >= 2);
    }
  }

  /** The height after whole layers: each layer's lines read in turn. */
  function HeightAcross(h: Host, z: real, layers: seq<string>): real
    decreases |layers|
  {
    if layers == [] then z
    else HeightBefore(h, HeightAcross(h, z, layers[..|layers| - 1]), Text.Split(layers[|layers| - 1], '\n'))
  }

  lemma {:induction false} HeightAcrossCons(h: Host, z: real, layers: seq<string>)
    requires layers != []
    ensures HeightAcross(h, HeightBefore(h, z, Text.Split(layers[0], '\n')), layers[1..]) == HeightAcross(h, z, layers)
    decreases |layers|
  {
    if |layers| > 1 {
      var front := layers[..|layers| - 1];
      HeightAcrossCons(h, z, front);
      assert front[1..] == layers[1..][..|layers[1..]| - 1];
      assert front[0] == layers[0];
    } else {
      assert layers[1..] == [];
      assert layers[..0] == [];
    }
  }

  /** The height carries across layers: layer `i` is rewritten starting from
      the height all earlier layers left behind, and it is rewritten only
      when its index is two or more. */
  lemma {:induction false} RewriteLayersExact(h: Host, f: Factors, z: real, layers: seq<string>, index: nat)
    ensures forall i :: 0 <= i < |layers| ==>
      RewriteLayers(h, f, z, layers, index)[i] == LayerAt(h, f, z, layers, index, i)
    decreases |layers|
  {
    if layers != [] {
      var z1 := RewriteLines(h, f, z, Text.Split(layers[0], '\n'), index >= 2).1;
      RewriteLayersExact(h, f, z1, layers[1..], index + 1);
      forall i | 0 <= i < |layers|
        ensures RewriteLayers(h, f, z, layers, index)[i] == LayerAt(h, f, z, layers, index, i)
      {
        if i == 0 {
          assert layers[..0] == [];
        } else {
          RewriteLayersStep(h, f, z, layers, index, i);
        }
      }
    }
  }

  /** Layer `i` rewritten from the height the layers before it left. */
  function LayerAt(h: Host, f: Factors, z: real, layers: seq<string>, index: nat, i: nat): string
    requires i < |layers|
  {
    Text.Join(RewriteLines(h, f, HeightAcross(h, z, layers[..i]), Text.Split(layers[i], '\n'), index + i >= 2).0, '\n')
  }

  /** Layer `i > 0` of the whole pass is layer `i - 1` of the pass over the
      remaining layers, which starts from the height the first layer left. */
  lemma RewriteLayersStep(h: Host, f: Factors, z: real, layers: seq<string>, index: nat, i: nat)
    requires 0 < i < |layers|
    requires var z1 := RewriteLines(h, f, z, Text.Split(layers[0], '\n'), index >= 2).1;
      RewriteLayers(h, f, z1, layers[1..], index + 1)[i - 1] == LayerAt(h, f, z1, layers[1..], index + 1, i - 1)
    ensures RewriteLayers(h, f, z, layers, index)[i] == LayerAt(h, f, z, layers, index, i)
  {
    var lines := Text.Split(layers[0], '\n');
    var z1 := RewriteLines(h, f, z, lines, index >= 2).1;
    RewriteLinesExact(h, f, z, lines, index >= 2);
    assert RewriteLayers(h, f, z, layers, index)[i] == RewriteLayers(h, f, z1, layers[1..], index + 1)[i - 1];
    assert layers[1..][i - 1] == layers[i];
    HeightAcrossShift(h, z, layers, i);
  }

  /** The height before layer `i` seen from the second layer on, starting
      at the height the first layer left, is the height seen from the start. */
  lemma HeightAcrossShift(h: Host, z: real, layers: seq<string>, i: nat)
    requires 0 < i <= |layers|
    ensures HeightAcross(h, HeightBefore(h, z, Text.Split(layers[0], '\n')), layers[1..][..i - 1])
      == HeightAcross(h, z, layers[..i])
  {
    HeightAcrossCons(h, z, layers[..i]);
    assert layers[..i][1..] == layers[1..][..i - 1];
    assert layers[..i][0] == layers[0];
  }
}
