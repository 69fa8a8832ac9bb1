/** The skew calculator: nine calibration measurements (diagonals AC and BD
    and side AD of a square printed in each of the XY, XZ and YZ planes),
    the Marlin factors I, J and K derived from them, and the two one-line
    firmware commands the plugin places in the start G-code. */
module SkewCalculator {
  import opened Wrappers
  import Text
  import Decimal
  import Maths

  const PluginId: string := "PrintSkewCompensation"

  /** The comment both commands end with. */
  const Trailer: string := " ; " + PluginId

  /** A stored measurement: a number, or a value `float()` rejects. */
  datatype Reading = Number(value: real) | Invalid

  /** The three measurements of one plane's calibration square. */
  datatype Plane = Plane(ac: Reading, bd: Reading, ad: Reading)

  datatype Calculator = Calculator(xy: Plane, xz: Plane, yz: Plane, i: real, j: real, k: real)

  /** All three readings are numbers and the side AD is positive: the case
      in which a factor is computed rather than forced to 0.0. */
  predicate Measured(p: Plane) {
    p.ac.Number? && p.bd.Number? && p.ad.Number? && p.ad.value > 0.0
  }

  /** One Marlin factor, `(AC² - BD²) / (4·AD²)`; 0.0 when a reading is not a
      number or AD is not positive. */
  function PlaneFactor(p: Plane): (r: real)
    ensures !Measured(p) ==> r == 0.0
    ensures Measured(p) ==>
      r * (4.0 * Maths.Sq(p.ad.value)) == Maths.Sq(p.ac.value) - Maths.Sq(p.bd.value)
  {
    if Measured(p) then
      var ac, bd, ad := p.ac.value, p.bd.value, p.ad.value;
      Maths.SqPositive(ad);
      Maths.DivCancel(Maths.Sq(ac) - Maths.Sq(bd), 4.0 * Maths.Sq(ad));
      (Maths.Sq(ac) - Maths.Sq(bd)) / (4.0 * Maths.Sq(ad))
    else 0.0
  }

  /** The factor's sign says which diagonal came out longer. */
  lemma PlaneFactorSign(p: Plane)
    requires Measured(p)
    ensures PlaneFactor(p) > 0.0 <==> Maths.Sq(p.ac.value) > Maths.Sq(p.bd.value)
    ensures PlaneFactor(p) == 0.0 <==> Maths.Sq(p.ac.value) == Maths.Sq(p.bd.value)
  {
    Maths.SqPositive(p.ad.value);
    Maths.ScaleSign(PlaneFactor(p), 4.0 * Maths.Sq(p.ad.value));
  }

  /** Equal diagonals mean no skew. */
  lemma EqualDiagonalsNoSkew(p: Plane)
    requires p.ac == p.bd
    ensures PlaneFactor(p) == 0.0
  {
    if Measured(p) {
      PlaneFactorSign(p);
    }
  }

  /** Swapping the two diagonals negates the factor. */
  lemma SwapDiagonalsNegates(p: Plane)
    ensures PlaneFactor(Plane(p.bd, p.ac, p.ad)) == -PlaneFactor(p)
  {
    if Measured(p) {
      var q := 4.0 * Maths.Sq(p.ad.value);
      Maths.SqPositive(p.ad.value);
      var a, b := PlaneFactor(Plane(p.bd, p.ac, p.ad)), PlaneFactor(p);
      assert (-b) * q == -(b * q);
      Maths.CancelFactor(a, -b, q);
    }
  }

  const DefaultPlane: Plane := Plane(Number(141.42), Number(141.42), Number(100.0))

  /** The factors agree with the measurements. */
  predicate Consistent(c: Calculator) {
    c.i == PlaneFactor(c.xy) && c.j == PlaneFactor(c.xz) && c.k == PlaneFactor(c.yz)
  }

  /** `calculate_skew_factors`: each factor from its own plane only. */
  function CalculateSkewFactors(c: Calculator): (r: Calculator)
    ensures r.xy == c.xy && r.xz == c.xz && r.yz == c.yz
    ensures Consistent(r)
  {
    c.(i := PlaneFactor(c.xy), j := PlaneFactor(c.xz), k := PlaneFactor(c.yz))
  }

  /** The constructor: the readings of a perfect print, whose factors are all zero. */
  function New(): (r: Calculator)
    ensures r.xy == DefaultPlane && r.xz == DefaultPlane && r.yz == DefaultPlane
    ensures r.i == 0.0 && r.j == 0.0 && r.k == 0.0
    ensures Consistent(r)
  {
    EqualDiagonalsNoSkew(DefaultPlane);
    CalculateSkewFactors(Calculator(DefaultPlane, DefaultPlane, DefaultPlane, 0.0, 0.0, 0.0))
  }

  /** `set_measurements`: store the nine readings and recompute the factors. */
  function SetMeasurements(c: Calculator, xy: Plane, xz: Plane, yz: Plane): (r: Calculator)
    ensures r.xy == xy && r.xz == xz && r.yz == yz
    ensures Consistent(r)
  {
    CalculateSkewFactors(c.(xy := xy, xz := xz, yz := yz))
  }

  /** Nothing of the previous state survives `set_measurements`, and a
      factor depends only on the readings of its own plane. */
  lemma SetMeasurementsForgets(c1: Calculator, c2: Calculator, xy: Plane, xz: Plane, yz: Plane)
    ensures SetMeasurements(c1, xy, xz, yz) == SetMeasurements(c2, xy, xz, yz)
  {
  }

  /** Replacing the readings of one plane changes only that plane's factor. */
  lemma PlanesIndependent(c: Calculator, xz: Plane)
    requires Consistent(c)
    ensures var r := SetMeasurements(c, c.xy, xz, c.yz); r.i == c.i && r.k == c.k
  {
  }

  /** `get_skew_factors`: the triple (I, J, K). */
  function GetSkewFactors(c: Calculator): (r: (real, real, real))
    ensures r.0 == c.i && r.1 == c.j && r.2 == c.k
  {
    (c.i, c.j, c.k)
  }

  /** `get_marlin_command`: `M852 I<I> J<J> K<K> ; PrintSkewCompensation`,
      each factor with eight decimals. */
  function MarlinCommand(c: Calculator): (r: string)
    ensures Text.StartsWith(r, "M852 I")
    ensures Text.EndsWith(r, Trailer)
  {
    MarlinTextShape(Decimal.FormatFixed(c.i, 8), Decimal.FormatFixed(c.j, 8), Decimal.FormatFixed(c.k, 8));
    MarlinText(Decimal.FormatFixed(c.i, 8), Decimal.FormatFixed(c.j, 8), Decimal.FormatFixed(c.k, 8))
  }

  function MarlinText(i: string, j: string, k: string): string {
    "M852 I" + i + " J" + j + " K" + k + " ; " + PluginId
  }

  lemma MarlinTextShape(i: string, j: string, k: string)
    ensures Text.StartsWith(MarlinText(i, j, k), "M852 I")
    ensures Text.EndsWith(MarlinText(i, j, k), Trailer)
  {
    Suffix("M852 I" + i + " J" + j + " K" + k, Trailer);
    assert MarlinText(i, j, k)[..6] == "M852 I";
  }

  /** `a + b` ends with `b`. */
  lemma Suffix(a: string, b: string)
    ensures Text.EndsWith(a + b, b)
  {
  }

  /** `p.ac`, `p.bd` and `p.ad` with three decimals, comma separated. */
  function PlaneText(ac: real, bd: real, ad: real): string {
    TripleText(Decimal.FormatFixed(ac, 3), Decimal.FormatFixed(bd, 3), Decimal.FormatFixed(ad, 3))
  }

  function TripleText(x: string, y: string, z: string): string {
    x + "," + y + "," + z
  }

  predicate AllNumbers(p: Plane) {
    p.ac.Number? && p.bd.Number? && p.ad.Number?
  }

  const KlipperError: string := "SET_SKEW " + "; Error: Invalid measurements (" + PluginId + ")"

  /** `get_klipper_command`: the raw readings (not the factors), or the fixed
      error text when some reading is not a number. The side AD is not
      checked here. */
  function KlipperCommand(c: Calculator): (r: string)
    ensures Text.StartsWith(r, "SET_SKEW ")
    ensures r == KlipperError <==> !(AllNumbers(c.xy) && AllNumbers(c.xz) && AllNumbers(c.yz))
    ensures r != KlipperError ==> Text.StartsWith(r, "SET_SKEW XY=") && Text.EndsWith(r, Trailer)
  {
    if AllNumbers(c.xy) && AllNumbers(c.xz) && AllNumbers(c.yz) then
      var xy := PlaneText(c.xy.ac.value, c.xy.bd.value, c.xy.ad.value);
      var xz := PlaneText(c.xz.ac.value, c.xz.bd.value, c.xz.ad.value);
      var yz := PlaneText(c.yz.ac.value, c.yz.bd.value, c.yz.ad.value);
      KlipperTextShape(xy, xz, yz);
      KlipperText(xy, xz, yz)
    else
      KlipperErrorShape();
      KlipperError
  }

  lemma KlipperErrorShape()
    ensures Text.StartsWith(KlipperError, "SET_SKEW ")
  {
    var rest := "; Error: Invalid measurements (" + PluginId + ")";
    assert ("SET_SKEW " + rest)[..9] == "SET_SKEW ";
  }

  function KlipperText(xy: string, xz: string, yz: string): string {
    "SET_SKEW XY=" + xy + " XZ=" + xz + " YZ=" + yz + " ; " + PluginId
  }

  lemma KlipperTextShape(xy: string, xz: string, yz: string)
    ensures Text.StartsWith(KlipperText(xy, xz, yz), "SET_SKEW ")
    ensures Text.StartsWith(KlipperText(xy, xz, yz), "SET_SKEW XY=")
    ensures Text.EndsWith(KlipperText(xy, xz, yz), Trailer)
    ensures KlipperText(xy, xz, yz) != KlipperError
  {
    Suffix("SET_SKEW XY=" + xy + " XZ=" + xz + " YZ=" + yz, Trailer);
    assert KlipperText(xy, xz, yz)[..12] == "SET_SKEW XY=";
    assert KlipperText(xy, xz, yz)[..9] == "SET_SKEW ";
    assert KlipperText(xy, xz, yz)[9] == 'X';
    assert KlipperError[9] == ';';
  }

  // Reading the commands back.

  /** `w` is `tag` followed by a fixed-point number. */
  function TaggedNumber(w: string, tag: string): Option<real> {
    if Text.StartsWith(w, tag) then Decimal.ParseFixed(w[|tag|..]) else None
  }

  function AllThree<T>(a: Option<T>, b: Option<T>, c: Option<T>): Option<(T, T, T)> {
    if a.Some? && b.Some? && c.Some? then Some((a.value, b.value, c.value)) else None
  }

  /** Reads the three factors back out of an `M852` line. */
  function ParseMarlin(s: string): Option<(real, real, real)> {
    var w := Text.Split(s, ' ');
    if |w| == 6 && w[0] == "M852" && w[4] == ";" && w[5] == PluginId then
      AllThree(TaggedNumber(w[1], "I"), TaggedNumber(w[2], "J"), TaggedNumber(w[3], "K"))
    else None
  }

  /** Reads `ac,bd,ad`. */
  function ParseTriple(w: string): Option<(real, real, real)> {
    var v := Text.Split(w, ',');
    if |v| != 3 then None
    else AllThree(Decimal.ParseFixed(v[0]), Decimal.ParseFixed(v[1]), Decimal.ParseFixed(v[2]))
  }

  /** Reads `ac,bd,ad` after a plane tag such as `XY=`. */
  function TaggedTriple(w: string, tag: string): Option<(real, real, real)> {
    if Text.StartsWith(w, tag) then ParseTriple(w[|tag|..]) else None
  }

  /** Reads the nine readings back out of a `SET_SKEW` line, plane by plane. */
  function ParseKlipper(s: string): Option<((real, real, real), (real, real, real), (real, real, real))> {
    var w := Text.Split(s, ' ');
    if |w| == 6 && w[0] == "SET_SKEW" && w[4] == ";" && w[5] == PluginId then
      AllThree(TaggedTriple(w[1], "XY="), TaggedTriple(w[2], "XZ="), TaggedTriple(w[3], "YZ="))
    else None
  }

  lemma FixedHasNo(x: real, d: nat, c: char)
    requires d > 0
    requires !Decimal.IsDigit(c) && c != '.' && c != '-'
    ensures c !in Decimal.FormatFixed(x, d)
  {
    var s := Decimal.FormatFixed(x, d);
    assert forall i :: 0 <= i < |s| ==> s[i] != c;
  }

  lemma TaggedText(tag: string, v: string)
    ensures TaggedNumber(tag + v, tag) == Decimal.ParseFixed(v)
  {
    var w := tag + v;
    assert w[..|tag|] == tag;
    assert w[|tag|..] == v;
  }

  lemma JoinSix(a: string, b: string, c: string, d: string, e: string, f: string, sep: char)
    ensures Text.Join([a, b, c, d, e, f], sep) == a + [sep] + b + [sep] + c + [sep] + d + [sep] + e + [sep] + f
  {
    Text.JoinCons(e, [f], sep);
    assert [e, f] == [e] + [f];
    Text.JoinCons(d, [e, f], sep);
    assert [d, e, f] == [d] + [e, f];
    Text.JoinCons(c, [d, e, f], sep);
    assert [c, d, e, f] == [c] + [d, e, f];
    Text.JoinCons(b, [c, d, e, f], sep);
    assert [b, c, d, e, f] == [b] + [c, d, e, f];
    Text.JoinCons(a, [b, c, d, e, f], sep);
    assert [a, b, c, d, e, f] == [a] + [b, c, d, e, f];
  }

  lemma JoinThree(a: string, b: string, c: string, sep: char)
    ensures Text.Join([a, b, c], sep) == a + [sep] + b + [sep] + c
  {
    Text.JoinCons(b, [c], sep);
    assert [b, c] == [b] + [c];
    Text.JoinCons(a, [b, c], sep);
    assert [a, b, c] == [a] + [b, c];
  }

  /** Six words without the separator split back out of their join. */
  lemma SplitSix(a: string, b: string, c: string, d: string, e: string, f: string, sep: char)
    requires sep !in a && sep !in b && sep !in c && sep !in d && sep !in e && sep !in f
    ensures Text.Split(a + [sep] + b + [sep] + c + [sep] + d + [sep] + e + [sep] + f, sep) == [a, b, c, d, e, f]
  {
    JoinSix(a, b, c, d, e, f, sep);
    var ws := [a, b, c, d, e, f];
    assert forall n :: 0 <= n < |ws| ==> sep !in ws[n];
    Text.SplitJoin(ws, sep);
  }

  lemma MarlinTextSplit(i: string, j: string, k: string)
    requires ' ' !in i && ' ' !in j && ' ' !in k
    ensures Text.Split(MarlinText(i, j, k), ' ') == ["M852", "I" + i, "J" + j, "K" + k, ";", PluginId]
  {
    assert MarlinText(i, j, k)
      == "M852" + [' '] + ("I" + i) + [' '] + ("J" + j) + [' '] + ("K" + k) + [' '] + ";" + [' '] + PluginId;
    SplitSix("M852", "I" + i, "J" + j, "K" + k, ";", PluginId, ' ');
  }

  /** The M852 line carries exactly the factors `get_skew_factors` returns,
      in the order I, J, K, rounded to eight decimals. */
  lemma MarlinRoundTrip(c: Calculator)
    ensures ParseMarlin(MarlinCommand(c))
      == Some((Decimal.RoundTo(GetSkewFactors(c).0, 8), Decimal.RoundTo(GetSkewFactors(c).1, 8),
               Decimal.RoundTo(GetSkewFactors(c).2, 8)))
  {
    var a, b, k := Decimal.FormatFixed(c.i, 8), Decimal.FormatFixed(c.j, 8), Decimal.FormatFixed(c.k, 8);
    FactorWord(c.i);
    FactorWord(c.j);
    FactorWord(c.k);
    ParseMarlinText(a, b, k);
  }

  /** One factor as the M852 line writes it: no space, and read back as the
      factor rounded to eight decimals. */
  lemma FactorWord(v: real)
    ensures ' ' !in Decimal.FormatFixed(v, 8)
    ensures Decimal.ParseFixed(Decimal.FormatFixed(v, 8)) == Some(Decimal.RoundTo(v, 8))
  {
    FixedHasNo(v, 8, ' ');
    Decimal.FormatFixedRoundTrip(v, 8);
  }

  lemma ParseMarlinText(i: string, j: string, k: string)
    requires ' ' !in i && ' ' !in j && ' ' !in k
    ensures ParseMarlin(MarlinText(i, j, k))
      == AllThree(Decimal.ParseFixed(i), Decimal.ParseFixed(j), Decimal.ParseFixed(k))
  {
    var w := Text.Split(MarlinText(i, j, k), ' ');
    MarlinTextSplit(i, j, k);
    assert |w| == 6 && w[0] == "M852" && w[4] == ";" && w[5] == PluginId;
    assert w[1] == "I" + i && w[2] == "J" + j && w[3] == "K" + k;
    TaggedText("I", i);
    TaggedText("J", j);
    TaggedText("K", k);
  }

  lemma TripleSplit(x: string, y: string, z: string)
    requires ',' !in x && ',' !in y && ',' !in z
    ensures Text.Split(TripleText(x, y, z), ',') == [x, y, z]
  {
    JoinThree(x, y, z, ',');
    var ws := [x, y, z];
    assert forall n :: 0 <= n < |ws| ==> ',' !in ws[n];
    Text.SplitJoin(ws, ',');
  }

  /** Three comma-free words read back as the three numbers they spell. */
  lemma ParseTripleText(x: string, y: string, z: string)
    requires ',' !in x && ',' !in y && ',' !in z
    ensures ParseTriple(TripleText(x, y, z))
      == AllThree(Decimal.ParseFixed(x), Decimal.ParseFixed(y), Decimal.ParseFixed(z))
  {
    TripleSplit(x, y, z);
    var v := Text.Split(TripleText(x, y, z), ',');
    assert |v| == 3 && v[0] == x && v[1] == y && v[2] == z;
  }

  lemma TripleTextNo(x: string, y: string, z: string, c: char)
    requires c != ',' && c !in x && c !in y && c !in z
    ensures c !in TripleText(x, y, z)
  {
    var t := TripleText(x, y, z);
    forall n | 0 <= n < |t|
      ensures t[n] != c
    {
      if n < |x| {
        assert t[n] == x[n];
      } else if n == |x| {
        assert t[n] == ',';
      } else if n < |x| + 1 + |y| {
        assert t[n] == y[n - |x| - 1];
      } else if n == |x| + 1 + |y| {
        assert t[n] == ',';
      } else {
        assert t[n] == z[n - |x| - |y| - 2];
      }
    }
  }

  lemma PlaneTextRoundTrip(ac: real, bd: real, ad: real)
    ensures ' ' !in PlaneText(ac, bd, ad)
    ensures ParseTriple(PlaneText(ac, bd, ad))
      == Some((Decimal.RoundTo(ac, 3), Decimal.RoundTo(bd, 3), Decimal.RoundTo(ad, 3)))
  {
    var x, y, z := Decimal.FormatFixed(ac, 3), Decimal.FormatFixed(bd, 3), Decimal.FormatFixed(ad, 3);
    PlaneWord(ac);
    PlaneWord(bd);
    PlaneWord(ad);
    TripleTextNo(x, y, z, ' ');
    ParseTripleText(x, y, z);
  }

  /** One reading as the `SET_SKEW` line writes it: no space, no comma, and
      read back as the reading rounded to three decimals. */
  lemma PlaneWord(v: real)
    ensures ' ' !in Decimal.FormatFixed(v, 3) && ',' !in Decimal.FormatFixed(v, 3)
    ensures Decimal.ParseFixed(Decimal.FormatFixed(v, 3)) == Some(Decimal.RoundTo(v, 3))
  {
    FixedHasNo(v, 3, ' ');
    FixedHasNo(v, 3, ',');
    Decimal.FormatFixedRoundTrip(v, 3);
  }

  lemma TaggedTripleText(tag: string, v: string)
    ensures TaggedTriple(tag + v, tag) == ParseTriple(v)
  {
    var w := tag + v;
    assert w[..|tag|] == tag;
    assert w[|tag|..] == v;
  }

  lemma KlipperTextSplit(x: string, y: string, z: string)
    requires ' ' !in x && ' ' !in y && ' ' !in z
    ensures Text.Split(KlipperText(x, y, z), ' ') == ["SET_SKEW", "XY=" + x, "XZ=" + y, "YZ=" + z, ";", PluginId]
  {
    assert KlipperText(x, y, z)
      == "SET_SKEW" + [' '] + ("XY=" + x) + [' '] + ("XZ=" + y) + [' '] + ("YZ=" + z) + [' '] + ";" + [' '] + PluginId;
    SplitSix("SET_SKEW", "XY=" + x, "XZ=" + y, "YZ=" + z, ";", PluginId, ' ');
  }

  lemma ParseKlipperText(x: string, y: string, z: string)
    requires ' ' !in x && ' ' !in y && ' ' !in z
    ensures ParseKlipper(KlipperText(x, y, z)) == AllThree(ParseTriple(x), ParseTriple(y), ParseTriple(z))
  {
    var w := Text.Split(KlipperText(x, y, z), ' ');
    KlipperTextSplit(x, y, z);
    assert |w| == 6 && w[0] == "SET_SKEW" && w[4] == ";" && w[5] == PluginId;
    assert w[1] == "XY=" + x && w[2] == "XZ=" + y && w[3] == "YZ=" + z;
    TaggedTripleText("XY=", x);
    TaggedTripleText("XZ=", y);
    TaggedTripleText("YZ=", z);
  }

  function Rounded(p: Plane): (real, real, real)
    requires AllNumbers(p)
  {
    (Decimal.RoundTo(p.ac.value, 3), Decimal.RoundTo(p.bd.value, 3), Decimal.RoundTo(p.ad.value, 3))
  }

  /** The SET_SKEW line carries the raw readings, plane by plane in the
      order XY, XZ, YZ and each as AC, BD, AD, rounded to three decimals;
      when a reading is not a number the line is the fixed error text. */
  lemma KlipperRoundTrip(c: Calculator)
    ensures AllNumbers(c.xy) && AllNumbers(c.xz) && AllNumbers(c.yz) ==>
      ParseKlipper(KlipperCommand(c)) == Some((Rounded(c.xy), Rounded(c.xz), Rounded(c.yz)))
    ensures !(AllNumbers(c.xy) && AllNumbers(c.xz) && AllNumbers(c.yz)) ==>
      KlipperCommand(c) == KlipperError
  {
    if AllNumbers(c.xy) && AllNumbers(c.xz) && AllNumbers(c.yz) {
      PlaneTextRoundTrip(c.xy.ac.value, c.xy.bd.value, c.xy.ad.value);
      PlaneTextRoundTrip(c.xz.ac.value, c.xz.bd.value, c.xz.ad.value);
      PlaneTextRoundTrip(c.yz.ac.value, c.yz.bd.value, c.yz.ad.value);
      ParseKlipperText(PlaneText(c.xy.ac.value, c.xy.bd.value, c.xy.ad.value),
                       PlaneText(c.xz.ac.value, c.xz.bd.value, c.xz.ad.value),
                       PlaneText(c.yz.ac.value, c.yz.bd.value, c.yz.ad.value));
    }
  }

  /** The Klipper line does not depend on the factors, and is written even
      when a side AD is not positive. */
  lemma KlipperIgnoresFactors(c: Calculator, i: real, j: real, k: real)
    ensures KlipperCommand(c.(i := i, j := j, k := k)) == KlipperCommand(c)
  {
  }

  // The half-angle formula of `_calculate_skew_factor`.

  /** `(AC² - BD²) / (2·AD²)`, before clamping. */
  function HalfArgument(ac: real, bd: real, ad: real): real
    requires ad != 0.0
  {
    Maths.SqPositive(ad);
    (Maths.Sq(ac) - Maths.Sq(bd)) / (2.0 * Maths.Sq(ad))
  }

  /** `_calculate_skew_factor`: the clamped half formula turned into degrees
      by `acos`; 0.0 when AD is zero. Nothing in the plugin calls it. */
  function SkewAngle(ac: real, bd: real, ad: real, t: Maths.Trig): (r: real)
    requires t.pi > 0.0
    ensures ad == 0.0 ==> r == 0.0
    ensures ad != 0.0 ==> r * t.pi == t.acos(Maths.Clamp(HalfArgument(ac, bd, ad))) * 180.0
  {
    if ad == 0.0 then 0.0
    else
      var v := t.acos(Maths.Clamp(HalfArgument(ac, bd, ad)));
      Maths.DivCancel(v * 180.0, t.pi);
      assert v / t.pi * 180.0 == v * 180.0 / t.pi;
      v / t.pi * 180.0
  }

  lemma HalfOfQuarter(x: real, s: real)
    requires s > 0.0
    ensures x / (2.0 * s) == 2.0 * (x / (4.0 * s))
  {
  }

  /** The half formula's argument is twice the Marlin factor of the same
      readings, so the two formulas disagree. */
  lemma HalfArgumentIsTwiceFactor(p: Plane)
    requires Measured(p)
    ensures HalfArgument(p.ac.value, p.bd.value, p.ad.value) == 2.0 * PlaneFactor(p)
  {
    Maths.SqPositive(p.ad.value);
    HalfOfQuarter(Maths.Sq(p.ac.value) - Maths.Sq(p.bd.value), Maths.Sq(p.ad.value));
  }

  /** For a square print the half formula reports 90 degrees, where the
      Marlin factor is 0. */
  lemma SquareIsNinetyDegrees(a: real, ad: real, t: Maths.Trig)
    requires t.RightAngle() && ad != 0.0
    ensures SkewAngle(a, a, ad, t) == 90.0
  {
    Maths.SqPositive(ad);
    assert HalfArgument(a, a, ad) == 0.0;
    var r := SkewAngle(a, a, ad, t);
    assert r * t.pi == t.pi / 2.0 * 180.0;
    Maths.CancelFactor(r, 90.0, t.pi);
  }

  /** A print with diagonals 150 and 130 on a 100 side gives I = 0.14. */
  lemma WorkedExample()
    ensures PlaneFactor(Plane(Number(150.0), Number(130.0), Number(100.0))) == 0.14
  {
    var p := Plane(Number(150.0), Number(130.0), Number(100.0));
    assert Maths.Times(150.0, 150.0) == 22500.0;
    assert Maths.Times(130.0, 130.0) == 16900.0;
    assert Maths.Times(100.0, 100.0) == 10000.0;
  }
}
