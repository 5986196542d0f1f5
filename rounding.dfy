/**
 * The rounding applied to the numbers a calculation returns: each amount is
 * rendered with two decimals and read back, i.e. rounded to whole cents with
 * ties going away from zero. Every other part of the calculation works on the
 * unrounded amounts.
 */
module Rounding {
  import opened Rates
  import opened Difal
  import DifalProperties

  /** True when x is a whole number of cents. */
  predicate IsCents(x: real)
  {
    (x * 100.0).Floor as real == x * 100.0
  }

  /**
   * Rounds to two decimals: to the nearest cent, and on a tie to the cent
   * farther from zero.
   */
  function Round2(x: real): (r: real)
    ensures IsCents(r)
    ensures x >= 0.0 ==> x - 0.005 < r <= x + 0.005
    ensures x < 0.0 ==> x - 0.005 <= r < x + 0.005
    ensures x >= 0.0 ==> r >= 0.0
    ensures x <= 0.0 ==> r <= 0.0
  {
    if x >= 0.0 then HalfUpCents(x)
    else
      var h := HalfUpCents(-x);
      NegatedCents(h);
      -h
  }

  lemma NegatedCents(x: real)
    requires IsCents(x)
    ensures IsCents(-x)
  {
    var n := (x * 100.0).Floor;
    assert (-x) * 100.0 == (-n) as real;
  }

  /** Nearest cent of a non-negative amount, a tie going up. */
  function HalfUpCents(x: real): (r: real)
    requires x >= 0.0
    ensures IsCents(r)
    ensures x - 0.005 < r <= x + 0.005
    ensures r >= 0.0
  {
    var cents := (x * 100.0 + 0.5).Floor;
    assert (cents as real) * 0.01 * 100.0 == cents as real;
    (cents as real) / 100.0
  }

  /** An amount that is already whole cents is left as it is. */
  lemma Round2KeepsCents(k: int)
    ensures Round2(k as real / 100.0) == k as real / 100.0
  {
    var x := k as real / 100.0;
    assert x * 100.0 == k as real;
    if x >= 0.0 {
      assert (x * 100.0 + 0.5).Floor == k;
    } else {
      assert ((-x) * 100.0 + 0.5).Floor == -k;
    }
  }

  /** A half-cent tie goes to the cent farther from zero, on either sign. */
  lemma Round2TieAwayFromZero(k: nat)
    ensures Round2((k as real + 0.5) / 100.0) == (k + 1) as real / 100.0
    ensures Round2(-(k as real + 0.5) / 100.0) == -((k + 1) as real / 100.0)
  {
    var x := (k as real + 0.5) / 100.0;
    assert x * 100.0 + 0.5 == (k + 1) as real;
    assert (x * 100.0 + 0.5).Floor == k + 1;
    assert (-(-x)) == x;
  }

  /** Round2 is monotone: rounding never reverses the order of two amounts. */
  lemma Round2Monotone(x: real, y: real)
    requires x <= y
    ensures Round2(x) <= Round2(y)
  {
    if 0.0 <= x {
      FloorMonotone(x * 100.0 + 0.5, y * 100.0 + 0.5);
    } else if y < 0.0 {
      FloorMonotone((-y) * 100.0 + 0.5, (-x) * 100.0 + 0.5);
    }
  }

  lemma FloorMonotone(a: real, b: real)
    requires a <= b
    ensures a.Floor <= b.Floor
  {
  }

  /** The amounts agree to within half a cent. */
  predicate WithinHalfCent(rounded: real, exact: real)
  {
    -0.005 <= rounded - exact <= 0.005
  }

  /**
   * The result as returned: every amount rounded to whole cents, the echoed
   * inputs and the message unchanged.
   */
  function Published(c: Calculation): (p: Calculation)
    ensures p.(results := c.results) == c
    ensures p.results.mensagem == c.results.mensagem
    ensures p.results.icmsOrigem == Round2(c.results.icmsOrigem)
    ensures p.results.icmsDestinoTotal == Round2(c.results.icmsDestinoTotal)
    ensures p.results.difal == Round2(c.results.difal)
    ensures p.results.fecop == Round2(c.results.fecop)
    ensures p.results.totalIcmsOperacao == Round2(c.results.totalIcmsOperacao)
    ensures p.results.totalRecolherDestino == Round2(c.results.totalRecolherDestino)
    ensures IsCents(p.results.icmsOrigem) && WithinHalfCent(p.results.icmsOrigem, c.results.icmsOrigem)
    ensures IsCents(p.results.icmsDestinoTotal) && WithinHalfCent(p.results.icmsDestinoTotal, c.results.icmsDestinoTotal)
    ensures IsCents(p.results.difal) && WithinHalfCent(p.results.difal, c.results.difal)
    ensures IsCents(p.results.fecop) && WithinHalfCent(p.results.fecop, c.results.fecop)
    ensures IsCents(p.results.totalIcmsOperacao) && WithinHalfCent(p.results.totalIcmsOperacao, c.results.totalIcmsOperacao)
    ensures IsCents(p.results.totalRecolherDestino) && WithinHalfCent(p.results.totalRecolherDestino, c.results.totalRecolherDestino)
    ensures c.results.difal >= 0.0 ==> p.results.difal >= 0.0
    ensures c.results.fecop == 0.0 ==> p.results.fecop == 0.0
    ensures c.results.totalIcmsOperacao == c.results.icmsDestinoTotal ==> p.results.totalIcmsOperacao == p.results.icmsDestinoTotal
  {
    var r := c.results;
    c.(results := Results(
      Round2(r.icmsOrigem), Round2(r.icmsDestinoTotal), Round2(r.difal),
      Round2(r.fecop), Round2(r.totalIcmsOperacao), Round2(r.totalRecolherDestino),
      r.mensagem))
  }

  /**
   * The published DIFAL is never negative, the published FECOP is 0 when
   * FECOP is off, and the published operation total equals the published
   * destination ICMS.
   */
  lemma PublishedPolicy(
    v: real, origin: StateAliquot, dest: StateAliquot, op: OperationType, cm: CalculationMethod,
    hasFecop: bool, fecopPercent: real, manual: Option<real>, isImported: bool)
    requires cm == DoubleBase ==> dest.internalRate != 1.0
    ensures var p := Published(CalculateDIFAL(v, origin, dest, op, cm, hasFecop, fecopPercent, manual, isImported));
      && p.results.difal >= 0.0
      && (!hasFecop ==> p.results.fecop == 0.0)
      && p.results.totalIcmsOperacao == p.results.icmsDestinoTotal
  {
  }

  /**
   * Each amount is rounded on its own, so the published amount due can be a
   * cent short of the published DIFAL plus the published FECOP: on 0.25 from
   * SP to RJ with 2% FECOP both parts are 0.005 and each rounds up to 0.01,
   * while their sum 0.01 stays 0.01.
   */
  lemma PublishedTotalIsNotSumOfPublishedParts()
    ensures var p := Published(CalculateDIFAL(0.25, StateAliquots["SP"], StateAliquots["RJ"], Consumer, SingleBase, true, 2.0, None, false));
      && p.results.difal == 0.01
      && p.results.fecop == 0.01
      && p.results.totalRecolherDestino == 0.01
      && p.results.totalRecolherDestino != p.results.difal + p.results.fecop
  {
    var c := CalculateDIFAL(0.25, StateAliquots["SP"], StateAliquots["RJ"], Consumer, SingleBase, true, 2.0, None, false);
    assert c.results.difal == 0.005 && c.results.fecop == 0.005 && c.results.totalRecolherDestino == 0.01;
    assert Round2(0.005) == 0.01 by { assert (0.005 * 100.0 + 0.5).Floor == 1; }
    Round2KeepsCents(1);
  }

  /** The SP to RJ example as returned: 1800.00 / 2000.00 / 200.00. */
  lemma PublishedSaoPauloToRio()
    ensures var p := Published(CalculateDIFAL(10000.0, StateAliquots["SP"], StateAliquots["RJ"], Consumer, SingleBase, false, 2.0, None, false));
      p.results == Results(1800.0, 2000.0, 200.0, 0.0, 2000.0, 200.0, Ec87Message + ".")
  {
    DifalProperties.ScenarioSaoPauloToRio();
    Round2KeepsCents(180000);
    Round2KeepsCents(200000);
    Round2KeepsCents(20000);
    Round2KeepsCents(0);
  }
}
