/**
 * Properties of the DIFAL calculator that relate several calls, the rate
 * tables and the two calculation methods, and the worked scenarios.
 */
module DifalProperties {
  import opened Rates
  import opened Difal

  /** True when the call resolves its interstate rate from the table. */
  predicate TableDriven(manualInterstateRate: Option<real>, isImported: bool)
  {
    manualInterstateRate.None? && !isImported
  }

  /**
   * Precedence of the three rate sources as seen in the result: a manual rate
   * is used verbatim even for imported goods, imported goods get 4%, and
   * otherwise the destination's table entry (or the 12% default) applies.
   */
  lemma RatePrecedence(
    v: real, origin: StateAliquot, dest: StateAliquot, op: OperationType, cm: CalculationMethod,
    hasFecop: bool, fecopPercent: real, manual: Option<real>, isImported: bool)
    requires cm == DoubleBase ==> dest.internalRate != 1.0
    ensures var c := CalculateDIFAL(v, origin, dest, op, cm, hasFecop, fecopPercent, manual, isImported);
      && (manual.Some? ==> c.interstateRate == manual.value)
      && (manual.None? && isImported ==> c.interstateRate == 0.04)
      && (TableDriven(manual, isImported) ==> c.interstateRate == InterstateRate(dest.code))
      && (TableDriven(manual, isImported) && dest.code in InterstateRates ==> c.interstateRate == InterstateRates[dest.code])
      && (TableDriven(manual, isImported) && dest.code !in InterstateRates ==> c.interstateRate == 0.12)
  {
  }

  /**
   * The origin state and the operation type are only echoed: two calls that
   * differ in nothing else produce the same rate and the same results.
   */
  lemma OriginAndOperationTypeAreInert(
    v: real, origin1: StateAliquot, origin2: StateAliquot, dest: StateAliquot,
    op1: OperationType, op2: OperationType, cm: CalculationMethod,
    hasFecop: bool, fecopPercent: real, manual: Option<real>, isImported: bool)
    requires cm == DoubleBase ==> dest.internalRate != 1.0
    ensures var c1 := CalculateDIFAL(v, origin1, dest, op1, cm, hasFecop, fecopPercent, manual, isImported);
      var c2 := CalculateDIFAL(v, origin2, dest, op2, cm, hasFecop, fecopPercent, manual, isImported);
      c1.interstateRate == c2.interstateRate && c1.results == c2.results
  {
  }

  /**
   * Single base: destination ICMS is the value times the internal rate, and
   * when the internal rate is above the interstate rate on a non-negative
   * value the DIFAL owed is the value times the rate gap, which is the
   * destination ICMS minus the origin ICMS.
   */
  lemma SingleBaseDifal(
    v: real, origin: StateAliquot, dest: StateAliquot, op: OperationType,
    hasFecop: bool, fecopPercent: real, manual: Option<real>, isImported: bool)
    requires v >= 0.0
    ensures var c := CalculateDIFAL(v, origin, dest, op, SingleBase, hasFecop, fecopPercent, manual, isImported);
      && c.results.icmsDestinoTotal == v * dest.internalRate
      && (dest.internalRate > c.interstateRate ==>
            c.results.difal == v * (dest.internalRate - c.interstateRate)
            && c.results.difal == c.results.icmsDestinoTotal - c.results.icmsOrigem)
  {
    var s := ResolveInterstateRate(manual, isImported, dest.code);
    SingleBaseAmounts(v, dest.internalRate, s);
  }

  /** The component form of SingleBaseDifal, for a given interstate rate. */
  lemma SingleBaseAmounts(v: real, internalRate: real, interstateRate: real)
    requires v >= 0.0
    ensures var t := DestinationAmounts(SingleBase, v, internalRate, interstateRate);
      internalRate > interstateRate ==>
        && FinalDifal(t.rawDifal, internalRate, interstateRate) == v * (internalRate - interstateRate)
        && t.rawDifal == t.icmsDestinoTotal - v * interstateRate
  {
    if internalRate > interstateRate {
      NonNegativeProduct(v, internalRate - interstateRate);
    }
  }

  /**
   * Double base: the destination ICMS is the internal rate applied to a base
   * that already contains it (base = value + ICMS), and for an internal rate
   * in [0, 1) that base is never below the value.
   */
  lemma DoubleBaseDifal(
    v: real, origin: StateAliquot, dest: StateAliquot, op: OperationType,
    hasFecop: bool, fecopPercent: real, manual: Option<real>, isImported: bool)
    requires v >= 0.0 && 0.0 <= dest.internalRate < 1.0
    ensures var c := CalculateDIFAL(v, origin, dest, op, DoubleBase, hasFecop, fecopPercent, manual, isImported);
      var base := v + c.results.icmsDestinoTotal;
      && base >= v
      && c.results.icmsDestinoTotal == base * dest.internalRate
      && (dest.internalRate > c.interstateRate ==>
            c.results.difal == base * (dest.internalRate - c.interstateRate))
  {
    var s := ResolveInterstateRate(manual, isImported, dest.code);
    DoubleBaseAmounts(v, dest.internalRate, s);
  }

  /** The component form of DoubleBaseDifal, for a given interstate rate. */
  lemma DoubleBaseAmounts(v: real, internalRate: real, interstateRate: real)
    requires v >= 0.0 && 0.0 <= internalRate < 1.0
    ensures var t := DestinationAmounts(DoubleBase, v, internalRate, interstateRate);
      var base := v + t.icmsDestinoTotal;
      && base >= v
      && (internalRate > interstateRate ==>
            FinalDifal(t.rawDifal, internalRate, interstateRate) == base * (internalRate - interstateRate))
  {
    var t := DestinationAmounts(DoubleBase, v, internalRate, interstateRate);
    InclusiveBaseBounds(v + t.icmsDestinoTotal, v, internalRate);
    if internalRate > interstateRate {
      NonNegativeProduct(v + t.icmsDestinoTotal, internalRate - interstateRate);
    }
  }

  /**
   * DIFAL policy: no differential when the internal rate is not above the
   * interstate rate; a strictly positive one when it is, for a positive value
   * and an internal rate below 100%, under either method.
   */
  lemma DifalPositiveIffRateGap(
    v: real, origin: StateAliquot, dest: StateAliquot, op: OperationType, cm: CalculationMethod,
    hasFecop: bool, fecopPercent: real, manual: Option<real>, isImported: bool)
    requires v > 0.0 && dest.internalRate < 1.0
    ensures var c := CalculateDIFAL(v, origin, dest, op, cm, hasFecop, fecopPercent, manual, isImported);
      c.results.difal > 0.0 <==> dest.internalRate > c.interstateRate
  {
    var s := ResolveInterstateRate(manual, isImported, dest.code);
    if dest.internalRate > s {
      match cm
      case SingleBase => SingleBaseRawDifalPositive(v, dest.internalRate, s);
      case DoubleBase => DoubleBaseRawDifalPositive(v, dest.internalRate, s);
    }
  }

  /** Single base: a rate gap on a positive value gives a positive raw differential. */
  lemma SingleBaseRawDifalPositive(v: real, internalRate: real, interstateRate: real)
    requires v > 0.0 && interstateRate < internalRate
    ensures DestinationAmounts(SingleBase, v, internalRate, interstateRate).rawDifal > 0.0
  {
    PositiveProduct(v, internalRate - interstateRate);
  }

  /** Double base: the same, as long as the internal rate is below 100%. */
  lemma DoubleBaseRawDifalPositive(v: real, internalRate: real, interstateRate: real)
    requires v > 0.0 && interstateRate < internalRate < 1.0
    ensures DestinationAmounts(DoubleBase, v, internalRate, interstateRate).rawDifal > 0.0
  {
    var t := DestinationAmounts(DoubleBase, v, internalRate, interstateRate);
    InclusiveBaseBounds(v + t.icmsDestinoTotal, v, internalRate);
    PositiveProduct(v + t.icmsDestinoTotal, internalRate - interstateRate);
  }

  /**
   * For the same inputs, the double-base method never charges less
   * destination ICMS and never owes less DIFAL than the single-base method
   * (its base is grossed up).
   */
  lemma DoubleBaseOwesAtLeastSingleBase(
    v: real, origin: StateAliquot, dest: StateAliquot, op: OperationType,
    hasFecop: bool, fecopPercent: real, manual: Option<real>, isImported: bool)
    requires v >= 0.0 && 0.0 <= dest.internalRate < 1.0
    ensures var single := CalculateDIFAL(v, origin, dest, op, SingleBase, hasFecop, fecopPercent, manual, isImported);
      var double := CalculateDIFAL(v, origin, dest, op, DoubleBase, hasFecop, fecopPercent, manual, isImported);
      && double.results.icmsDestinoTotal >= single.results.icmsDestinoTotal
      && double.results.difal >= single.results.difal
  {
    var s := ResolveInterstateRate(manual, isImported, dest.code);
    DoubleBaseDominates(v, dest.internalRate, s);
  }

  /** The component form of DoubleBaseOwesAtLeastSingleBase, for a given interstate rate. */
  lemma DoubleBaseDominates(v: real, internalRate: real, interstateRate: real)
    requires v >= 0.0 && 0.0 <= internalRate < 1.0
    ensures var single := DestinationAmounts(SingleBase, v, internalRate, interstateRate);
      var double := DestinationAmounts(DoubleBase, v, internalRate, interstateRate);
      && double.icmsDestinoTotal >= single.icmsDestinoTotal
      && FinalDifal(double.rawDifal, internalRate, interstateRate) >= FinalDifal(single.rawDifal, internalRate, interstateRate)
  {
    var double := DestinationAmounts(DoubleBase, v, internalRate, interstateRate);
    var base := v + double.icmsDestinoTotal;
    DoubleBaseAmounts(v, internalRate, interstateRate);
    SingleBaseAmounts(v, internalRate, interstateRate);
    ProductMonotone(v, base, internalRate);
    if internalRate > interstateRate {
      ProductMonotone(v, base, internalRate - interstateRate);
    }
  }

  /** The FECOP surcharge is the given percentage of the value when on, and added to the amount due. */
  lemma FecopAddsToAmountDue(
    v: real, origin: StateAliquot, dest: StateAliquot, op: OperationType, cm: CalculationMethod,
    fecopPercent: real, manual: Option<real>, isImported: bool)
    requires cm == DoubleBase ==> dest.internalRate != 1.0
    ensures var on := CalculateDIFAL(v, origin, dest, op, cm, true, fecopPercent, manual, isImported);
      var off := CalculateDIFAL(v, origin, dest, op, cm, false, fecopPercent, manual, isImported);
      && on.results.fecop == v * fecopPercent / 100.0
      && off.results.fecop == 0.0
      && on.results.difal == off.results.difal
      && on.results.totalRecolherDestino == off.results.totalRecolherDestino + v * fecopPercent / 100.0
  {
  }

  /**
   * The status message, case by case: a positive FECOP either extends the
   * EC 87/2015 text or replaces the message; without it, a positive DIFAL
   * closes the EC 87/2015 text with a period, the policy refusal keeps its own
   * text, and a differential clipped to 0 leaves the EC 87/2015 text bare.
   */
  lemma MessageCases(
    v: real, origin: StateAliquot, dest: StateAliquot, op: OperationType, cm: CalculationMethod,
    hasFecop: bool, fecopPercent: real, manual: Option<real>, isImported: bool)
    requires cm == DoubleBase ==> dest.internalRate != 1.0
    ensures var c := CalculateDIFAL(v, origin, dest, op, cm, hasFecop, fecopPercent, manual, isImported);
      var r := c.results;
      && (r.fecop > 0.0 && r.difal > 0.0 ==> r.mensagem == Ec87Message + FecopSuffix)
      && (r.fecop > 0.0 && r.difal == 0.0 ==> r.mensagem == FecopOnlyMessage)
      && (r.fecop <= 0.0 && r.difal > 0.0 ==> r.mensagem == Ec87Message + ".")
      && (r.fecop <= 0.0 && dest.internalRate <= c.interstateRate ==> r.mensagem == NoDifalMessage)
      && (r.fecop <= 0.0 && r.difal == 0.0 && dest.internalRate > c.interstateRate ==> r.mensagem == Ec87Message)
  {
  }

  /**
   * The bare EC 87/2015 text is reachable: a double-base call whose internal
   * rate is above 100% grosses the value up to a negative base, the raw
   * differential is negative, and max(0, ·) clips it.
   */
  lemma ClippedDifalKeepsBareMessage()
    ensures var dest := StateAliquot("XX", "Teste", 1.5, Sul);
      var c := CalculateDIFAL(100.0, StateAliquots["SP"], dest, Consumer, DoubleBase, false, 0.0, None, false);
      && c.results.difal == 0.0
      && c.results.mensagem == Ec87Message
  {
    assert GrossedUpBase(100.0, 1.5) == -200.0;
  }

  /**
   * With table rates São Paulo never receives DIFAL, whatever the value or
   * method: its interstate entry is as high as its internal rate. Only a FECOP
   * surcharge is ever due to it.
   */
  lemma SaoPauloReceivesNoDifal(
    v: real, origin: StateAliquot, op: OperationType, cm: CalculationMethod,
    hasFecop: bool, fecopPercent: real)
    ensures var c := CalculateDIFAL(v, origin, StateAliquots["SP"], op, cm, hasFecop, fecopPercent, None, false);
      && c.results.difal == 0.0
      && c.results.totalRecolherDestino == c.results.fecop
  {
    SaoPauloRatesCoincide();
  }

  // Worked scenarios.

  /** SP to RJ, single base, 10000: origin ICMS 1800, destination ICMS 2000, DIFAL 200. */
  lemma ScenarioSaoPauloToRio()
    ensures var c := CalculateDIFAL(10000.0, StateAliquots["SP"], StateAliquots["RJ"], Consumer, SingleBase, false, 2.0, None, false);
      && c.interstateRate == 0.18
      && c.results == Results(1800.0, 2000.0, 200.0, 0.0, 2000.0, 200.0, Ec87Message + ".")
  {
  }

  /** Internal rate set equal to the interstate rate: no DIFAL, and the message says so. */
  lemma ScenarioEqualRates()
    ensures var dest := StateAliquots["RJ"].(internalRate := 0.18);
      var c := CalculateDIFAL(10000.0, StateAliquots["SP"], dest, Consumer, SingleBase, false, 0.0, None, false);
      && c.results.difal == 0.0
      && c.results.mensagem == NoDifalMessage
  {
  }

  /** Imported goods, 5000 to a 20% destination: 4% interstate, 200 / 1000 / 800. */
  lemma ScenarioImported()
    ensures var c := CalculateDIFAL(5000.0, StateAliquots["SP"], StateAliquots["RJ"], Consumer, SingleBase, false, 0.0, None, true);
      && c.interstateRate == 0.04
      && c.results.icmsOrigem == 200.0
      && c.results.icmsDestinoTotal == 1000.0
      && c.results.difal == 800.0
  {
  }

  /** FECOP of 2% on 10000 from SP to RJ adds 200 to the DIFAL of 200. */
  lemma ScenarioFecopWithDifal()
    ensures var c := CalculateDIFAL(10000.0, StateAliquots["SP"], StateAliquots["RJ"], Consumer, SingleBase, true, 2.0, None, false);
      && c.results.fecop == 200.0
      && c.results.totalRecolherDestino == 400.0
      && c.results.mensagem == Ec87Message + FecopSuffix
  {
  }

  /** FECOP of 2% on 10000 into SP, where no DIFAL applies, is the whole amount due. */
  lemma ScenarioFecopWithoutDifal()
    ensures var c := CalculateDIFAL(10000.0, StateAliquots["RJ"], StateAliquots["SP"], Consumer, SingleBase, true, 2.0, None, false);
      && c.results.difal == 0.0
      && c.results.totalRecolherDestino == 200.0
      && c.results.mensagem == FecopOnlyMessage
  {
  }

  // Arithmetic helpers.

  lemma NonNegativeProduct(x: real, y: real)
    requires x >= 0.0 && y >= 0.0
    ensures x * y >= 0.0
  {
  }

  lemma PositiveProduct(x: real, y: real)
    requires x > 0.0 && y > 0.0
    ensures x * y > 0.0
  {
  }

  lemma ProductMonotone(x: real, y: real, k: real)
    requires x <= y && k >= 0.0
    ensures x * k <= y * k
  {
  }

  /**
   * A base that contains its own tax (base - base * rate == value) is
   * positive for a positive value, and, for a rate in [0, 1), at least the
   * value.
   */
  lemma InclusiveBaseBounds(base: real, v: real, internalRate: real)
    requires base - base * internalRate == v && internalRate < 1.0
    ensures v > 0.0 ==> base > 0.0
    ensures v >= 0.0 ==> base >= 0.0
    ensures v >= 0.0 && internalRate >= 0.0 ==> base >= v
  {
    if base < 0.0 {
      PositiveProduct(-base, 1.0 - internalRate);
    } else if v >= 0.0 && internalRate >= 0.0 {
      NonNegativeProduct(base, internalRate);
    }
  }
}
