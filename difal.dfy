/**
 * The DIFAL calculator: the ICMS rate differential owed to the destination
 * state in an interstate sale (Emenda Constitucional 87/2015), with the
 * optional FECOP surcharge. All amounts are exact (unrounded) reals.
 */
module Difal {
  import opened Rates

  datatype Option<T> = None | Some(value: T)

  datatype OperationType = Consumer | Contributor

  /** Single base taxes the value "by outside"; double base grosses it up "by inside". */
  datatype CalculationMethod = SingleBase | DoubleBase

  /** Interstate rate for imported goods. */
  const ImportedInterstateRate: real := 0.04

  const NoDifalMessage: string := "Não há DIFAL: alíquota interna menor ou igual à interestadual."
  const Ec87Message: string := "DIFAL calculado conforme EC 87/2015"
  const FecopSuffix: string := " com adicional de FECOP."
  const FecopOnlyMessage: string := "Operação com adicional de FECOP."

  /** The computed amounts and the status message. */
  datatype Results = Results(
    icmsOrigem: real,
    icmsDestinoTotal: real,
    difal: real,
    fecop: real,
    totalIcmsOperacao: real,
    totalRecolherDestino: real,
    mensagem: string)

  /** A calculation: the inputs echoed back, the resolved interstate rate, and the results. */
  datatype Calculation = Calculation(
    invoiceValue: real,
    originState: StateAliquot,
    destinationState: StateAliquot,
    operationType: OperationType,
    calculationMethod: CalculationMethod,
    interstateRate: real,
    hasFecop: bool,
    fecopPercent: real,
    isImported: bool,
    results: Results)

  /**
   * The interstate rate of the operation: a manual rate wins over everything,
   * then imported goods, then the table entry of the destination.
   */
  function ResolveInterstateRate(manualRate: Option<real>, isImported: bool, destinationCode: string): (r: real)
    ensures manualRate.Some? ==> r == manualRate.value
    ensures manualRate.None? && isImported ==> r == ImportedInterstateRate
    ensures manualRate.None? && !isImported && destinationCode in InterstateRates ==> r == InterstateRates[destinationCode]
    ensures manualRate.None? && !isImported && destinationCode !in InterstateRates ==> r == DefaultInterstateRate
    ensures manualRate.None? ==> 0.0 < r < 1.0
  {
    match manualRate
    case Some(rate) => rate
    case None => if isImported then ImportedInterstateRate else InterstateRate(destinationCode)
  }

  /** The grossed-up base of the double-base method: the value with the destination ICMS included. */
  function GrossedUpBase(invoiceValue: real, internalRate: real): (base: real)
    requires internalRate != 1.0
    ensures base - base * internalRate == invoiceValue
  {
    invoiceValue / (1.0 - internalRate)
  }

  /** Total destination ICMS and the differential before the policy check. */
  datatype DestinationTax = DestinationTax(icmsDestinoTotal: real, rawDifal: real)

  /**
   * Total destination ICMS and the raw (unclipped) differential. Under single
   * base both are charged on the invoice value; under double base they are
   * charged on a base that contains the destination ICMS itself.
   */
  function DestinationAmounts(calculationMethod: CalculationMethod, invoiceValue: real, internalRate: real, interstateRate: real): (t: DestinationTax)
    requires calculationMethod == DoubleBase ==> internalRate != 1.0
    ensures calculationMethod == SingleBase ==> t.icmsDestinoTotal == invoiceValue * internalRate
    ensures calculationMethod == SingleBase ==> t.rawDifal == invoiceValue * (internalRate - interstateRate)
    ensures calculationMethod == DoubleBase ==> t.icmsDestinoTotal == (invoiceValue + t.icmsDestinoTotal) * internalRate
    ensures calculationMethod == DoubleBase ==> t.rawDifal == (invoiceValue + t.icmsDestinoTotal) * (internalRate - interstateRate)
  {
    match calculationMethod
    case SingleBase =>
      var icmsDestinoTotal := invoiceValue * internalRate;
      DestinationTax(icmsDestinoTotal, icmsDestinoTotal - invoiceValue * interstateRate)
    case DoubleBase =>
      var base := GrossedUpBase(invoiceValue, internalRate);
      var icmsDestinoTotal := base * internalRate;
      assert base == invoiceValue + icmsDestinoTotal;
      DestinationTax(icmsDestinoTotal, icmsDestinoTotal - base * interstateRate)
  }

  /**
   * The differential actually owed: nothing when the internal rate is not
   * above the interstate rate, otherwise the raw differential clipped at 0.
   */
  function FinalDifal(rawDifal: real, internalRate: real, interstateRate: real): (d: real)
    ensures d >= 0.0
    ensures internalRate <= interstateRate ==> d == 0.0
    ensures internalRate > interstateRate && rawDifal >= 0.0 ==> d == rawDifal
    ensures rawDifal <= 0.0 ==> d == 0.0
  {
    if internalRate <= interstateRate then 0.0
    else if rawDifal < 0.0 then 0.0 else rawDifal
  }

  /** The FECOP surcharge: a percentage of the invoice value, and nothing when FECOP is off. */
  function Fecop(invoiceValue: real, hasFecop: bool, fecopPercent: real): (f: real)
    ensures !hasFecop ==> f == 0.0
    ensures hasFecop ==> f * 100.0 == invoiceValue * fecopPercent
  {
    if hasFecop then invoiceValue * (fecopPercent / 100.0) else 0.0
  }

  /**
   * The status message: the policy text, then the FECOP wording or a closing
   * period. The differential passed in is the one FinalDifal settled on, so it
   * is 0 whenever the policy says there is none.
   */
  function Message(internalRate: real, interstateRate: real, finalDifal: real, hasFecop: bool, fecop: real): (m: string)
    requires internalRate <= interstateRate ==> finalDifal == 0.0
    ensures hasFecop && fecop > 0.0 && finalDifal > 0.0 ==> m == Ec87Message + FecopSuffix
    ensures hasFecop && fecop > 0.0 && finalDifal <= 0.0 ==> m == FecopOnlyMessage
    ensures !(hasFecop && fecop > 0.0) && finalDifal > 0.0 && interstateRate < internalRate ==> m == Ec87Message + "."
    ensures !(hasFecop && fecop > 0.0) && internalRate <= interstateRate ==> m == NoDifalMessage
    ensures !(hasFecop && fecop > 0.0) && finalDifal <= 0.0 && interstateRate < internalRate ==> m == Ec87Message
  {
    var policy := if internalRate <= interstateRate then NoDifalMessage else Ec87Message;
    if hasFecop && fecop > 0.0 then
      (if finalDifal > 0.0 then policy + FecopSuffix else FecopOnlyMessage)
    else if finalDifal > 0.0 then policy + "."
    else policy
  }

  /**
   * The whole calculation. Only the double-base method needs a guard: its
   * base divides by one minus the internal rate.
   */
  function CalculateDIFAL(
    invoiceValue: real,
    originState: StateAliquot,
    destinationState: StateAliquot,
    operationType: OperationType,
    calculationMethod: CalculationMethod,
    hasFecop: bool,
    fecopPercent: real,
    manualInterstateRate: Option<real>,
    isImported: bool): (c: Calculation)
    requires calculationMethod == DoubleBase ==> destinationState.internalRate != 1.0
    ensures c.invoiceValue == invoiceValue && c.originState == originState
    ensures c.destinationState == destinationState && c.operationType == operationType
    ensures c.calculationMethod == calculationMethod && c.hasFecop == hasFecop
    ensures c.fecopPercent == fecopPercent && c.isImported == isImported
    ensures c.results.icmsOrigem == invoiceValue * c.interstateRate
    ensures c.results.difal >= 0.0
    ensures destinationState.internalRate <= c.interstateRate ==> c.results.difal == 0.0
    ensures !hasFecop ==> c.results.fecop == 0.0
    ensures c.results.totalIcmsOperacao == c.results.icmsDestinoTotal
    ensures c.results.totalRecolherDestino == c.results.difal + c.results.fecop
  {
    var interstateRate := ResolveInterstateRate(manualInterstateRate, isImported, destinationState.code);
    var internalRate := destinationState.internalRate;
    var icmsOrigem := invoiceValue * interstateRate;
    var tax := DestinationAmounts(calculationMethod, invoiceValue, internalRate, interstateRate);
    var icmsDestinoTotal := tax.icmsDestinoTotal;
    var difal := FinalDifal(tax.rawDifal, internalRate, interstateRate);
    var fecop := Fecop(invoiceValue, hasFecop, fecopPercent);
    var message := Message(internalRate, interstateRate, difal, hasFecop, fecop);
    Calculation(
      invoiceValue, originState, destinationState, operationType, calculationMethod,
      interstateRate, hasFecop, fecopPercent, isImported,
      Results(icmsOrigem, icmsDestinoTotal, difal, fecop, icmsDestinoTotal, difal + fecop, message))
  }
}
