/**
 * The two static ICMS rate tables of the DIFAL calculator and the
 * interstate-rate lookup. Rates are fractions (0.18 is 18%), held as exact
 * `real`s.
 */
module Rates {

  /** The five Brazilian regions a state belongs to. */
  datatype Region = Norte | Nordeste | CentroOeste | Sudeste | Sul

  /** A state (or the federal district) with its internal ICMS rate. */
  datatype StateAliquot = StateAliquot(code: string, name: string, internalRate: real, region: Region)

  /** Rate used when the destination code has no (truthy) interstate entry. */
  const DefaultInterstateRate: real := 0.12

  /** Interstate ICMS rate by destination state code (2025 table). */
  const InterstateRates: map<string, real> := map[
    "AC" := 0.07, "AL" := 0.17, "AP" := 0.07, "AM" := 0.07, "BA" := 0.17, "CE" := 0.17,
    "DF" := 0.18, "ES" := 0.12, "GO" := 0.10, "MA" := 0.17, "MT" := 0.10, "MS" := 0.10,
    "MG" := 0.12, "PA" := 0.17, "PB" := 0.17, "PR" := 0.12, "PE" := 0.17, "PI" := 0.17,
    "RJ" := 0.18, "RN" := 0.17, "RS" := 0.12, "RO" := 0.07, "RR" := 0.07, "SC" := 0.12,
    "SP" := 0.18, "SE" := 0.17, "TO" := 0.10
  ]

  /** Internal ICMS rate and region of every state, keyed by state code (2025/2026 table). */
  const StateAliquots: map<string, StateAliquot> := map[
    "AC" := StateAliquot("AC", "Acre", 0.19, Norte),
    "AL" := StateAliquot("AL", "Alagoas", 0.19, Nordeste),
    "AP" := StateAliquot("AP", "Amapá", 0.18, Norte),
    "AM" := StateAliquot("AM", "Amazonas", 0.20, Norte),
    "BA" := StateAliquot("BA", "Bahia", 0.205, Nordeste),
    "CE" := StateAliquot("CE", "Ceará", 0.20, Nordeste),
    "DF" := StateAliquot("DF", "Distrito Federal", 0.20, CentroOeste),
    "ES" := StateAliquot("ES", "Espírito Santo", 0.17, Sudeste),
    "GO" := StateAliquot("GO", "Goiás", 0.19, CentroOeste),
    "MA" := StateAliquot("MA", "Maranhão", 0.23, Nordeste),
    "MT" := StateAliquot("MT", "Mato Grosso", 0.17, CentroOeste),
    "MS" := StateAliquot("MS", "Mato Grosso do Sul", 0.17, CentroOeste),
    "MG" := StateAliquot("MG", "Minas Gerais", 0.18, Sudeste),
    "PA" := StateAliquot("PA", "Pará", 0.19, Norte),
    "PB" := StateAliquot("PB", "Paraíba", 0.20, Nordeste),
    "PR" := StateAliquot("PR", "Paraná", 0.195, Sul),
    "PE" := StateAliquot("PE", "Pernambuco", 0.205, Nordeste),
    "PI" := StateAliquot("PI", "Piauí", 0.225, Nordeste),
    "RJ" := StateAliquot("RJ", "Rio de Janeiro", 0.20, Sudeste),
    "RN" := StateAliquot("RN", "Rio Grande do Norte", 0.20, Nordeste),
    "RS" := StateAliquot("RS", "Rio Grande do Sul", 0.17, Sul),
    "RO" := StateAliquot("RO", "Rondônia", 0.195, Norte),
    "RR" := StateAliquot("RR", "Roraima", 0.20, Norte),
    "SC" := StateAliquot("SC", "Santa Catarina", 0.17, Sul),
    "SP" := StateAliquot("SP", "São Paulo", 0.18, Sudeste),
    "SE" := StateAliquot("SE", "Sergipe", 0.19, Nordeste),
    "TO" := StateAliquot("TO", "Tocantins", 0.20, CentroOeste)
  ]

  /** The 27 codes: 26 states and the federal district. */
  const StateCodes: set<string> := {
    "AC", "AL", "AP", "AM", "BA", "CE", "DF", "ES", "GO", "MA", "MT", "MS", "MG", "PA",
    "PB", "PR", "PE", "PI", "RJ", "RN", "RS", "RO", "RR", "SC", "SP", "SE", "TO"
  }

  /**
   * Interstate rate for a destination. The lookup is an `||` in the source,
   * so a missing key and an entry equal to 0 both fall back to the default;
   * the origin state plays no part. Codes naming inherited object properties
   * are treated like any other absent code.
   */
  function InterstateRate(destinationCode: string): (r: real)
    ensures destinationCode in InterstateRates ==> r == InterstateRates[destinationCode]
    ensures destinationCode !in InterstateRates ==> r == DefaultInterstateRate
    ensures 0.0 < r < 1.0
  {
    NoZeroInterstateRate(destinationCode);
    if destinationCode in InterstateRates && InterstateRates[destinationCode] != 0.0
    then InterstateRates[destinationCode]
    else DefaultInterstateRate
  }

  /** Every interstate entry lies strictly between 0 and 1, so none is falsy. */
  lemma NoZeroInterstateRate(code: string)
    ensures code in InterstateRates ==> 0.0 < InterstateRates[code] < 1.0
  {
  }

  /** Both tables cover exactly the 27 codes. */
  lemma TablesCoverSameStates()
    ensures InterstateRates.Keys == StateCodes
    ensures StateAliquots.Keys == StateCodes
  {
  }

  /** Every internal-rate record is filed under its own code and holds a rate in (0, 1). */
  lemma StateAliquotsWellFormed(code: string)
    requires code in StateAliquots
    ensures StateAliquots[code].code == code
    ensures 0.0 < StateAliquots[code].internalRate < 1.0
  {
  }

  /** São Paulo's interstate entry equals its internal rate: both are 18%. */
  lemma SaoPauloRatesCoincide()
    ensures InterstateRate("SP") == StateAliquots["SP"].internalRate == 0.18
  {
  }
}
