# DIFAL calculator — a Dafny model

This project models the calculation core of a browser tool that computes
DIFAL, the ICMS rate differential a Brazilian destination state is owed on an
interstate sale to a final consumer (Emenda Constitucional 87/2015), together
with the optional FECOP poverty-fund surcharge. The modelled core is
`client/src/lib/difal-calculator.ts`:

- the two static rate tables: interstate rate by destination code, and the
  internal rate, name and region of each of the 27 federative units
  (`rates.dfy`, module `Rates`);
- the interstate-rate lookup with its 12% fallback (`Rates.InterstateRate`);
- `calculateDIFAL`, split into its steps: resolving the interstate rate
  (manual rate, then imported goods at 4%, then the table), the single-base or
  double-base destination ICMS, the policy "no DIFAL unless the internal rate
  is above the interstate rate" with the clip at 0, the FECOP surcharge, the
  status message and the totals (`difal.dfy`, module `Difal`);
- the rounding of the returned amounts to cents (`rounding.dfy`, module
  `Rounding`).

Rates and amounts are Dafny `real`s, so every formula is exact rational
arithmetic; the properties are stated on the unrounded amounts, and
`Rounding.Published` gives the rounded amounts the function returns.
`difal_properties.dfy` (module `DifalProperties`) holds the lemmas that relate
several calls, the two methods and the tables, and the worked examples.

A consequence of the tables worth knowing: São Paulo's interstate entry
(18%) equals its internal rate (18%), so a table-driven calculation into São
Paulo never yields DIFAL (`DifalProperties.SaoPauloReceivesNoDifal`).

Points where the code's behaviour is easy to misread:

- when the internal rate is above the interstate rate but the clipped DIFAL
  is 0 and there is no positive FECOP, the message is the EC 87/2015 text without a
  closing period (line 141 is never completed by line 153);
- the FECOP wording is used only when the FECOP amount is positive (line
  146), so a FECOP that is switched on but not positive leaves the DIFAL
  message as it would be without FECOP;
- the calculator itself does not demand a non-negative invoice value; only
  the double-base division by one minus the internal rate needs a guard,
  which is the one precondition of `Difal.CalculateDIFAL`;
- rounding is `toFixed(2)`: to the nearest cent with ties away from zero.

## Model

| member | source | states |
|---|---|---|
| Rates.InterstateRate | client/src/lib/difal-calculator.ts:79-85 | the rate of a listed destination is its table entry, a code absent from the table gets 0.12, and the result lies in (0, 1); the lookup takes only the destination code |
| Rates.NoZeroInterstateRate | client/src/lib/difal-calculator.ts:40-46 | every interstate entry lies strictly between 0 and 1, so the `||` fallback fires only for a missing code |
| Rates.TablesCoverSameStates | client/src/lib/difal-calculator.ts:40-77 | the interstate table and the internal-rate table have exactly the same 27 codes |
| Rates.StateAliquotsWellFormed | client/src/lib/difal-calculator.ts:49-77 | every internal-rate record is filed under its own code and has an internal rate in (0, 1) |
| Rates.SaoPauloRatesCoincide | client/src/lib/difal-calculator.ts:40-77 | São Paulo's interstate entry and its internal rate are both 0.18 |
| Difal.ResolveInterstateRate | client/src/lib/difal-calculator.ts:101-109 | a manual rate is used verbatim; otherwise imported goods get 0.04; otherwise the destination's table rate or 0.12; without a manual rate the result is in (0, 1) |
| Difal.GrossedUpBase | client/src/lib/difal-calculator.ts:127 | the double-base base minus its own ICMS at the internal rate is the invoice value |
| Difal.DestinationAmounts | client/src/lib/difal-calculator.ts:117-130 | single base: destination ICMS = value × internal rate and raw DIFAL = value × rate gap; double base: the destination ICMS is the internal rate applied to value + ICMS, and the raw DIFAL is the rate gap applied to that same base |
| Difal.FinalDifal | client/src/lib/difal-calculator.ts:132-142 | the DIFAL owed is never negative, is 0 when the internal rate is not above the interstate rate or the raw DIFAL is not positive, and equals the raw DIFAL otherwise |
| Difal.Fecop | client/src/lib/difal-calculator.ts:144-145 | FECOP is 0 when switched off whatever the percentage, and value × percent / 100 when on |
| Difal.Message | client/src/lib/difal-calculator.ts:134-154 | each of the five possible message texts and exactly when it is chosen |
| Difal.CalculateDIFAL | client/src/lib/difal-calculator.ts:90-188 | the result echoes every input; origin ICMS = value × resolved rate; DIFAL ≥ 0 and 0 when the internal rate is not above the interstate rate; FECOP 0 when off; operation total = destination ICMS; amount due = DIFAL + FECOP |
| DifalProperties.RatePrecedence | client/src/lib/difal-calculator.ts:103-109 | in the result, a manual rate wins even for imported goods, imported goods otherwise get exactly 0.04, and otherwise the destination's table entry or 0.12 |
| DifalProperties.OriginAndOperationTypeAreInert | client/src/lib/difal-calculator.ts:90-160 | two calls differing only in origin state and operation type give the same rate and the same results |
| DifalProperties.SingleBaseDifal | client/src/lib/difal-calculator.ts:113-124 | single base: destination ICMS = value × internal rate; with a rate gap and a non-negative value, DIFAL = value × gap = destination ICMS − origin ICMS |
| DifalProperties.SingleBaseAmounts | client/src/lib/difal-calculator.ts:122-142 | the same for the component functions, for any interstate rate |
| DifalProperties.DoubleBaseDifal | client/src/lib/difal-calculator.ts:125-130 | double base, internal rate in [0, 1), non-negative value: the base (value + ICMS) is at least the value, destination ICMS = base × internal rate, and with a rate gap DIFAL = base × gap |
| DifalProperties.DoubleBaseAmounts | client/src/lib/difal-calculator.ts:125-142 | the same for the component functions, for any interstate rate |
| DifalProperties.DifalPositiveIffRateGap | client/src/lib/difal-calculator.ts:122-142 | for a positive value and an internal rate below 1, under either method, DIFAL > 0 exactly when the internal rate is above the resolved interstate rate |
| DifalProperties.SingleBaseRawDifalPositive | client/src/lib/difal-calculator.ts:122-124 | single base: a positive value and a rate gap give a positive raw DIFAL |
| DifalProperties.DoubleBaseRawDifalPositive | client/src/lib/difal-calculator.ts:126-130 | double base: a positive value, a rate gap and an internal rate below 1 give a positive raw DIFAL |
| DifalProperties.DoubleBaseOwesAtLeastSingleBase | client/src/lib/difal-calculator.ts:122-142 | for the same inputs with internal rate in [0, 1) and a non-negative value, double base never yields less destination ICMS or less DIFAL than single base |
| DifalProperties.DoubleBaseDominates | client/src/lib/difal-calculator.ts:122-142 | the same for the component functions, for any interstate rate |
| DifalProperties.FecopAddsToAmountDue | client/src/lib/difal-calculator.ts:144-160 | switching FECOP on adds value × percent / 100 to the amount due and leaves the DIFAL unchanged; switched off it is 0 |
| DifalProperties.MessageCases | client/src/lib/difal-calculator.ts:134-154 | the message of a calculation in terms of its FECOP, its DIFAL and the two rates, case by case |
| DifalProperties.ClippedDifalKeepsBareMessage | client/src/lib/difal-calculator.ts:126-154 | a double-base call with internal rate 1.5 has a negative raw DIFAL, which is clipped to 0, and the message is the EC 87/2015 text without a period |
| DifalProperties.SaoPauloReceivesNoDifal | client/src/lib/difal-calculator.ts:136-138 | a table-driven calculation into São Paulo yields DIFAL 0 for any value and method, so the amount due is the FECOP alone |
| DifalProperties.ScenarioSaoPauloToRio | client/src/lib/difal-calculator.ts:113-160 | 10000 from SP to RJ, single base: rate 0.18, origin ICMS 1800, destination ICMS 2000, DIFAL 200, amount due 200 |
| DifalProperties.ScenarioEqualRates | client/src/lib/difal-calculator.ts:132-142 | internal rate set equal to the interstate rate: DIFAL 0 and the "no DIFAL" message |
| DifalProperties.ScenarioImported | client/src/lib/difal-calculator.ts:105-124 | 5000 of imported goods to a 20% destination: rate 0.04, origin ICMS 200, destination ICMS 1000, DIFAL 800 |
| DifalProperties.ScenarioFecopWithDifal | client/src/lib/difal-calculator.ts:144-160 | 2% FECOP on 10000 from SP to RJ: FECOP 200, amount due 400, the EC 87/2015 text with the FECOP wording |
| DifalProperties.ScenarioFecopWithoutDifal | client/src/lib/difal-calculator.ts:144-160 | 2% FECOP on 10000 into SP: DIFAL 0, amount due 200, the FECOP-only message |
| DifalProperties.InclusiveBaseBounds | client/src/lib/difal-calculator.ts:126-128 | a base that contains its own tax is positive for a positive value and, for a rate in [0, 1), at least the value |
| Rounding.Round2 | client/src/lib/difal-calculator.ts:190-195 | the rounded amount is a whole number of cents and keeps its sign; for a non-negative amount it lies in (x − 0.005, x + 0.005], for a negative one in [x − 0.005, x + 0.005), so a half-cent tie goes away from zero |
| Rounding.HalfUpCents | client/src/lib/difal-calculator.ts:190-195 | for a non-negative amount, the nearest cent with a tie going up |
| Rounding.Round2TieAwayFromZero | client/src/lib/difal-calculator.ts:190-195 | an amount exactly halfway between two cents rounds to the cent farther from zero, for positive and negative amounts alike (0.125 gives 0.13, −0.125 gives −0.13) |
| Rounding.Round2KeepsCents | client/src/lib/difal-calculator.ts:190-195 | an amount that is already whole cents is returned unchanged |
| Rounding.Round2Monotone | client/src/lib/difal-calculator.ts:190-195 | rounding never reverses the order of two amounts |
| Rounding.Published | client/src/lib/difal-calculator.ts:179-198 | the returned calculation: inputs and message unchanged, each of the six amounts is the exact amount rounded by `Round2`, so it is in whole cents within half a cent of the exact one; non-negative DIFAL, zero FECOP and the operation-total equality are preserved |
| Rounding.PublishedPolicy | client/src/lib/difal-calculator.ts:190-195 | the returned DIFAL is never negative, the returned FECOP is 0 when off, and the returned operation total equals the returned destination ICMS |
| Rounding.PublishedTotalIsNotSumOfPublishedParts | client/src/lib/difal-calculator.ts:160-195 | amounts are rounded one by one, so for 0.25 from SP to RJ with 2% FECOP the returned amount due (0.01) is not the returned DIFAL plus the returned FECOP (0.02) |
| Rounding.PublishedSaoPauloToRio | client/src/lib/difal-calculator.ts:179-198 | the SP to RJ example as returned: 1800, 2000, 200, 0, 2000, 200 |

## Left out

- `formatCurrency` is a call into the locale formatter of the JavaScript runtime; it is not modelled.
- `formatPercent` and the `breakdown` text depend on the decimal rendering of binary floating point; they are not modelled.
- Rounding.Round2: rounds the exact real amount; the source rounds the nearest binary double, so near a tie (such as 1.005) the source can round the other way.
- IEEE double behaviour is not modelled: amounts are exact reals, so there is no NaN or Infinity; the double-base division by zero at an internal rate of 1 is excluded by the precondition of `Difal.CalculateDIFAL` instead of producing non-finite numbers, and `Math.max` of a NaN does not arise.
- The optional manual interstate rate is an `Option`; the source's `undefined` check and its default parameter values are the `None` case and explicit arguments.
- Rates.InterstateRate: codes that name a property every JavaScript object inherits (`constructor`, `toString`, `__proto__` and the like) are treated as absent and get 0.12; in the source such a lookup finds the inherited value, the `|| 0.12` fallback does not fire and the amounts become NaN. The page only passes codes taken from the state table, so no caller reaches this.
- Rates.TablesCoverSameStates: states that both key sets equal the listed 27 codes, not the number 27 as a cardinality.
- The React page (`client/src/pages/Home.tsx`) is not part of this model: its text parsing, percent-to-fraction conversion, history list, reset and file download. It only calls the calculator with a positive value and never passes the imported-goods flag.
