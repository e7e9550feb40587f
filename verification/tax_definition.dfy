/**
 * The tax definitions of the city budget (`TaxDefinition`): a fixed table of three
 * definitions, each naming one tax rate of the budget configuration and projecting
 * its income from historical city statistics, and the set of selectable rates.
 * The decimal rates involved are all exact in whole hundredths.
 */
module Taxes {

  datatype TaxKind = Residential | Commercial | Industrial

  /** One historical record of city statistics, reduced to its tax incomes. */
  datatype CityStatistics = CityStatistics(
    residentialTaxIncome: int,
    commercialTaxIncome: int,
    industrialTaxIncome: int)

  /** A decimal rate counted in hundredths: 0.07 is `Hundredths(7)`. */
  datatype Rate = Hundredths(hundredths: int)

  /** The rates of a city budget configuration. */
  datatype CityBudgetConfiguration = CityBudgetConfiguration(
    residentialTaxRate: Rate,
    commercialTaxRate: Rate,
    industrialTaxRate: Rate)

  /** A definition: its name and the kind that selects its rate and income fields. */
  datatype TaxDefinition = TaxDefinition(name: string, kind: TaxKind)

  const ResidentialTaxDefinition := TaxDefinition("Residential", Residential)
  const CommercialTaxDefinition := TaxDefinition("Commercial", Commercial)
  const IndustrialTaxDefinition := TaxDefinition("Industrial", Industrial)

  /** The definitions in the order the source yields them. */
  function TaxDefinitions(): (r: seq<TaxDefinition>)
    ensures |r| == 3
    ensures r[0].kind == Residential && r[1].kind == Commercial && r[2].kind == Industrial
    ensures forall i, j :: 0 <= i < j < |r| ==> r[i].name != r[j].name && r[i].kind != r[j].kind
  {
    [ResidentialTaxDefinition, CommercialTaxDefinition, IndustrialTaxDefinition]
  }

  /** The income field of a statistics record that a definition sums. */
  function IncomeOf(kind: TaxKind, s: CityStatistics): int
  {
    match kind
    case Residential => s.residentialTaxIncome
    case Commercial => s.commercialTaxIncome
    case Industrial => s.industrialTaxIncome
  }

  /** `GetProjectedIncome`: the sum of the definition's income field over the records. */
  function GetProjectedIncome(d: TaxDefinition, stats: seq<CityStatistics>): (r: int)
    ensures stats == [] ==> r == 0
    ensures |stats| == 1 ==> r == IncomeOf(d.kind, stats[0])
  {
    if stats == [] then 0 else IncomeOf(d.kind, stats[0]) + GetProjectedIncome(d, stats[1..])
  }

  /** Projected income is additive over concatenated histories. */
  lemma {:induction false} ProjectedIncomeAdditive(d: TaxDefinition, a: seq<CityStatistics>, b: seq<CityStatistics>)
    ensures GetProjectedIncome(d, a + b) == GetProjectedIncome(d, a) + GetProjectedIncome(d, b)
  {
    if a != [] {
      assert (a + b)[0] == a[0];
      assert (a + b)[1..] == a[1..] + b;
      ProjectedIncomeAdditive(d, a[1..], b);
    } else {
      assert a + b == b;
    }
  }

  /** Projected income bounds: records with non-negative incomes give a non-negative sum. */
  lemma {:induction false} ProjectedIncomeNonNegative(d: TaxDefinition, stats: seq<CityStatistics>)
    requires forall i :: 0 <= i < |stats| ==> IncomeOf(d.kind, stats[i]) >= 0
    ensures GetProjectedIncome(d, stats) >= 0
  {
    if stats != [] {
      ProjectedIncomeNonNegative(d, stats[1..]);
    }
  }

  /** `CurrentRate`: the budget rate a definition names. */
  function CurrentRate(d: TaxDefinition, config: CityBudgetConfiguration): Rate
  {
    match d.kind
    case Residential => config.residentialTaxRate
    case Commercial => config.commercialTaxRate
    case Industrial => config.industrialTaxRate
  }

  /** `SetCurrentRate`: the configuration with the definition's rate replaced. */
  function SetCurrentRate(d: TaxDefinition, config: CityBudgetConfiguration, rate: Rate): (r: CityBudgetConfiguration)
    ensures CurrentRate(d, r) == rate
    ensures forall e: TaxDefinition :: e.kind != d.kind ==> CurrentRate(e, r) == CurrentRate(e, config)
  {
    match d.kind
    case Residential => config.(residentialTaxRate := rate)
    case Commercial => config.(commercialTaxRate := rate)
    case Industrial => config.(industrialTaxRate := rate)
  }

  /** `DefaultTaxRate`, 0.07. */
  const DefaultTaxRate: Rate := Hundredths(7)

  /** `Enumerable.Range(0, n).Select(x => (decimal) x / 100)`. */
  function RatesUpTo(n: nat): (r: seq<Rate>)
    ensures |r| == n && forall k :: 0 <= k < n ==> r[k] == Hundredths(k)
  {
    seq(n, k requires 0 <= k < n => Hundredths(k))
  }

  /** The selectable rates, gathered into a set as the source's `HashSet` does. */
  function GetSelectableTaxRatePercentages(): (r: set<Rate>)
    ensures forall x: Rate :: x in r <==> 0 <= x.hundredths < 20
  {
    var rates := RatesUpTo(20);
    assert forall x: Rate :: 0 <= x.hundredths < 20 ==> rates[x.hundredths] == x;
    set x | x in rates
  }

  /** A definition's own selectable rates are the shared static set. */
  function GetSelectableRatePercentages(d: TaxDefinition): (r: set<Rate>)
    ensures forall x: Rate :: x in r <==> 0 <= x.hundredths < 20
  {
    GetSelectableTaxRatePercentages()
  }

  lemma {:induction false} DistinctElementsCount(s: seq<Rate>)
    requires forall i, j :: 0 <= i < j < |s| ==> s[i] != s[j]
    ensures |set x | x in s| == |s|
  {
    if s != [] {
      DistinctElementsCount(s[1..]);
      assert (set x | x in s) == {s[0]} + (set x | x in s[1..]);
      assert s[0] !in s[1..];
    }
  }

  /** Twenty distinct rates from 0 to 0.19, the default among them as k = 7. */
  lemma SelectableRates()
    ensures |GetSelectableTaxRatePercentages()| == 20
    ensures Hundredths(0) in GetSelectableTaxRatePercentages()
    ensures Hundredths(19) in GetSelectableTaxRatePercentages()
    ensures forall x :: x in GetSelectableTaxRatePercentages() ==> 0 <= x.hundredths <= 19
    ensures DefaultTaxRate in GetSelectableTaxRatePercentages()
  {
    var rates := RatesUpTo(20);
    DistinctElementsCount(rates);
    assert GetSelectableTaxRatePercentages() == set x | x in rates;
  }
}
