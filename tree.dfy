/** One tree of a forest: its species, height in feet, yearly growth rate and planting year. */
module Trees {
  import opened Wrappers

  /** The closed set of species. */
  datatype Species = BIRCH | MAPLE | FIR

  /** TreeSpecies.values(), in declaration order. */
  const AllSpecies: seq<Species> := [BIRCH, MAPLE, FIR]

  /** An index into AllSpecies, as Random.nextInt(values().length) returns. */
  type SpeciesPick = k: int | 0 <= k < 3

  /** The constant's name, as TreeSpecies.name() gives it. */
  function SpeciesName(s: Species): string
  {
    match s
    case BIRCH => "BIRCH"
    case MAPLE => "MAPLE"
    case FIR => "FIR"
  }

  /** TreeSpecies.valueOf: an exact, case-sensitive match on a constant's name. */
  function SpeciesNamed(name: string): (r: Option<Species>)
    ensures r.Some? ==> SpeciesName(r.value) == name
  {
    if name == "BIRCH" then Some(BIRCH)
    else if name == "MAPLE" then Some(MAPLE)
    else if name == "FIR" then Some(FIR)
    else None
  }

  /** valueOf accepts exactly the three names and inverts name(). */
  lemma SpeciesNamedExactly(name: string)
    ensures SpeciesNamed(name).Some? <==> exists s :: SpeciesName(s) == name
    ensures forall s :: SpeciesNamed(SpeciesName(s)) == Some(s)
  {
    if SpeciesNamed(name).None? {
      forall s ensures SpeciesName(s) != name {
        match s
        case BIRCH =>
        case MAPLE =>
        case FIR =>
      }
    }
  }

  /** values() lists every species exactly once. */
  lemma AllSpeciesListsEachOnce(s: Species)
    ensures |AllSpecies| == 3
    ensures s in AllSpecies
    ensures forall i, j :: 0 <= i < j < |AllSpecies| ==> AllSpecies[i] != AllSpecies[j]
  {
  }

  /** The four fields of a tree at one moment. */
  datatype TreeValue = TreeValue(species: Species, height: real, growthRate: real, yearOfPlanting: int)

  /** One year of growth: the height increases by height * growthRate, nothing else changes. */
  function Grown(v: TreeValue): (r: TreeValue)
    ensures r.species == v.species && r.growthRate == v.growthRate
    ensures r.yearOfPlanting == v.yearOfPlanting
    ensures r.height == v.height * (1.0 + v.growthRate)
  {
    v.(height := v.height + v.height * v.growthRate)
  }

  function GrownYears(v: TreeValue, years: nat): TreeValue
  {
    if years == 0 then v else Grown(GrownYears(v, years - 1))
  }

  function Power(x: real, n: nat): real
  {
    if n == 0 then 1.0 else Power(x, n - 1) * x
  }

  /** Growth compounds: after n years the height is h * (1 + rate)^n, with the rate unchanged. */
  lemma {:induction false} GrownYearsCompounds(v: TreeValue, years: nat)
    ensures GrownYears(v, years).height == v.height * Power(1.0 + v.growthRate, years)
    ensures GrownYears(v, years).growthRate == v.growthRate
    ensures GrownYears(v, years).species == v.species
    ensures GrownYears(v, years).yearOfPlanting == v.yearOfPlanting
  {
    if years > 0 {
      GrownYearsCompounds(v, years - 1);
      var w := GrownYears(v, years - 1);
      var factor := 1.0 + v.growthRate;
      var p := Power(factor, years - 1);
      assert w.height == v.height * p;
      assert GrownYears(v, years).height == w.height * factor;
      assert Power(factor, years) == p * factor;
      MulAssoc(v.height, p, factor);
    }
  }

  lemma MulAssoc(a: real, b: real, c: real)
    ensures (a * b) * c == a * (b * c)
  {
  }

  /** With a non-negative height and rate a tree never shrinks, and there is no upper bound. */
  lemma {:induction false} GrowthNeverShrinks(v: TreeValue, years: nat)
    requires v.height >= 0.0 && v.growthRate >= 0.0
    ensures GrownYears(v, years).height >= v.height
    ensures v.growthRate > 0.0 && v.height > 0.0 && years > 0 ==>
      GrownYears(v, years).height > v.height
  {
    if years > 0 {
      GrowthNeverShrinks(v, years - 1);
      GrownYearsCompounds(v, years - 1);
      var w := GrownYears(v, years - 1);
      MulNonNegative(w.height, w.growthRate);
      if v.growthRate > 0.0 && v.height > 0.0 {
        MulPositive(w.height, w.growthRate);
      }
    }
  }

  lemma MulNonNegative(a: real, b: real)
    requires a >= 0.0 && b >= 0.0
    ensures a * b >= 0.0
  {
  }

  lemma MulPositive(a: real, b: real)
    requires a > 0.0 && b > 0.0
    ensures a * b > 0.0
  {
  }

  /** A tree; every field can be changed in place and no setter validates its argument. */
  class Tree {
    var species: Species
    var height: real
    var growthRate: real
    var yearOfPlanting: int

    /** The four fields together. */
    function Value(): TreeValue
      reads this
    {
      TreeValue(species, height, growthRate, yearOfPlanting)
    }

    constructor (species: Species, height: real, growthRate: real, yearOfPlanting: int)
      ensures Value() == TreeValue(species, height, growthRate, yearOfPlanting)
    {
      this.height := height;
      this.growthRate := growthRate;
      this.yearOfPlanting := yearOfPlanting;
      this.species := species;
    }

    method GrowthForOneYear()
      modifies this
      ensures Value() == Grown(old(Value()))
    {
      height := height + height * growthRate;
    }

    method SetSpecies(species: Species)
      modifies this
      ensures Value() == old(Value()).(species := species)
    {
      this.species := species;
    }

    method SetHeight(height: real)
      modifies this
      ensures Value() == old(Value()).(height := height)
    {
      this.height := height;
    }

    method SetGrowthRate(growthRate: real)
      modifies this
      ensures Value() == old(Value()).(growthRate := growthRate)
    {
      this.growthRate := growthRate;
    }

    method SetYearOfPlanting(yearOfPlanting: int)
      modifies this
      ensures Value() == old(Value()).(yearOfPlanting := yearOfPlanting)
    {
      this.yearOfPlanting := yearOfPlanting;
    }

    method GetSpecies() returns (s: Species)
      ensures s == Value().species
    {
      s := species;
    }

    method GetHeight() returns (h: real)
      ensures h == Value().height
    {
      h := height;
    }

    method GetGrowthRate() returns (r: real)
      ensures r == Value().growthRate
    {
      r := growthRate;
    }

    method GetYearOfPlanting() returns (y: int)
      ensures y == Value().yearOfPlanting
    {
      y := yearOfPlanting;
    }
  }
}
