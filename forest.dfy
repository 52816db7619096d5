/**
 * A named forest: an ordered list of Tree objects that is changed in place by cutting,
 * adding, growing, reaping and CSV ingestion.
 */
module Forests {
  import opened Wrappers
  import opened JavaText
  import opened Trees

  // ---------------------------------------------------------------- random draws

  /** A value of Random.nextDouble(). */
  type Unit = u: real | 0.0 <= u < 1.0

  /**
   * The four random values one generated tree consumes: the species index, the
   * nextInt draw for the year, and the nextDouble draws for height and growth rate.
   */
  datatype Draw = Draw(speciesPick: SpeciesPick, yearPick: nat, heightUnit: Unit, rateUnit: Unit)

  /** The tree addRandomTree builds: planted in [2000, currentYear], 10 to 20 feet, 10% to 20%. */
  function AddedTree(d: Draw, currentYear: int): (v: TreeValue)
    requires 2000 <= currentYear && d.yearPick <= currentYear - 2000
    ensures 2000 <= v.yearOfPlanting <= currentYear
    ensures 10.0 <= v.height < 20.0 && 0.1 <= v.growthRate < 0.2
    ensures v.species == AllSpecies[d.speciesPick]
  {
    TreeValue(AllSpecies[d.speciesPick], d.heightUnit * 10.0 + 10.0, d.rateUnit * 0.1 + 0.1,
              d.yearPick + 2000)
  }

  /** The tree generateRandomTree builds: planted in the last 20 years, 10 to 20 feet, 10% to 20%. */
  function ReplacementTree(d: Draw, currentYear: int): (v: TreeValue)
    requires d.yearPick <= 20
    ensures currentYear - 20 <= v.yearOfPlanting <= currentYear
    ensures 10.0 <= v.height < 20.0 && 0.1 <= v.growthRate < 0.2
    ensures v.species == AllSpecies[d.speciesPick]
  {
    TreeValue(AllSpecies[d.speciesPick], 10.0 + d.heightUnit * 10.0, 0.1 + d.rateUnit * 0.1,
              currentYear - d.yearPick)
  }

  /** Draws that Random.nextInt(21) can produce. */
  predicate ReplacementDraws(draws: seq<Draw>)
  {
    forall j :: 0 <= j < |draws| ==> draws[j].yearPick <= 20
  }

  // ---------------------------------------------------------------- cut

  /** ArrayList.remove(index) behind the bounds check of cutTreeByIndex. */
  function CutAt<T>(s: seq<T>, index: int): (r: seq<T>)
    ensures 0 <= index < |s| ==> |r| == |s| - 1
    ensures 0 <= index < |s| ==> forall k :: 0 <= k < index ==> r[k] == s[k]
    ensures 0 <= index < |s| ==> forall k :: index <= k < |r| ==> r[k] == s[k + 1]
    ensures !(0 <= index < |s|) ==> r == s
  {
    if 0 <= index < |s| then s[..index] + s[index + 1..] else s
  }

  /** Cutting a valid index removes exactly that element: the multiset loses one copy of it. */
  lemma CutRemovesOne<T>(s: seq<T>, index: int)
    requires 0 <= index < |s|
    ensures multiset(CutAt(s, index)) + multiset{s[index]} == multiset(s)
  {
    assert s == s[..index] + [s[index]] + s[index + 1..];
  }

  // ---------------------------------------------------------------- growth and average

  /** Every tree grown by one year, in the same order. */
  function GrownAll(vs: seq<TreeValue>): (r: seq<TreeValue>)
    ensures |r| == |vs|
    ensures forall k :: 0 <= k < |vs| ==> r[k] == Grown(vs[k])
  {
    seq(|vs|, k requires 0 <= k < |vs| => Grown(vs[k]))
  }

  /** The total height, accumulated front to back. */
  function SumHeights(vs: seq<TreeValue>): real
  {
    if vs == [] then 0.0 else SumHeights(vs[..|vs| - 1]) + vs[|vs| - 1].height
  }

  /** Mean height; exactly 0 for an empty forest. */
  function AverageHeight(vs: seq<TreeValue>): (r: real)
    ensures vs == [] ==> r == 0.0
    ensures vs != [] ==> r * |vs| as real == SumHeights(vs)
  {
    if vs == [] then 0.0 else SumHeights(vs) / |vs| as real
  }

  lemma {:induction false} SumBounds(vs: seq<TreeValue>, lo: real, hi: real)
    requires forall k :: 0 <= k < |vs| ==> lo <= vs[k].height <= hi
    ensures |vs| as real * lo <= SumHeights(vs) <= |vs| as real * hi
  {
    if vs != [] {
      SumBounds(vs[..|vs| - 1], lo, hi);
    }
  }

  /** The average of a non-empty forest lies between its shortest and its tallest tree. */
  lemma AverageWithinHeights(vs: seq<TreeValue>, lo: real, hi: real)
    requires vs != []
    requires forall k :: 0 <= k < |vs| ==> lo <= vs[k].height <= hi
    ensures lo <= AverageHeight(vs) <= hi
  {
    SumBounds(vs, lo, hi);
    var n := |vs| as real;
    assert lo * n <= SumHeights(vs) <= hi * n;
    DivBounds(SumHeights(vs), n, lo, hi);
  }

  lemma DivBounds(total: real, n: real, lo: real, hi: real)
    requires n > 0.0 && lo * n <= total <= hi * n
    ensures lo <= total / n <= hi
  {
  }

  lemma {:induction false} SumGrownUniform(vs: seq<TreeValue>, rate: real)
    requires forall k :: 0 <= k < |vs| ==> vs[k].growthRate == rate
    ensures SumHeights(GrownAll(vs)) == SumHeights(vs) * (1.0 + rate)
  {
    if vs != [] {
      var n := |vs| - 1;
      assert GrownAll(vs)[..n] == GrownAll(vs[..n]);
      SumGrownUniform(vs[..n], rate);
    }
  }

  /** When every tree has the same rate, one year of growth scales the average by 1 + rate. */
  lemma AverageAfterUniformGrowth(vs: seq<TreeValue>, rate: real)
    requires forall k :: 0 <= k < |vs| ==> vs[k].growthRate == rate
    ensures AverageHeight(GrownAll(vs)) == AverageHeight(vs) * (1.0 + rate)
  {
    SumGrownUniform(vs, rate);
    if vs != [] {
      var n := |vs| as real;
      var grown := GrownAll(vs);
      var total, f := SumHeights(vs), 1.0 + rate;
      assert grown != [] && |grown| == |vs|;
      assert SumHeights(grown) == total * f;
      assert AverageHeight(grown) == SumHeights(grown) / (|grown| as real);
      assert AverageHeight(grown) == (total * f) / n;
      assert AverageHeight(vs) == total / n;
      DivScales(total, n, f);
    }
  }

  lemma DivScales(total: real, n: real, f: real)
    requires n > 0.0
    ensures (total * f) / n == (total / n) * f
  {
  }

  // ---------------------------------------------------------------- reap

  /** The positions, ascending, whose height is strictly above the threshold. */
  function TallIndexes(vs: seq<TreeValue>, threshold: real): (r: seq<nat>)
    ensures |r| <= |vs|
    ensures forall j :: 0 <= j < |r| ==> r[j] < |vs| && vs[r[j]].height > threshold
    ensures forall i, j :: 0 <= i < j < |r| ==> r[i] < r[j]
  {
    if vs == [] then []
    else
      var n := |vs| - 1;
      TallIndexes(vs[..n], threshold) + (if vs[n].height > threshold then [n] else [])
  }

  /** How many tall trees stand before position k: the draw the k-th position is replaced with. */
  function Rank(vs: seq<TreeValue>, threshold: real, k: nat): nat
    requires k <= |vs|
  {
    |TallIndexes(vs[..k], threshold)|
  }

  lemma {:induction false} TallIndexesOfPrefix(vs: seq<TreeValue>, threshold: real, m: nat)
    requires m <= |vs|
    ensures |TallIndexes(vs[..m], threshold)| <= |TallIndexes(vs, threshold)|
    ensures TallIndexes(vs[..m], threshold) ==
            TallIndexes(vs, threshold)[..|TallIndexes(vs[..m], threshold)|]
  {
    if m < |vs| {
      var n := |vs| - 1;
      assert vs[..n][..m] == vs[..m];
      TallIndexesOfPrefix(vs[..n], threshold, m);
    } else {
      assert vs[..m] == vs;
    }
  }

  /** Scanning one more position appends it exactly when it is tall. */
  lemma TallIndexesStep(vs: seq<TreeValue>, threshold: real, k: nat)
    requires k < |vs|
    ensures TallIndexes(vs[..k + 1], threshold) ==
      TallIndexes(vs[..k], threshold) + (if vs[k].height > threshold then [k] else [])
  {
    assert vs[..k + 1][..k] == vs[..k];
  }

  /** Every tall position is listed, at the place its rank says. */
  lemma RankLocates(vs: seq<TreeValue>, threshold: real, k: nat)
    requires k < |vs| && vs[k].height > threshold
    ensures Rank(vs, threshold, k) < |TallIndexes(vs, threshold)|
    ensures TallIndexes(vs, threshold)[Rank(vs, threshold, k)] == k
  {
    assert vs[..k + 1][..k] == vs[..k];
    TallIndexesOfPrefix(vs, threshold, k + 1);
  }

  /** The j-th listed position has rank j. */
  lemma RankOfListed(vs: seq<TreeValue>, threshold: real, j: nat)
    requires j < |TallIndexes(vs, threshold)|
    ensures Rank(vs, threshold, TallIndexes(vs, threshold)[j]) == j
  {
    var t := TallIndexes(vs, threshold);
    RankLocates(vs, threshold, t[j]);
  }

  /** A position is listed exactly when its tree is taller than the threshold. */
  lemma TallIndexesComplete(vs: seq<TreeValue>, threshold: real, k: nat)
    requires k < |vs|
    ensures k in TallIndexes(vs, threshold) <==> vs[k].height > threshold
  {
    if vs[k].height > threshold {
      RankLocates(vs, threshold, k);
    }
  }

  /**
   * xs with the element at every tall position replaced: the j-th tall position (in list
   * order) receives news[j]; every other position keeps its element.
   */
  function Substituted<T>(xs: seq<T>, vs: seq<TreeValue>, threshold: real, news: seq<T>): (r: seq<T>)
    requires |xs| == |vs| && |TallIndexes(vs, threshold)| <= |news|
    ensures |r| == |xs|
  {
    seq(|xs|, k requires 0 <= k < |xs| => SubstitutedAt(xs, vs, threshold, news, k))
  }

  function SubstitutedAt<T>(xs: seq<T>, vs: seq<TreeValue>, threshold: real, news: seq<T>, k: nat): T
    requires |xs| == |vs| && |TallIndexes(vs, threshold)| <= |news|
    requires k < |xs|
  {
    if vs[k].height > threshold then
      RankLocates(vs, threshold, k);
      var r := Rank(vs, threshold, k);
      assert r < |TallIndexes(vs, threshold)| <= |news|;
      news[r]
    else xs[k]
  }

  lemma SubstitutedPositions<T>(xs: seq<T>, vs: seq<TreeValue>, threshold: real, news: seq<T>, k: nat)
    requires |xs| == |vs| && |TallIndexes(vs, threshold)| <= |news|
    requires k < |xs|
    ensures vs[k].height <= threshold ==> Substituted(xs, vs, threshold, news)[k] == xs[k]
    ensures vs[k].height > threshold ==> Rank(vs, threshold, k) < |TallIndexes(vs, threshold)|
    ensures vs[k].height > threshold ==>
      Substituted(xs, vs, threshold, news)[k] == news[Rank(vs, threshold, k)]
  {
    assert Substituted(xs, vs, threshold, news)[k] == SubstitutedAt(xs, vs, threshold, news, k);
    if vs[k].height > threshold {
      RankLocates(vs, threshold, k);
    }
  }

  /** Substituting distinct new elements, none of them already present, keeps a list duplicate-free. */
  lemma SubstitutedDistinct<T>(xs: seq<T>, vs: seq<TreeValue>, threshold: real, news: seq<T>)
    requires |xs| == |vs| && |TallIndexes(vs, threshold)| <= |news|
    requires forall i, j :: 0 <= i < j < |xs| ==> xs[i] != xs[j]
    requires forall i, j :: 0 <= i < j < |news| ==> news[i] != news[j]
    requires forall j :: 0 <= j < |news| ==> news[j] !in xs
    ensures var r := Substituted(xs, vs, threshold, news);
      forall i, j :: 0 <= i < j < |r| ==> r[i] != r[j]
  {
    var r := Substituted(xs, vs, threshold, news);
    forall a, b | 0 <= a < b < |r| ensures r[a] != r[b] {
      SubstitutedPositions(xs, vs, threshold, news, a);
      SubstitutedPositions(xs, vs, threshold, news, b);
      if vs[a].height > threshold && vs[b].height > threshold {
        ReapedUsesDrawsInOrder(vs, threshold, a, b);
      }
    }
  }

  /** The trees generateRandomTree builds from the draws, in draw order. */
  function Replacements(draws: seq<Draw>, currentYear: int): (r: seq<TreeValue>)
    requires ReplacementDraws(draws)
    ensures |r| == |draws|
    ensures forall j :: 0 <= j < |draws| ==> r[j] == ReplacementTree(draws[j], currentYear)
  {
    seq(|draws|, j requires 0 <= j < |draws| => ReplacementTree(draws[j], currentYear))
  }

  /**
   * The forest after reapForest, position by position: a tree taller than the threshold
   * is replaced by the tree generated from the draw of its rank; every other tree stays.
   */
  function Reaped(vs: seq<TreeValue>, threshold: real, draws: seq<Draw>, currentYear: int): (r: seq<TreeValue>)
    requires |TallIndexes(vs, threshold)| <= |draws| && ReplacementDraws(draws)
    ensures |r| == |vs|
  {
    Substituted(vs, vs, threshold, Replacements(draws, currentYear))
  }

  /**
   * Reaping keeps every tree at or below the threshold where it was, and puts a tree
   * from the replacement ranges at every position that was above it; the replacements
   * are never compared with the threshold, so one may itself stand above it.
   */
  lemma ReapedPositions(vs: seq<TreeValue>, threshold: real, draws: seq<Draw>, currentYear: int, k: nat)
    requires |TallIndexes(vs, threshold)| <= |draws| && ReplacementDraws(draws)
    requires k < |vs|
    ensures vs[k].height <= threshold ==> Reaped(vs, threshold, draws, currentYear)[k] == vs[k]
    ensures vs[k].height > threshold ==>
      var w := Reaped(vs, threshold, draws, currentYear)[k];
      currentYear - 20 <= w.yearOfPlanting <= currentYear &&
      10.0 <= w.height < 20.0 && 0.1 <= w.growthRate < 0.2
    ensures vs[k].height > threshold ==> Rank(vs, threshold, k) < |TallIndexes(vs, threshold)|
    ensures vs[k].height > threshold ==>
      Reaped(vs, threshold, draws, currentYear)[k] ==
      ReplacementTree(draws[Rank(vs, threshold, k)], currentYear)
  {
    SubstitutedPositions(vs, vs, threshold, Replacements(draws, currentYear), k);
  }

  /** Distinct reaped positions consume distinct draws, in ascending order. */
  lemma ReapedUsesDrawsInOrder(vs: seq<TreeValue>, threshold: real, i: nat, k: nat)
    requires i < k < |vs| && vs[i].height > threshold && vs[k].height > threshold
    ensures Rank(vs, threshold, i) < Rank(vs, threshold, k)
  {
    RankLocates(vs, threshold, i);
    RankLocates(vs, threshold, k);
  }

  /** With a threshold of 20 feet or more, one reap leaves no tree above the threshold. */
  lemma ReapAtTwentyLeavesNoneTall(vs: seq<TreeValue>, threshold: real, draws: seq<Draw>, currentYear: int)
    requires |TallIndexes(vs, threshold)| <= |draws| && ReplacementDraws(draws)
    requires threshold >= 20.0
    ensures TallIndexes(Reaped(vs, threshold, draws, currentYear), threshold) == []
  {
    var r := Reaped(vs, threshold, draws, currentYear);
    var t := TallIndexes(r, threshold);
    if t != [] {
      ReapedPositions(vs, threshold, draws, currentYear, t[0]);
      assert false;
    }
  }

  /** Below 10 feet every replacement is itself tall: a rescan would reap it again. */
  lemma ReapBelowTenKeepsReplacementsTall(vs: seq<TreeValue>, threshold: real, draws: seq<Draw>, currentYear: int)
    requires |TallIndexes(vs, threshold)| <= |draws| && ReplacementDraws(draws)
    requires threshold < 10.0
    ensures TallIndexes(Reaped(vs, threshold, draws, currentYear), threshold) == TallIndexes(vs, threshold)
  {
    var r := Reaped(vs, threshold, draws, currentYear);
    forall k | 0 <= k < |vs| ensures r[k].height > threshold <==> vs[k].height > threshold {
      ReapedPositions(vs, threshold, draws, currentYear, k);
    }
    SameTallIndexes(vs, r, threshold);
  }

  lemma {:induction false} SameTallIndexes(a: seq<TreeValue>, b: seq<TreeValue>, threshold: real)
    requires |a| == |b|
    requires forall k :: 0 <= k < |a| ==> (a[k].height > threshold <==> b[k].height > threshold)
    ensures TallIndexes(a, threshold) == TallIndexes(b, threshold)
  {
    if a != [] {
      var n := |a| - 1;
      SameTallIndexes(a[..n], b[..n], threshold);
    }
  }

  // ---------------------------------------------------------------- CSV ingestion

  /** What one line of a CSV file does: add a tree, print a format error, or throw. */
  datatype LineEffect = Parsed(tree: TreeValue) | Malformed | Throws

  /**
   * The per-line logic of readTreesFromCSV. A line that splits into exactly four fields
   * becomes a tree whose species is the trimmed, upper-cased first field and whose rate
   * is the fourth field divided by 100; an unknown species or an unparseable number
   * throws; any other field count is reported and skipped.
   */
  function ParseLine(line: string, parseDouble: string -> Option<real>): (e: LineEffect)
    ensures e.Malformed? <==> |Split(line, ',')| != 4
  {
    var data := Split(line, ',');
    if |data| != 4 then Malformed
    else FieldsEffect(data[0], data[1], data[2], data[3], parseDouble)
  }

  /** The tree of a line with exactly four fields, or Throws when a field does not convert. */
  function FieldsEffect(f0: string, f1: string, f2: string, f3: string,
                        parseDouble: string -> Option<real>): (e: LineEffect)
    ensures !e.Malformed?
  {
    Converted(SpeciesNamed(Upper(Trim(f0))), ParseInt(Trim(f1)), parseDouble(Trim(f2)), parseDouble(Trim(f3)))
  }

  /** What the four converted fields give: a tree, or an exception when one did not convert. */
  function Converted(species: Option<Species>, year: Option<int>, height: Option<real>, rate: Option<real>): (e: LineEffect)
    ensures e.Parsed? <==> species.Some? && year.Some? && height.Some? && rate.Some?
    ensures e.Parsed? ==> e.tree == TreeValue(species.value, height.value, rate.value / 100.0, year.value)
  {
    if species.None? || year.None? || height.None? || rate.None? then Throws
    else Parsed(TreeValue(species.value, height.value, rate.value / 100.0, year.value))
  }

  /** Four converted fields give the tree they describe, the rate read as a percentage. */
  lemma ConvertedAll(species: Species, year: int, height: real, percent: real)
    ensures Converted(Some(species), Some(year), Some(height), Some(percent)) ==
      Parsed(TreeValue(species, height, percent / 100.0, year))
  {
  }

  /** The CSV line with these four fields, separated by commas. */
  function CsvLine(f0: string, f1: string, f2: string, f3: string): string
  {
    f0 + "," + f1 + "," + f2 + "," + f3
  }

  /** A field of a CSV line: no comma inside it. */
  predicate IsField(f: string)
  {
    ',' !in f
  }

  /** A line made of four fields is read as those four fields. */
  lemma CsvLineFields(f0: string, f1: string, f2: string, f3: string, parseDouble: string -> Option<real>)
    requires IsField(f0) && IsField(f1) && IsField(f2) && IsField(f3) && f3 != ""
    ensures ParseLine(CsvLine(f0, f1, f2, f3), parseDouble) == FieldsEffect(f0, f1, f2, f3, parseDouble)
  {
    var line := CsvLine(f0, f1, f2, f3);
    assert line == f0 + [','] + f1 + [','] + f2 + [','] + f3;
    SplitOfFour(f0, f1, f2, f3, ',');
    ParseLineOfSplit(line, [f0, f1, f2, f3], parseDouble);
  }

  lemma ParseLineOfSplit(line: string, data: seq<string>, parseDouble: string -> Option<real>)
    requires |data| == 4 && Split(line, ',') == data
    ensures ParseLine(line, parseDouble) == FieldsEffect(data[0], data[1], data[2], data[3], parseDouble)
  {
  }

  /**
   * Reading a line back: four fields whose species, year, height and rate convert give
   * the tree with those values, the rate divided by 100.
   */
  lemma ParseLineOfFields(f0: string, f1: string, f2: string, f3: string,
                          parseDouble: string -> Option<real>,
                          species: Species, year: int, height: real, percent: real)
    requires IsField(f0) && IsField(f1) && IsField(f2) && IsField(f3) && f3 != ""
    requires SpeciesNamed(Upper(Trim(f0))) == Some(species)
    requires ParseInt(Trim(f1)) == Some(year)
    requires parseDouble(Trim(f2)) == Some(height) && parseDouble(Trim(f3)) == Some(percent)
    ensures ParseLine(CsvLine(f0, f1, f2, f3), parseDouble) ==
      Parsed(TreeValue(species, height, percent / 100.0, year))
  {
    CsvLineFields(f0, f1, f2, f3, parseDouble);
    ConvertedAll(species, year, height, percent);
  }

  /** Four fields of which one does not convert: the line throws instead of being skipped. */
  lemma ParseLineThrowsOnBadField(f0: string, f1: string, f2: string, f3: string,
                                  parseDouble: string -> Option<real>)
    requires IsField(f0) && IsField(f1) && IsField(f2) && IsField(f3) && f3 != ""
    requires SpeciesNamed(Upper(Trim(f0))).None? || ParseInt(Trim(f1)).None? ||
             parseDouble(Trim(f2)).None? || parseDouble(Trim(f3)).None?
    ensures ParseLine(CsvLine(f0, f1, f2, f3), parseDouble) == Throws
  {
    CsvLineFields(f0, f1, f2, f3, parseDouble);
  }

  /** A line of three fields is reported and skipped, whatever the fields hold. */
  lemma ThreeFieldsSkipped(f0: string, f1: string, f2: string, parseDouble: string -> Option<real>)
    requires IsField(f0) && IsField(f1) && IsField(f2) && f2 != ""
    ensures ParseLine(f0 + "," + f1 + "," + f2, parseDouble) == Malformed
  {
    assert f0 + "," + f1 + "," + f2 == f0 + [','] + f1 + [','] + f2;
    SplitOfThree(f0, f1, f2, ',');
  }

  lemma SpeciesNameLetters(s: Species)
    ensures |SpeciesName(s)| >= 1
    ensures forall k :: 0 <= k < |SpeciesName(s)| ==> 'A' <= SpeciesName(s)[k] <= 'Z'
  {
  }

  /**
   * The species field ignores case and surrounding white space: a species name spelled
   * in any mix of ASCII upper and lower case, with white space around it, is that species.
   */
  lemma SpeciesFieldIgnoresCaseAndSpace(pre: string, word: string, post: string, s: Species)
    requires forall k :: 0 <= k < |pre| ==> IsTrimmed(pre[k])
    requires forall k :: 0 <= k < |post| ==> IsTrimmed(post[k])
    requires |word| == |SpeciesName(s)|
    requires forall k :: 0 <= k < |word| ==> UpperChar(word[k]) == SpeciesName(s)[k]
    ensures SpeciesNamed(Upper(Trim(pre + word + post))) == Some(s)
  {
    SpeciesNameLetters(s);
    var n := |word| - 1;
    assert UpperChar(word[0]) == SpeciesName(s)[0];
    assert UpperChar(word[n]) == SpeciesName(s)[n];
    TrimAround(pre, word, post);
    assert Upper(word) == SpeciesName(s);
    SpeciesNamedExactly(SpeciesName(s));
  }

  /**
   * The line "maple, 2010, 15.00, 12.0" gives a maple planted in 2010, 15 feet tall,
   * growing 12% a year, when Double.parseDouble reads "15.00" and "12.0" as 15 and 12.
   */
  lemma MapleLine(parseDouble: string -> Option<real>)
    requires parseDouble("15.00") == Some(15.0) && parseDouble("12.0") == Some(12.0)
    ensures ParseLine("maple, 2010, 15.00, 12.0", parseDouble) ==
      Parsed(TreeValue(MAPLE, 15.0, 0.12, 2010))
  {
    MapleCsv();
    MapleSpecies();
    MapleYear();
    MapleNumbers();
    ParseLineOfFields("maple", " 2010", " 15.00", " 12.0", parseDouble, MAPLE, 2010, 15.0, 12.0);
  }

  /** The four fields of the maple line contain no comma, and joined they give the line. */
  lemma MapleCsv()
    ensures IsField("maple") && IsField(" 2010") && IsField(" 15.00") && IsField(" 12.0")
    ensures CsvLine("maple", " 2010", " 15.00", " 12.0") == "maple, 2010, 15.00, 12.0"
  {
  }

  /** "maple" names the maple species once upper-cased. */
  lemma MapleSpecies()
    ensures SpeciesNamed(Upper(Trim("maple"))) == Some(MAPLE)
  {
    SpeciesFieldIgnoresCaseAndSpace("", "maple", "", MAPLE);
    assert "" + "maple" + "" == "maple";
  }

  /** " 2010" trims to "2010", which parseInt reads as 2010. */
  lemma MapleYear()
    ensures ParseInt(Trim(" 2010")) == Some(2010)
  {
    SpaceThenWord("2010");
    assert [' '] + "2010" == " 2010";
    ParseIntRoundTrip(2010);
    assert IntToString(2010) == "2010";
  }

  /** The two number fields lose their leading space. */
  lemma MapleNumbers()
    ensures Trim(" 15.00") == "15.00" && Trim(" 12.0") == "12.0"
  {
    SpaceThenWord("15.00");
    assert [' '] + "15.00" == " 15.00";
    SpaceThenWord("12.0");
    assert [' '] + "12.0" == " 12.0";
  }

  /** One leading space is trimmed off a word. */
  lemma SpaceThenWord(word: string)
    requires word != [] && !IsTrimmed(word[0]) && !IsTrimmed(word[|word| - 1])
    ensures Trim([' '] + word) == word
  {
    TrimAround(" ", word, "");
    assert " " + word + "" == [' '] + word;
  }


  /** The trees read from a prefix of a file, and the line whose exception ended the read. */
  datatype Ingested = Ingested(added: seq<TreeValue>, failedLine: Option<nat>)

  /**
   * The per-line logic of readTreesFromCSV with the number parser fixed: the loops over a
   * file take a one-argument parser, and a Dafny function value cannot fix the parseDouble
   * argument of ParseLine, hence this lambda.
   */
  function LineParser(parseDouble: string -> Option<real>): string -> LineEffect
  {
    line => ParseLine(line, parseDouble)
  }

  /** The effect of every line of a file, in file order. */
  function Effects(lines: seq<string>, parse: string -> LineEffect): (es: seq<LineEffect>)
    ensures |es| == |lines|
  {
    if lines == [] then []
    else Effects(lines[..|lines| - 1], parse) + [parse(lines[|lines| - 1])]
  }

  /** The k-th effect is that of the k-th line. */
  lemma {:induction false} EffectAt(lines: seq<string>, parse: string -> LineEffect, k: nat)
    requires k < |lines|
    ensures Effects(lines, parse)[k] == parse(lines[k])
  {
    var n := |lines| - 1;
    if k < n {
      EffectAt(lines[..n], parse, k);
    }
  }

  lemma {:induction false} EffectsAppend(a: seq<string>, b: seq<string>, parse: string -> LineEffect)
    ensures Effects(a + b, parse) == Effects(a, parse) + Effects(b, parse)
  {
    if b == [] {
      assert a + b == a;
    } else {
      var n := |b| - 1;
      assert (a + b)[..|a + b| - 1] == a + b[..n];
      EffectsAppend(a, b[..n], parse);
    }
  }

  /** Reading the lines of a file in order; an exception stops the read. */
  function Ingest(lines: seq<string>, parseDouble: string -> Option<real>): (r: Ingested)
    ensures r.failedLine.Some? ==> r.failedLine.value < |lines|
    ensures |r.added| <= |lines|
  {
    Replay(Effects(lines, LineParser(parseDouble)))
  }

  /** The effects of the lines applied one after the other. */
  function Replay(effects: seq<LineEffect>): (r: Ingested)
    ensures r.failedLine.Some? ==> r.failedLine.value < |effects|
    ensures |r.added| <= |effects|
  {
    if effects == [] then Ingested([], None)
    else
      var n := |effects| - 1;
      IngestStep(Replay(effects[..n]), effects[n], n)
  }

  /** Reading line n after the earlier lines had the effect `before`. */
  function IngestStep(before: Ingested, effect: LineEffect, n: nat): (r: Ingested)
    ensures before.failedLine.Some? ==> r == before
    ensures |before.added| <= |r.added| <= |before.added| + 1
    ensures before.added <= r.added
    ensures before.failedLine.None? && r.failedLine.Some? ==> r.failedLine == Some(n) && r.added == before.added
  {
    if before.failedLine.Some? then before
    else match effect
      case Parsed(v) => Ingested(before.added + [v], None)
      case Malformed => before
      case Throws => Ingested(before.added, Some(n))
  }

  function ShiftLine(line: Option<nat>, offset: nat): Option<nat>
  {
    match line
    case None => None
    case Some(k) => Some(offset + k)
  }

  /**
   * The relation between reading a, reading a + b and reading b alone: if a line of a
   * throws, b is never read; otherwise the trees of b follow those of a.
   */
  predicate AppendedRead(first: Ingested, both: Ingested, second: Ingested, offset: nat)
  {
    (first.failedLine.Some? ==> both == first) &&
    (first.failedLine.None? ==>
      both.added == first.added + second.added &&
      both.failedLine == ShiftLine(second.failedLine, offset))
  }

  lemma StepKeepsAppended(first: Ingested, both: Ingested, second: Ingested, effect: LineEffect,
                          offset: nat, n: nat)
    requires AppendedRead(first, both, second, offset)
    ensures AppendedRead(first, IngestStep(both, effect, offset + n), IngestStep(second, effect, n), offset)
  {
    if first.failedLine.None? && second.failedLine.None? && effect.Parsed? {
      assert both.added + [effect.tree] == first.added + (second.added + [effect.tree]);
    }
  }

  lemma {:induction false} ReplayAppend(a: seq<LineEffect>, b: seq<LineEffect>)
    ensures AppendedRead(Replay(a), Replay(a + b), Replay(b), |a|)
  {
    if b == [] {
      assert a + b == a;
    } else {
      var n := |b| - 1;
      ReplayAppend(a, b[..n]);
      assert (a + b)[..|a| + n] == a + b[..n];
      assert (a + b)[|a| + n] == b[n];
      StepKeepsAppended(Replay(a), Replay(a + b[..n]), Replay(b[..n]), b[n], |a|, n);
    }
  }

  /**
   * Reading the file a + b: the trees of a come first and those of b follow in file
   * order; if a line of a throws, the lines of b are never read and the trees of a stay.
   */
  lemma IngestAppend(a: seq<string>, b: seq<string>, parseDouble: string -> Option<real>)
    ensures AppendedRead(Ingest(a, parseDouble), Ingest(a + b, parseDouble), Ingest(b, parseDouble), |a|)
  {
    EffectsAppend(a, b, LineParser(parseDouble));
    ReplayAppend(Effects(a, LineParser(parseDouble)), Effects(b, LineParser(parseDouble)));
  }

  lemma ReplayNext(effects: seq<LineEffect>, i: nat)
    requires i < |effects|
    ensures Replay(effects[..i + 1]) == IngestStep(Replay(effects[..i]), effects[i], i)
  {
    assert effects[..i + 1][..i] == effects[..i];
  }

  /** Reading line i when no earlier line threw: a parsed line adds its tree, a malformed line nothing. */
  lemma ReplayNextLine(effects: seq<LineEffect>, i: nat)
    requires i < |effects| && Replay(effects[..i]).failedLine.None?
    ensures effects[i].Parsed? ==>
      Replay(effects[..i + 1]) == Ingested(Replay(effects[..i]).added + [effects[i].tree], None)
    ensures effects[i].Malformed? ==> Replay(effects[..i + 1]) == Replay(effects[..i])
  {
    ReplayNext(effects, i);
  }

  /** A line that throws ends the read: the trees of the earlier lines are all that is added. */
  lemma {:induction false} ReplayThrowsAt(effects: seq<LineEffect>, i: nat)
    requires i < |effects|
    requires Replay(effects[..i]).failedLine.None? && effects[i].Throws?
    ensures Replay(effects) == Ingested(Replay(effects[..i]).added, Some(i))
  {
    var n := |effects| - 1;
    if i == n {
      assert effects[..n] == effects[..i];
    } else {
      assert effects[..n][..i] == effects[..i];
      ReplayThrowsAt(effects[..n], i);
    }
  }

  /** Only a line that splits into exactly four fields can add a tree; the others add nothing. */
  lemma IngestOneLine(line: string, parseDouble: string -> Option<real>)
    ensures |Split(line, ',')| != 4 ==> Ingest([line], parseDouble) == Ingested([], None)
    ensures ParseLine(line, parseDouble).Parsed? ==>
      Ingest([line], parseDouble) == Ingested([ParseLine(line, parseDouble).tree], None)
  {
    var e := ParseLine(line, parseDouble);
    assert [line][..0] == [];
    assert Effects([line], LineParser(parseDouble)) == [e];
    assert [e][..0] == [];
    assert Replay([e]) == IngestStep(Ingested([], None), e, 0);
    if |Split(line, ',')| != 4 {
      assert e.Malformed?;
    }
  }

  /** How readTreesFromCSV ends after reading a whole file. */
  function OutcomeOf(r: Ingested): ReadOutcome
  {
    match r.failedLine
    case None => AllLinesRead
    case Some(k) => Threw(k)
  }

  // ---------------------------------------------------------------- the forest

  /** How a call of readTreesFromCSV ended. */
  datatype ReadOutcome = FileNotFound | AllLinesRead | Threw(line: nat)

  class Forest {
    const forestName: string
    var trees: seq<Tree>

    /** No Tree object is listed twice: every tree is created for its position. */
    ghost predicate Valid()
      reads this
    {
      forall i, j :: 0 <= i < j < |trees| ==> trees[i] != trees[j]
    }

    /** The trees' fields, in list order. */
    function Values(): (vs: seq<TreeValue>)
      reads this, trees
      ensures |vs| == |trees|
      ensures forall k :: 0 <= k < |trees| ==> vs[k] == trees[k].Value()
    {
      seq(|trees|, k reads this, trees requires 0 <= k < |trees| => trees[k].Value())
    }

    constructor (forestName: string)
      ensures this.forestName == forestName && trees == [] && Valid()
    {
      this.forestName := forestName;
      trees := [];
    }

    /** The mean height, 0 for an empty forest. */
    method CalculateAverageHeight() returns (average: real)
      ensures average == AverageHeight(Values())
    {
      var totalHeight := 0.0;
      if trees == [] {
        return 0.0;
      }
      var i := 0;
      while i < |trees|
        invariant 0 <= i <= |trees|
        invariant totalHeight == SumHeights(Values()[..i])
      {
        var h := trees[i].GetHeight();
        assert Values()[..i + 1][..i] == Values()[..i];
        totalHeight := totalHeight + h;
        i := i + 1;
      }
      assert Values()[..i] == Values();
      average := totalHeight / |trees| as real;
    }

    /** Appends one tree per well-formed line, in file order, until a line throws. */
    method ReadTreesFromCsv(file: Option<seq<string>>, parseDouble: string -> Option<real>)
      returns (outcome: ReadOutcome)
      requires Valid()
      modifies this
      ensures Valid()
      ensures outcome == (if file.None? then FileNotFound else OutcomeOf(Ingest(file.value, parseDouble)))
      ensures |trees| >= |old(trees)| && trees[..|old(trees)|] == old(trees)
      ensures forall k :: |old(trees)| <= k < |trees| ==> fresh(trees[k])
      ensures Values() == old(Values()) + (if file.Some? then Ingest(file.value, parseDouble).added else [])
    {
      if file.None? {
        return FileNotFound;
      }
      outcome := ReadLines(file.value, LineParser(parseDouble));
    }

    /** The read loop of readTreesFromCSV, for any per-line logic parse. */
    method ReadLines(lines: seq<string>, parse: string -> LineEffect) returns (outcome: ReadOutcome)
      requires Valid()
      modifies this
      ensures Valid()
      ensures outcome == OutcomeOf(Replay(Effects(lines, parse)))
      ensures |trees| >= |old(trees)| && trees[..|old(trees)|] == old(trees)
      ensures forall k :: |old(trees)| <= k < |trees| ==> fresh(trees[k])
      ensures Values() == old(Values()) + Replay(Effects(lines, parse)).added
    {
      ghost var effects := Effects(lines, parse);
      var i := 0;
      while i < |lines|
        invariant 0 <= i <= |lines|
        invariant Replay(effects[..i]).failedLine.None?
        invariant Valid()
        invariant |trees| >= |old(trees)| && trees[..|old(trees)|] == old(trees)
        invariant forall k :: |old(trees)| <= k < |trees| ==> fresh(trees[k])
        invariant Values() == old(Values()) + Replay(effects[..i]).added
      {
        var effect := parse(lines[i]);
        EffectAt(lines, parse, i);
        if effect.Throws? {
          ReplayThrowsAt(effects, i);
          return Threw(i);
        }
        ReplayNextLine(effects, i);
        if effect.Parsed? {
          ghost var before := Replay(effects[..i]).added;
          AddTree(effect.tree);
          assert old(Values()) + before + [effect.tree] == old(Values()) + (before + [effect.tree]);
        }
        i := i + 1;
      }
      assert effects[..i] == effects;
      outcome := AllLinesRead;
    }

    /** Removes the tree at index if there is one; otherwise nothing changes. */
    method CutTreeByIndex(index: int)
      requires Valid()
      modifies this
      ensures Valid()
      ensures trees == CutAt(old(trees), index)
    {
      if 0 <= index < |trees| {
        trees := trees[..index] + trees[index + 1..];
      }
    }

    /** Appends one new random tree after the existing ones. */
    method AddRandomTree(d: Draw, currentYear: int)
      requires 2000 <= currentYear && d.yearPick <= currentYear - 2000
      requires Valid()
      modifies this
      ensures Valid()
      ensures |trees| == |old(trees)| + 1 && trees[..|old(trees)|] == old(trees)
      ensures fresh(trees[|trees| - 1])
      ensures Values() == old(Values()) + [AddedTree(d, currentYear)]
    {
      var v := AddedTree(d, currentYear);
      var newTree := new Tree(v.species, v.height, v.growthRate, v.yearOfPlanting);
      Add(newTree);
    }

    /** Appends a new tree holding the values v. */
    method AddTree(v: TreeValue)
      requires Valid()
      modifies this
      ensures Valid()
      ensures |trees| == |old(trees)| + 1 && trees[..|old(trees)|] == old(trees)
      ensures fresh(trees[|trees| - 1])
      ensures Values() == old(Values()) + [v]
    {
      var tree := new Tree(v.species, v.height, v.growthRate, v.yearOfPlanting);
      Add(tree);
    }

    /** ArrayList.add: the tree goes after all existing ones. */
    method Add(tree: Tree)
      requires Valid() && tree !in trees
      modifies this
      ensures Valid()
      ensures trees == old(trees) + [tree]
      ensures Values() == old(Values()) + [tree.Value()]
    {
      trees := trees + [tree];
    }

    /** Grows every tree by one year in place; the list itself is untouched. */
    method SimulateYearlyGrowth()
      requires Valid()
      modifies trees
      ensures trees == old(trees)
      ensures Values() == GrownAll(old(Values()))
    {
      var i := 0;
      while i < |trees|
        invariant 0 <= i <= |trees|
        invariant forall k :: 0 <= k < i ==> trees[k].Value() == Grown(old(trees[k].Value()))
        invariant forall k :: i <= k < |trees| ==> trees[k].Value() == old(trees[k].Value())
      {
        var tree := trees[i];
        var h := tree.GetHeight();
        var rate := tree.GetGrowthRate();
        var growth := h * rate;
        tree.SetHeight(h + growth);
        i := i + 1;
      }
    }

    /** A fresh tree built from one draw of the replacement ranges. */
    static method GenerateRandomTree(d: Draw, currentYear: int) returns (tree: Tree)
      requires d.yearPick <= 20
      ensures fresh(tree) && tree.Value() == ReplacementTree(d, currentYear)
    {
      var species := AllSpecies[d.speciesPick];
      var year := currentYear - d.yearPick;
      var height := 10.0 + d.heightUnit * 10.0;
      var growthRate := 0.1 + d.rateUnit * 0.1;
      tree := new Tree(species, height, growthRate, year);
    }

    /**
     * Replaces every tree taller than the threshold by a newly generated one. The
     * replacements are collected first and written back only afterwards.
     */
    method ReapForest(height: real, draws: seq<Draw>, currentYear: int)
      requires Valid()
      requires |TallIndexes(Values(), height)| <= |draws| && ReplacementDraws(draws)
      modifies this
      ensures Valid()
      ensures |trees| == |old(trees)|
      ensures forall k :: 0 <= k < |trees| && old(trees[k].Value().height) <= height ==>
        trees[k] == old(trees[k])
      ensures forall k :: 0 <= k < |trees| && old(trees[k].Value().height) > height ==>
        fresh(trees[k])
      ensures Values() == Reaped(old(Values()), height, draws, currentYear)
    {
      ghost var vs := Values();
      var reapedIndexes := ScanTall(height);
      var newTrees := GenerateReplacements(draws[..|reapedIndexes|], currentYear);
      ReplaceAt(reapedIndexes, newTrees, vs, height);
      SubstitutedDistinct(old(trees), vs, height, newTrees);
      forall k | 0 <= k < |trees|
        ensures vs[k].height <= height ==> trees[k] == old(trees[k])
        ensures vs[k].height > height ==> fresh(trees[k])
        ensures Values()[k] == Reaped(vs, height, draws, currentYear)[k]
      {
        SubstitutedPositions(old(trees), vs, height, newTrees, k);
        ReapedPositions(vs, height, draws, currentYear, k);
      }
    }

    /** The scan of reapForest: the indexes of the trees taller than the threshold, ascending. */
    method ScanTall(height: real) returns (reapedIndexes: seq<nat>)
      ensures reapedIndexes == TallIndexes(old(Values()), height)
    {
      ghost var vs := Values();
      reapedIndexes := [];
      var index := 0;
      while index < |trees|
        invariant 0 <= index <= |trees|
        invariant reapedIndexes == TallIndexes(vs[..index], height)
      {
        var tree := trees[index];
        var h := tree.GetHeight();
        TallIndexesStep(vs, height, index);
        if h > height {
          reapedIndexes := reapedIndexes + [index];
        }
        index := index + 1;
      }
      assert vs[..index] == vs;
    }

    /** One generateRandomTree per draw, in order: fresh, distinct trees. */
    static method GenerateReplacements(draws: seq<Draw>, currentYear: int) returns (newTrees: seq<Tree>)
      requires ReplacementDraws(draws)
      ensures |newTrees| == |draws|
      ensures forall j :: 0 <= j < |newTrees| ==> fresh(newTrees[j])
      ensures forall j :: 0 <= j < |newTrees| ==> newTrees[j].Value() == ReplacementTree(draws[j], currentYear)
      ensures forall i, j :: 0 <= i < j < |newTrees| ==> newTrees[i] != newTrees[j]
    {
      newTrees := [];
      while |newTrees| < |draws|
        invariant |newTrees| <= |draws|
        invariant forall j :: 0 <= j < |newTrees| ==> fresh(newTrees[j])
        invariant forall j :: 0 <= j < |newTrees| ==> newTrees[j].Value() == ReplacementTree(draws[j], currentYear)
        invariant forall i, j :: 0 <= i < j < |newTrees| ==> newTrees[i] != newTrees[j]
      {
        var newTree := GenerateRandomTree(draws[|newTrees|], currentYear);
        newTrees := newTrees + [newTree];
      }
    }

    /** The second phase of reapForest: install the j-th new tree at the j-th reaped index. */
    method ReplaceAt(reapedIndexes: seq<nat>, newTrees: seq<Tree>, ghost vs: seq<TreeValue>, ghost height: real)
      requires |vs| == |trees|
      requires reapedIndexes == TallIndexes(vs, height) && |newTrees| == |reapedIndexes|
      modifies this
      ensures trees == Substituted(old(trees), vs, height, newTrees)
    {
      var i := 0;
      while i < |reapedIndexes|
        invariant 0 <= i <= |reapedIndexes|
        invariant |trees| == |old(trees)|
        invariant forall k :: 0 <= k < |trees| ==>
          trees[k] == if vs[k].height > height && Rank(vs, height, k) < i
                      then newTrees[Rank(vs, height, k)] else old(trees[k])
      {
        var reapedIndex := reapedIndexes[i];
        RankOfListed(vs, height, i);
        forall k | 0 <= k < |trees| && k != reapedIndex && vs[k].height > height
          ensures Rank(vs, height, k) != i
        {
          RankLocates(vs, height, k);
        }
        trees := trees[reapedIndex := newTrees[i]];
        i := i + 1;
      }
      forall k | 0 <= k < |trees| ensures trees[k] == Substituted(old(trees), vs, height, newTrees)[k] {
        SubstitutedPositions(old(trees), vs, height, newTrees, k);
      }
    }
  }
}
