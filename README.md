# Forestry simulation: a verified model in Dafny

The forestry simulation is a command-line program. Its arguments are forest names. For each
name it creates a forest and seeds it from `<name>.csv` when that file exists. A menu then
lets the user grow, cut, add, reap, load and cycle through the forests. This project models:

- the tree record (`src/Tree.java`);
- the forest, an ordered list of trees changed in place (`src/Forest.java`);
- the decision rules of the main program (`src/Main.java`): start-up, `getNextForestName`, the
  Next command, Load, and the Cut and Reap prompts.

Layout, one module per file:

- `wrappers.dfy` (`Wrappers`): `Option`, which stands for Java's `null` and for a thrown
  parse exception.
- `java_text.dfy` (`JavaText`): the library behaviour the CSV reader and the Cut prompt
  depend on.
  - `String.split(",")`, with trailing empty strings dropped;
  - `String.trim`;
  - `String.toUpperCase` on ASCII letters;
  - `Integer.parseInt`, with an optional sign, decimal digits and the 32-bit range.
- `tree.dfy` (`Trees`): the three species and `TreeValue`, the four fields of a tree at one
  moment. The `Tree` class has fields that its setters and `GrowthForOneYear` change in
  place, and `Value()` gives a snapshot of them.
- `forest.dfy` (`Forests`): the `Forest` class, with a constant name and a `trees: seq<Tree>`
  field. Its methods change that field the way the `ArrayList` is changed:
  - `add` appends;
  - `remove` shifts the later trees down;
  - `set` replaces in place;
  - growth updates each `Tree` object.

  Each method is proved against a function on `Values()`, the list of the trees' fields:
  `CutAt`, `GrownAll`, `AverageHeight`, `Reaped` and `Replay(Effects(..))`. The properties the
  program relies on are lemmas about those functions. `Valid()` says that no `Tree` object is
  listed twice, so changing one tree never changes another position.
- `simulation.dfy` (`ForestrySimulation`): the main program.
  - `NextForestName` is `getNextForestName`.
  - `Orbit` is repeated application of it, which the Next command's loop performs.
  - The `Simulation` class holds the arguments, the map from names to forests and the current
    forest.

Outside influences are parameters:

- `Random` draws are values of `Draw`: a species index and a year draw, plus two `nextDouble`
  values in [0, 1).
- `Year.now()` is `currentYear`.
- Whether `<name>.csv` exists, and its lines, are `csvFiles: string -> Option<seq<string>>`.
  The Next command's `File.exists` test is `csvExists`.
- `Double.parseDouble` is an oracle `parseDouble: string -> Option<real>`, where `None` stands
  for `NumberFormatException`.
- Heights and rates are `real`.

A CSV line with an unknown species or an unparseable number is not skipped.
`readTreesFromCSV` catches only `FileNotFoundException` (src/Forest.java:105). The
`IllegalArgumentException` from `TreeSpecies.valueOf`, or the `NumberFormatException` from a
parse, therefore ends the read.
The trees of the earlier lines stay in the forest. The exception then leaves `main` during
start-up, which ends the program. `LineEffect.Throws`, `Ingested.failedLine` and
`LaunchOutcome.Crashed` model this.

Two consequences of the code are proved:

- An argument list with a repeated name can make a later name unreachable by Next
  (`ShadowedNameUnreachable`). `getNextForestName` always starts from the first copy of a
  name.
- The null exit of the Next loop (src/Main.java:147-149) can never be taken. Every name the
  loop reaches is one of the arguments.

## Model

| member | source | states |
|---|---|---|
| Trees.SpeciesNamed | src/Forest.java:86 | `TreeSpecies.valueOf` returns a species only for the exact, case-sensitive name of that species |
| Trees.SpeciesNamedExactly | src/Tree.java:6-8 | `valueOf` succeeds exactly on the three constant names, and it inverts `name()` for every species |
| Trees.AllSpeciesListsEachOnce | src/Tree.java:6-8 | `TreeSpecies.values()` has three entries, lists every species, and repeats none |
| Trees.Grown | src/Tree.java:38-40 | one year of growth multiplies the height by 1 + rate; species, rate and planting year stay as they were |
| Trees.GrownYearsCompounds | src/Tree.java:38-40 | after n growth steps the height is h·(1 + rate)^n, and the other three fields are unchanged |
| Trees.GrowthNeverShrinks | src/Tree.java:38-40 | with a non-negative height and rate a tree never gets shorter, and with a positive height and rate it gets strictly taller |
| Trees.Tree.constructor | src/Tree.java:28-33 | the new tree holds exactly the species, height, rate and year passed in |
| Trees.Tree.GrowthForOneYear | src/Tree.java:38-40 | the tree's new fields are `Grown` of its old fields |
| Trees.Tree.SetSpecies | src/Tree.java:47-49 | only the species changes, and any species is accepted |
| Trees.Tree.SetHeight | src/Tree.java:56-58 | only the height changes, and any value is accepted (no validation) |
| Trees.Tree.SetGrowthRate | src/Tree.java:65-67 | only the growth rate changes, and any value is accepted |
| Trees.Tree.SetYearOfPlanting | src/Tree.java:74-76 | only the planting year changes, and any value is accepted |
| Trees.Tree.GetSpecies | src/Tree.java:83-85 | returns the current species and changes nothing |
| Trees.Tree.GetHeight | src/Tree.java:92-94 | returns the current height and changes nothing |
| Trees.Tree.GetGrowthRate | src/Tree.java:101-103 | returns the current growth rate and changes nothing |
| Trees.Tree.GetYearOfPlanting | src/Tree.java:110-112 | returns the current planting year and changes nothing |
| JavaText.JoinPieces | src/Forest.java:81 | splitting a line at every comma and joining the pieces with commas gives back the line |
| JavaText.PiecesCount | src/Forest.java:81 | a line with n commas has n + 1 pieces |
| JavaText.DropTrailingEmpty | src/Forest.java:81 | `split` keeps a prefix of the pieces that does not end in an empty string, and everything it drops is empty |
| JavaText.SplitKeepsLeadingPieces | src/Forest.java:81 | for a line that contains a comma, `split` returns the leading pieces and drops only empty trailing ones |
| JavaText.SplitIgnoresTrailingSeparator | src/Forest.java:81 | a trailing comma does not change the fields of a non-empty line ("a,b,c,d," has the same four fields as "a,b,c,d") |
| JavaText.NoSeparatorOnePiece | src/Forest.java:81 | a line without a comma is a single field |
| JavaText.Split | src/Forest.java:81 | no field contains a comma; a line without a comma is one field, the whole line; there is at most one field more than there are commas |
| JavaText.PiecesAfterField | src/Forest.java:81 | proof helper: a comma-free field followed by a comma is the first piece |
| JavaText.SplitOfFour | src/Forest.java:81-84 | four comma-free fields joined by commas, the last one non-empty, split back into exactly those four fields |
| JavaText.SplitOfThree | src/Forest.java:81-84 | the same for three fields, so such a line fails the four-field test |
| JavaText.TrimStart | src/Forest.java:86 | drops the leading characters up to U+0020 and nothing else |
| JavaText.TrimEnd | src/Forest.java:86 | drops the trailing characters up to U+0020 and nothing else |
| JavaText.Trim | src/Forest.java:86-92 | `trim` never lengthens a field, and a non-empty result starts and ends with a character above U+0020 |
| JavaText.TrimStartSkips | src/Forest.java:86-92 | proof helper: leading white space in front of a non-space is dropped |
| JavaText.TrimEndSkips | src/Forest.java:86-92 | proof helper: trailing white space after a non-space is dropped |
| JavaText.TrimAround | src/Forest.java:86-92 | `trim` of a word between white space gives back the word, when the word starts and ends with a non-space |
| JavaText.TrimIsSlice | src/Forest.java:86-92 | `trim` returns the slice between the white space at either end; a non-empty result starts and ends with a non-space |
| JavaText.Upper | src/Forest.java:86 | `toUpperCase` keeps the length and maps each ASCII lower-case letter to upper case |
| JavaText.ParseInt | src/Forest.java:88 | `Integer.parseInt` succeeds exactly on an optional '+' or '-' followed by at least one decimal digit, with a value that fits in 32 bits; the result is that signed decimal value |
| JavaText.ParseIntRoundTrip | src/Main.java:72 | every 32-bit value, written in decimal, is read back by `parseInt` |
| Forests.AddedTree | src/Forest.java:133-147 | `addRandomTree` builds a tree planted in [2000, currentYear], 10 to 20 feet tall, with a rate in [0.1, 0.2) and the drawn species |
| Forests.ReplacementTree | src/Forest.java:209-220 | `generateRandomTree` builds a tree planted in [currentYear - 20, currentYear], 10 to 20 feet tall, with a rate in [0.1, 0.2) |
| Forests.CutAt | src/Forest.java:118-126 | a valid index removes that element, keeps the elements before it, and shifts the later ones down by one; any other index leaves the list unchanged |
| Forests.CutRemovesOne | src/Forest.java:120-122 | cutting a valid index loses exactly one copy of the element there |
| Forests.GrownAll | src/Forest.java:157-165 | one year of growth for the whole forest, position by position, keeps the order and the length |
| Forests.AverageHeight | src/Forest.java:54-66 | 0 for an empty forest; otherwise the average times the number of trees is the sum of the heights |
| Forests.AverageWithinHeights | src/Forest.java:54-66 | the average height of a non-empty forest lies between the heights of its shortest and tallest trees |
| Forests.AverageAfterUniformGrowth | src/Forest.java:54-66 | when all trees share one rate, a year of growth multiplies the average by 1 + rate, and an empty forest keeps an average of 0 |
| Forests.TallIndexes | src/Forest.java:178-190 | the scan lists, in ascending order, only positions whose tree is strictly taller than the threshold |
| Forests.TallIndexesComplete | src/Forest.java:182-184 | a position is listed exactly when its tree is strictly taller than the threshold |
| Forests.TallIndexesOfPrefix | src/Forest.java:178-190 | scanning a prefix of the forest lists a prefix of the full scan's positions |
| Forests.TallIndexesStep | src/Forest.java:178-184 | scanning one more position appends it exactly when its tree is tall |
| Forests.RankLocates | src/Forest.java:184-196 | a tall position is listed at the place its rank gives, the number of tall positions before it |
| Forests.RankOfListed | src/Forest.java:193-196 | the j-th listed position has rank j, so it receives the j-th new tree |
| Forests.Substituted | src/Forest.java:193-197 | the write-back keeps the number of trees; what each position then holds is stated by `SubstitutedPositions` |
| Forests.SubstitutedPositions | src/Forest.java:193-197 | after the write-back a short position keeps its element, and a tall position holds the new element of its rank |
| Forests.SubstitutedDistinct | src/Forest.java:193-197 | writing back distinct new trees, none already in the forest, keeps the forest free of duplicates |
| Forests.Replacements | src/Forest.java:184-187 | the j-th generated replacement is built from the j-th draw |
| Forests.Reaped | src/Forest.java:172-198 | a reap keeps the number of trees; what each position then holds is stated by `ReapedPositions` |
| Forests.ReapedPositions | src/Forest.java:172-198 | reaping keeps every tree at or below the threshold in place; a position above it holds the tree made from the draw of its rank, which lies in the replacement ranges |
| Forests.ReapedUsesDrawsInOrder | src/Forest.java:184-196 | of two reaped positions, the earlier one uses the earlier draw |
| Forests.ReapAtTwentyLeavesNoneTall | src/Forest.java:182-196 | with a threshold of 20 feet or more, no tree is above the threshold after a reap |
| Forests.ReapBelowTenKeepsReplacementsTall | src/Forest.java:182-196 | below 10 feet every replacement is itself above the threshold; the reap never tests replacements, so the same positions are tall again afterwards |
| Forests.SameTallIndexes | src/Forest.java:178-190 | two forests whose trees are tall at the same positions have the same scan |
| Forests.ParseLine | src/Forest.java:81-101 | a line is skipped, with the "Invalid data format" message, exactly when `split` does not give four fields |
| Forests.FieldsEffect | src/Forest.java:84-98 | four fields are never skipped: they give a tree or an exception |
| Forests.Converted | src/Forest.java:86-95 | a tree exactly when all four conversions succeed; the tree holds the converted species, height and year, and the fourth field divided by 100 as its rate |
| Forests.ConvertedAll | src/Forest.java:86-95 | proof helper: four successful conversions give the tree they describe |
| Forests.CsvLineFields | src/Forest.java:81-84 | a line made of four comma-free fields, the last one non-empty, is handled as those four fields |
| Forests.ParseLineOfSplit | src/Forest.java:81-84 | proof helper: a line that splits into four fields is handled as those fields |
| Forests.ParseLineOfFields | src/Forest.java:81-98 | writing four fields as a CSV line and reading it back gives the tree of the converted fields, with the rate divided by 100 |
| Forests.ParseLineThrowsOnBadField | src/Forest.java:84-92 | a four-field line throws, and is not skipped, when the species, the year, the height or the rate does not convert |
| Forests.ThreeFieldsSkipped | src/Forest.java:81-101 | a line of three fields is skipped |
| Forests.SpeciesNameLetters | src/Tree.java:6-8 | proof helper: every species name is a non-empty string of upper-case ASCII letters |
| Forests.SpeciesFieldIgnoresCaseAndSpace | src/Forest.java:86 | the species field is read whatever the ASCII case of its letters and whatever white space surrounds it, under a default locale without Turkic casing rules |
| Forests.MapleLine | src/Forest.java:81-98 | the line "maple, 2010, 15.00, 12.0" gives a maple planted in 2010, 15 feet tall, with a rate of 0.12 |
| Forests.MapleCsv | src/Forest.java:81 | proof helper for `MapleLine`: the four fields contain no comma and form the line |
| Forests.MapleSpecies | src/Forest.java:86 | proof helper for `MapleLine`: "maple" reads as the maple species |
| Forests.MapleYear | src/Forest.java:88 | proof helper for `MapleLine`: " 2010" reads as the year 2010 |
| Forests.MapleNumbers | src/Forest.java:90-92 | proof helper for `MapleLine`: the number fields lose their leading space |
| Forests.SpaceThenWord | src/Forest.java:86-92 | proof helper: one leading space is trimmed off a word |
| Forests.Ingest | src/Forest.java:73-111 | a line that throws lies within the file, and no more trees are added than the file has lines |
| Forests.Effects | src/Forest.java:79-81 | one effect per line of the file |
| Forests.EffectAt | src/Forest.java:79-81 | the k-th effect is that of the k-th line |
| Forests.EffectsAppend | src/Forest.java:79-81 | the effects of two concatenated files are the effects of each file, one after the other |
| Forests.IngestStep | src/Forest.java:84-101 | one line of the read: after a throw nothing changes; otherwise the earlier trees are kept in order and at most one tree is added, and a line that throws now is recorded as line n with no tree added |
| Forests.Replay | src/Forest.java:79-102 | a line that throws lies within the file, and the number of trees added is at most the number of lines |
| Forests.ReplayAppend | src/Forest.java:79-102 | reading a + b: a throw in a ends the read; otherwise b's trees follow a's, and b's throwing line is shifted by the length of a |
| Forests.IngestAppend | src/Forest.java:79-102 | the same for files of text lines: trees are added in file order, and an exception ends the read with the earlier trees kept |
| Forests.StepKeepsAppended | src/Forest.java:79-102 | reading one more line keeps the relation between the reads of a, of b and of a + b |
| Forests.ReplayNext | src/Forest.java:79-80 | reading line i after the first i lines is one step of the read |
| Forests.ReplayNextLine | src/Forest.java:84-101 | proof helper: when no earlier line threw, a parsed line adds its tree after the earlier ones, and a malformed line adds nothing |
| Forests.ReplayThrowsAt | src/Forest.java:84-92 | the first line that throws ends the read: the trees are those of the earlier lines, and the failing line is recorded |
| Forests.IngestOneLine | src/Forest.java:84-101 | a line without four fields adds nothing, and a parsed line adds exactly its tree |
| Forests.Forest.Values | src/Forest.java:9 | the snapshot has one entry per tree, holding that tree's fields |
| Forests.Forest.constructor | src/Forest.java:14-17 | a new forest has the given name and no trees |
| Forests.Forest.CalculateAverageHeight | src/Forest.java:54-66 | the loop's total is the sum of the heights; the result is that sum over the count, and 0 for an empty forest |
| Forests.Forest.ReadTreesFromCsv | src/Forest.java:73-111 | a missing file changes nothing. Otherwise the trees read are appended after the existing ones as fresh objects, in file order, and the read stops at the first line that throws |
| Forests.Forest.ReadLines | src/Forest.java:79-102 | the read loop appends `Replay(Effects(lines))`'s trees to the forest and reports the line that threw, if any |
| Forests.Forest.CutTreeByIndex | src/Forest.java:118-126 | the list becomes `CutAt` of the old list |
| Forests.Forest.AddRandomTree | src/Forest.java:131-152 | exactly one fresh tree with the `AddedTree` fields is appended, and the existing trees are unchanged |
| Forests.Forest.AddTree | src/Forest.java:95-98 | a fresh tree holding the parsed values is appended |
| Forests.Forest.Add | src/Forest.java:98 | `ArrayList.add` puts the tree after all existing ones |
| Forests.Forest.SimulateYearlyGrowth | src/Forest.java:157-165 | the list of tree objects is unchanged, and every tree's fields become `Grown` of its old fields |
| Forests.Forest.GenerateRandomTree | src/Forest.java:205-221 | returns a fresh tree whose fields are `ReplacementTree` of the draw |
| Forests.Forest.ReapForest | src/Forest.java:172-198 | same length. Trees at or below the threshold are the same objects; taller positions hold fresh trees. The fields are `Reaped` of the old ones |
| Forests.Forest.ScanTall | src/Forest.java:178-190 | the first loop collects exactly `TallIndexes` of the forest |
| Forests.Forest.GenerateReplacements | src/Forest.java:184-187 | one fresh, distinct tree per draw, in draw order |
| Forests.Forest.ReplaceAt | src/Forest.java:193-197 | the second loop puts the j-th new tree at the j-th reaped index, and leaves every other position alone |
| ForestrySimulation.IndexOf | src/Main.java:202 | `indexOf` gives -1 exactly when the name is absent; otherwise it gives the first index holding the name |
| ForestrySimulation.FirstOccurrence | src/Main.java:202 | an index holding the name, with no copy before it, is the one `indexOf` returns |
| ForestrySimulation.NextForestName | src/Main.java:200-210 | returns null exactly when the name is not listed; otherwise returns a listed name |
| ForestrySimulation.NextFollowsFirstOccurrence | src/Main.java:202-207 | from a name's first occurrence at i, the result is the name at i + 1, and the last position wraps to the first |
| ForestrySimulation.NextOfOnlyName | src/Main.java:207 | with a single forest name, the next name is that same name |
| ForestrySimulation.ShadowedNameUnreachable | src/Main.java:202-207 | a name that occurs once, directly after a repeated name, is never returned |
| ForestrySimulation.NextOfClosed | src/Main.java:205-207 | for a listed name, `getNextForestName` is never null and stays among the names |
| ForestrySimulation.Orbit | src/Main.java:145-152 | zero steps stay at the current name, and one step is one call of `getNextForestName`; what later steps reach is stated by `OrbitInNames`, `OrbitCovered` and `NoCsvInFirstRound` |
| ForestrySimulation.OrbitInNames | src/Main.java:145-152 | every name the Next loop reaches from a listed name is non-null and listed |
| ForestrySimulation.OrbitShift | src/Main.java:145-152 | once the loop revisits a name, the names that follow repeat with that period |
| ForestrySimulation.Pigeonhole | src/Main.java:145-152 | proof helper: n + 1 positions among n names include two equal ones |
| ForestrySimulation.FindValue | src/Main.java:145-152 | proof helper: finds the first position of a value, or reports that it is absent |
| ForestrySimulation.PositionOfStep | src/Main.java:145-152 | proof helper: each name the loop reaches is the name at a valid position of the list |
| ForestrySimulation.Positions | src/Main.java:145-152 | proof helper: the list positions of the first m names the loop reaches |
| ForestrySimulation.OrbitRepeats | src/Main.java:145-152 | within its first n + 1 steps the loop reaches some name twice |
| ForestrySimulation.OrbitCovered | src/Main.java:145-152 | every name the loop reaches, however late, is also reached within its first n steps |
| ForestrySimulation.NoCsvInFirstRound | src/Main.java:145-152 | if the first n steps reach no name with a CSV file, no later step does |
| ForestrySimulation.NextLoopNeverEnds | src/Main.java:145-152 | for the arguments a, b with no CSV files, every step from a is non-null and without a CSV file, so the loop as written runs forever |
| ForestrySimulation.SearchCsv | src/Main.java:139-157 | stops at the first step whose name has a CSV file, or reports NeverFinds exactly when no step, however late, reaches such a name; null is never returned |
| ForestrySimulation.NextTarget | src/Main.java:132-161 | "No more forests" exactly when the current name is not listed; otherwise the first following name with a CSV file, or NeverFinds exactly when none is ever reached |
| ForestrySimulation.FirstIndex | src/Main.java:68-83 | the first answer that satisfies the test, with none before it; None when no answer does |
| ForestrySimulation.FirstIndexAt | src/Main.java:68-83 | an answer that passes the test, with no earlier one passing, is the one the prompt acts on |
| ForestrySimulation.StartupRead | src/Main.java:37-41 | the file is read exactly when it exists; then no more trees are added than the file has lines, and a throwing line lies within the file |
| ForestrySimulation.StartupTrees | src/Main.java:37-41 | a forest without a CSV file starts empty; otherwise it starts with no more trees than its file has lines |
| ForestrySimulation.LaunchResult | src/Main.java:33-47 | start-up has no forests exactly when there are no arguments; a crash names an argument whose file throws; a completed start-up had no throwing file |
| ForestrySimulation.CrashOutcome | src/Main.java:33-47 | start-up ends with a crash at the first argument whose CSV file throws, at that file's failing line |
| ForestrySimulation.StartedOutcome | src/Main.java:33-50 | when no argument's CSV file throws, start-up reaches the menu |
| ForestrySimulation.NoneThrowAll | src/Main.java:33-47 | the throw-free prefix is exactly the arguments none of whose files throw |
| ForestrySimulation.NoneThrowExtend | src/Main.java:33-47 | reading one more file that does not throw keeps the prefix throw-free |
| ForestrySimulation.PutKeeps | src/Main.java:46 | putting the new forest under its name keeps every stored forest named by its key, distinct and seeded from its own file; this holds through to the current argument |
| ForestrySimulation.Simulation.constructor | src/Main.java:50-52 | the simulation holds the given arguments, forest map and current forest |
| ForestrySimulation.Simulation.Launch | src/Main.java:22-52 | no arguments end the program, and a throwing CSV line crashes it. Otherwise every argument has a distinct forest seeded from its CSV file, and the first argument's forest is current |
| ForestrySimulation.Simulation.Start | src/Main.java:24-52 | the same, for any per-line logic of the CSV reader |
| ForestrySimulation.Simulation.OpenAll | src/Main.java:33-47 | the arguments' forests, each seeded from its own file, and the start-up outcome `LaunchResult` |
| ForestrySimulation.Simulation.OpenForest | src/Main.java:35-41 | a fresh forest named after the argument; its CSV file is read only when it exists, and the read throws exactly when `ReadingThrows` says so |
| ForestrySimulation.Simulation.Load | src/Main.java:109-118 | the current forest becomes the named one exactly when the name is a key; otherwise the old forest is kept, and the map is never changed |
| ForestrySimulation.Simulation.Next | src/Main.java:119-162 | moves to the first following forest whose CSV file exists, or stays put and reports NeverFinds exactly when no such forest is reachable; "No more forests" cannot happen |
| ForestrySimulation.Simulation.CutCommand | src/Main.java:67-84 | answers that are not integers are skipped. At the first integer, an index in range cuts that tree and any other number leaves the forest unchanged; either way the prompt ends |
| ForestrySimulation.Simulation.ReapCommand | src/Main.java:88-105 | answers that are not numbers, or are negative, are skipped. The first height of at least 0 reaps the current forest at that height |

## Left out

- Saving and loading forests (`saveForest`, `loadForest`, src/Forest.java:227-258): Java object serialization and file I/O. `loadForest` is never called from the menu.
- `displayForest`, `getReapingFormat` and `toString` (src/Forest.java:31-47, src/Tree.java:119-132): console output with decimal rounding.
- The menu loop itself (src/Main.java:55-170): printing, reading the menu letter, `System.exit`. The Add and Grow entries call `AddRandomTree` and `SimulateYearlyGrowth`, which are modelled. The Print and Save entries call `displayForest` and `saveForest`, which are left out (see above and below).
- Code that is commented out (src/Main.java:120-130 and 185-198).
- IEEE-754 doubles: heights and rates are exact reals.
- Forests.AddedTree: states a height below 20 feet and a rate below 0.2. In doubles, the largest draw, 1 - 2^-53, makes `nextDouble() * 10.0 + 10.0` round to exactly 20.0 and `nextDouble() * 0.1 + 0.1` round to exactly 0.2, so the program can make a tree on either upper bound.
- Forests.ReplacementTree: states the same two strict bounds, with the same exception for the largest draw.
- `Double.parseDouble` is an oracle that returns a real or `None`. Strings such as "NaN" and "Infinity", which Java parses to non-finite doubles, are not modelled.
- `String.toUpperCase` and `Integer.parseInt` are modelled on ASCII only. Unicode case mappings and non-ASCII digits are not covered.
- JavaText.Upper: assumes a default locale without Turkic casing rules. `toUpperCase()` at src/Forest.java:86 uses the JVM's default locale. Under Turkish or Azeri the lower-case 'i' of "birch" and "fir" becomes 'İ' (U+0130), so `valueOf` throws and start-up ends; the model reads those lines as trees.
- Forests.SpeciesFieldIgnoresCaseAndSpace: holds only under that same assumption of a default locale without Turkic casing rules.
- `Random` and `Year.now()` are the parameters `draws` and `currentYear`. A `Draw` in the model is already in range.
- Forests.Forest.AddRandomTree: requires `currentYear >= 2000`. For an earlier year Java's `nextInt` throws, and that case is not modelled.
- Forests.Forest.ReapForest: requires at least one draw per reaped tree, standing for an unbounded random source.
- ForestrySimulation.Simulation.ReapCommand: requires at least one draw per tree of the current forest, for the same reason.
- File existence is a snapshot: `csvFiles` at start-up and `csvExists` for one Next command. Files appearing or vanishing during a command are not modelled.
- ForestrySimulation.Simulation.CutCommand and ForestrySimulation.Simulation.ReapCommand: take the typed answers as a finite list. When no answer is accepted, the model reports that all answers were used. The program instead keeps reading, or ends with an exception when input runs out.
- ForestrySimulation.SearchCsv and ForestrySimulation.Simulation.Next: when no reachable forest has a CSV file, the program's loop never ends. The model stops after one round of the names and returns `NeverFinds`, with a proof that no later step would succeed (see Findings).
- Exceptions other than a CSV line's parse failure are not modelled: an I/O error while reading, and running out of memory.
- Forests.Forest.ReadLines and ForestrySimulation.Simulation.Start: take the per-line logic as a parameter. `ReadTreesFromCsv` and `Launch` supply the real logic, `ParseLine`, to them.

## Findings

| source | as written | input that shows it | evidently intended | confidence | as-written member | corrected member |
|---|---|---|---|---|---|---|
| src/Main.java:145-152 | `while (!csvFile.exists())` keeps calling `getNextForestName`, which wraps round and never returns null for a listed name, so the loop has no exit when no listed forest has a CSV file | arguments `a b`, neither `a.csv` nor `b.csv` present, current forest `a`, command N | stop after going once round the names and report "No more forests to process." (the message of the unreachable null exit at :147-149) | high, not executed | ForestrySimulation.NextLoopNeverEnds | ForestrySimulation.SearchCsv |
