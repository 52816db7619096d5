// The decision rules of the forestry simulation's main program: which forests exist
// after start-up, how Load and Next choose the current forest, and which typed answers
// make the Cut and Reap prompts change the current forest.

module ForestrySimulation {
  import opened Wrappers
  import opened JavaText
  import opened Trees
  import opened Forests

  // ---------------------------------------------------------------- getNextForestName

  /** Arrays.asList(names).indexOf(c): the first index holding c, or -1 when there is none. */
  function IndexOf<T(==)>(names: seq<T>, c: T): (i: int)
    ensures -1 <= i < |names|
    ensures i == -1 <==> c !in names
    ensures 0 <= i ==> names[i] == c && c !in names[..i]
  {
    if names == [] then -1
    else if names[0] == c then 0
    else
      var j := IndexOf(names[1..], c);
      if j == -1 then -1
      else
        assert names[..j + 1] == [names[0]] + names[1..][..j];
        j + 1
  }

  /** An index holding c with no c before it is the one indexOf finds. */
  lemma {:induction false} FirstOccurrence<T>(names: seq<T>, c: T, i: nat)
    requires i < |names| && names[i] == c && c !in names[..i]
    ensures IndexOf(names, c) == i
  {
    if i > 0 {
      assert names[..i][0] == names[0];
      assert names[1..][..i - 1] == names[..i][1..];
      FirstOccurrence(names[1..], c, i - 1);
    }
  }

  /** The position after i, wrapping round from the last position to the first. */
  lemma WrapAround(i: nat, n: nat)
    requires i < n
    ensures (i + 1) % n == if i + 1 < n then i + 1 else 0
  {
  }

  /**
   * getNextForestName: the name after the first occurrence of c, wrapping round from
   * the last name to the first; None (Java's null) exactly when c is not among the names.
   */
  function NextForestName<T(==)>(c: T, names: seq<T>): (r: Option<T>)
    ensures r.None? <==> c !in names
    ensures r.Some? ==> r.value in names
  {
    var i := IndexOf(names, c);
    if i != -1 then Some(names[(i + 1) % |names|]) else None
  }

  /** From its first occurrence i, c moves on to position i + 1, and from the last position to the first. */
  lemma NextFollowsFirstOccurrence<T>(names: seq<T>, c: T, i: nat)
    requires i < |names| && names[i] == c && c !in names[..i]
    ensures NextForestName(c, names) == Some(if i + 1 < |names| then names[i + 1] else names[0])
  {
    FirstOccurrence(names, c, i);
    WrapAround(i, |names|);
  }

  /** With a single forest, Next stays on it. */
  lemma NextOfOnlyName<T>(c: T)
    ensures NextForestName(c, [c]) == Some(c)
  {
    NextFollowsFirstOccurrence([c], c, 0);
  }

  /**
   * A name that occurs once, right after a repeated name, is never the result of
   * getNextForestName: the search always stops at the first copy of the repeated name.
   */
  lemma ShadowedNameUnreachable<T>(names: seq<T>, j: nat, c: T)
    requires 0 < j < |names|
    requires names[j - 1] in names[..j - 1]
    requires forall k :: 0 <= k < |names| && k != j ==> names[k] != names[j]
    ensures NextForestName(c, names) != Some(names[j])
  {
    var i := IndexOf(names, c);
    if i != -1 {
      assert i != j - 1;
      WrapAround(i, |names|);
    }
  }

  // ---------------------------------------------------------------- the Next command

  /**
   * getNextForestName over these names, as a function value that can be applied repeatedly:
   * Orbit and SearchCsv iterate any one-argument step, and a Dafny function value cannot fix
   * the `names` argument of NextForestName, hence this lambda.
   */
  function NextOf<T(==)>(names: seq<T>): T -> Option<T>
  {
    c => NextForestName(c, names)
  }

  /** Every listed name has a listed successor. */
  ghost predicate Closed<T>(next: T -> Option<T>, names: seq<T>)
  {
    forall x {:trigger next(x)} :: x in names ==> next(x).Some? && next(x).value in names
  }

  /** getNextForestName never leaves the names, and never returns null for a listed name. */
  lemma NextOfClosed<T>(names: seq<T>)
    ensures Closed(NextOf(names), names)
  {
  }

  /** The name reached from c by k calls of next; None once a call returns null. */
  function Orbit<T>(next: T -> Option<T>, c: T, k: nat): (r: Option<T>)
    ensures k == 0 ==> r == Some(c)
    ensures k == 1 ==> r == next(c)
  {
    if k == 0 then Some(c)
    else match Orbit(next, c, k - 1)
      case None => None
      case Some(d) => next(d)
  }

  /** From a listed name, every step of the orbit is a listed name. */
  lemma {:induction false} OrbitInNames<T>(next: T -> Option<T>, names: seq<T>, c: T, k: nat)
    requires Closed(next, names) && c in names
    ensures Orbit(next, c, k).Some? && Orbit(next, c, k).value in names
  {
    if k > 0 {
      OrbitInNames(next, names, c, k - 1);
    }
  }

  /** Two equal points of the orbit stay equal from then on. */
  lemma {:induction false} OrbitShift<T>(next: T -> Option<T>, c: T, a: nat, b: nat, x: nat, y: nat)
    requires Orbit(next, c, a) == Orbit(next, c, b)
    requires a <= x && x - a == y - b
    ensures Orbit(next, c, x) == Orbit(next, c, y)
    decreases x
  {
    if x > a {
      OrbitShift(next, c, a, b, x - 1, y - 1);
    }
  }

  /** n + 1 values below n contain a repeat. */
  lemma {:induction false} Pigeonhole(f: seq<int>, n: nat) returns (a: nat, b: nat)
    requires |f| == n + 1 && forall i :: 0 <= i < |f| ==> 0 <= f[i] < n
    ensures a < b < |f| && f[a] == f[b]
    decreases n
  {
    var x := f[n];
    if n == 0 {
      assert false;
    }
    var earlier := FindValue(f[..n], x);
    if earlier < n {
      return earlier, n;
    }
    var g := seq(n, i requires 0 <= i < n => if f[i] == n - 1 then x else f[i]);
    forall i | 0 <= i < n ensures 0 <= g[i] < n - 1 {
      assert f[..n][i] == f[i];
    }
    a, b := Pigeonhole(g, n - 1);
    assert f[..n][a] == f[a] && f[..n][b] == f[b];
  }

  /** The first index of x in s, or |s| when x does not occur. */
  function FindValue(s: seq<int>, x: int): (i: nat)
    ensures i <= |s|
    ensures i < |s| ==> s[i] == x
    ensures i == |s| ==> forall k :: 0 <= k < |s| ==> s[k] != x
  {
    if s == [] then 0
    else if s[0] == x then 0
    else 1 + FindValue(s[1..], x)
  }

  /** The position of a step of the orbit among the names. */
  function PositionOf<T(==)>(names: seq<T>, o: Option<T>): int
  {
    match o
    case None => -1
    case Some(d) => IndexOf(names, d)
  }

  /** A step of the orbit from a listed name sits at a position among the names. */
  lemma PositionOfStep<T>(next: T -> Option<T>, names: seq<T>, c: T, k: nat)
    requires Closed(next, names) && c in names
    ensures 0 <= PositionOf(names, Orbit(next, c, k)) < |names|
    ensures Orbit(next, c, k) == Some(names[PositionOf(names, Orbit(next, c, k))])
  {
    OrbitInNames(next, names, c, k);
  }

  /** The positions of steps 1 to m of the orbit. */
  function Positions<T(==)>(next: T -> Option<T>, names: seq<T>, c: T, m: nat): (ps: seq<int>)
    ensures |ps| == m
    ensures forall j :: 0 <= j < m ==> ps[j] == PositionOf(names, Orbit(next, c, j + 1))
  {
    if m == 0 then [] else Positions(next, names, c, m - 1) + [PositionOf(names, Orbit(next, c, m))]
  }

  /** Among the first |names| + 1 steps from a listed name, some name comes back. */
  lemma OrbitRepeats<T>(next: T -> Option<T>, names: seq<T>, c: T) returns (a: nat, b: nat)
    requires Closed(next, names) && c in names
    ensures 1 <= a < b <= |names| + 1
    ensures Orbit(next, c, a) == Orbit(next, c, b)
  {
    var n := |names|;
    var ps := Positions(next, names, c, n + 1);
    forall j | 0 <= j < n + 1 ensures 0 <= ps[j] < n {
      PositionOfStep(next, names, c, j + 1);
    }
    var i, k := Pigeonhole(ps, n);
    a, b := i + 1, k + 1;
    PositionOfStep(next, names, c, a);
    PositionOfStep(next, names, c, b);
  }

  /** Every step of the orbit repeats one of the first |names| steps. */
  lemma {:induction false} OrbitCovered<T>(next: T -> Option<T>, names: seq<T>, c: T, k: nat)
    returns (k': nat)
    requires Closed(next, names) && c in names && k >= 1
    ensures 1 <= k' <= |names| && Orbit(next, c, k) == Orbit(next, c, k')
    decreases k
  {
    if k <= |names| {
      return k;
    }
    var a, b := OrbitRepeats(next, names, c);
    var earlier := k - (b - a);
    OrbitShift(next, c, b, a, k, earlier);
    k' := OrbitCovered(next, names, c, earlier);
  }

  /** Step k of the orbit is the first, counting from step 1, whose name has a CSV file. */
  ghost predicate FirstWithCsv<T>(next: T -> Option<T>, c: T, csvExists: T -> bool, k: nat)
  {
    k >= 1 && Orbit(next, c, k).Some? && csvExists(Orbit(next, c, k).value) &&
    forall j :: 1 <= j < k ==> Orbit(next, c, j).Some? && !csvExists(Orbit(next, c, j).value)
  }

  /** No step of the orbit, from step 1 on, reaches a name with a CSV file. */
  ghost predicate NeverReachesCsv<T>(next: T -> Option<T>, c: T, csvExists: T -> bool)
  {
    forall k :: k >= 1 ==> Orbit(next, c, k).Some? && !csvExists(Orbit(next, c, k).value)
  }

  /** If the first |names| steps find no CSV file, no later step does either. */
  lemma NoCsvInFirstRound<T>(next: T -> Option<T>, names: seq<T>, c: T, csvExists: T -> bool)
    requires Closed(next, names) && c in names
    requires forall j :: 1 <= j <= |names| ==>
      Orbit(next, c, j).Some? && !csvExists(Orbit(next, c, j).value)
    ensures NeverReachesCsv(next, c, csvExists)
  {
    forall k | k >= 1 ensures Orbit(next, c, k).Some? && !csvExists(Orbit(next, c, k).value) {
      var k' := OrbitCovered(next, names, c, k);
    }
  }

  /**
   * The program's Next loop, as written, never ends for the arguments a, b when neither
   * a.csv nor b.csv exists: every name it reaches is non-null and has no CSV file, so
   * neither its guard nor its null exit ever stops it.
   */
  lemma NextLoopNeverEnds(csvExists: string -> bool)
    requires !csvExists("a") && !csvExists("b")
    ensures NeverReachesCsv(NextOf(["a", "b"]), "a", csvExists)
  {
    var names := ["a", "b"];
    NextOfClosed(names);
    NextFollowsFirstOccurrence(names, "a", 0);
    NextFollowsFirstOccurrence(names, "b", 1);
    assert Orbit(NextOf(names), "a", 1) == Some("b");
    assert Orbit(NextOf(names), "a", 2) == Some("a");
    NoCsvInFirstRound(NextOf(names), names, "a", csvExists);
  }

  /** How the Next command ends. */
  datatype NextResult<T> = MoveTo(name: T) | NoMoreForests | NeverFinds

  /**
   * The Next command's loop: follow next from c until a name whose CSV file exists. The
   * program's loop never ends when no such name is reachable; this one stops after one
   * round of the names and reports NeverFinds instead.
   */
  method SearchCsv<T>(next: T -> Option<T>, names: seq<T>, c: T, csvExists: T -> bool)
    returns (result: NextResult<T>, ghost steps: nat)
    requires Closed(next, names) && c in names
    ensures !result.NoMoreForests?
    ensures result.MoveTo? ==> FirstWithCsv(next, c, csvExists, steps)
    ensures result.MoveTo? ==> Orbit(next, c, steps) == Some(result.name)
    ensures result.NeverFinds? <==> NeverReachesCsv(next, c, csvExists)
  {
    var name := next(c).value;
    var tried := 1;
    while !csvExists(name)
      invariant 1 <= tried <= |names| && name in names
      invariant Orbit(next, c, tried) == Some(name)
      invariant forall j :: 1 <= j < tried ==> Orbit(next, c, j).Some? && !csvExists(Orbit(next, c, j).value)
      decreases |names| - tried
    {
      if tried == |names| {
        NoCsvInFirstRound(next, names, c, csvExists);
        return NeverFinds, tried;
      }
      // next cannot return null here: name is one of the names.
      name := next(name).value;
      tried := tried + 1;
    }
    result, steps := MoveTo(name), tried;
  }

  /**
   * The Next command's choice: the first name after c, in getNextForestName order, whose
   * CSV file exists; NoMoreForests when getNextForestName returns null for c.
   */
  method NextTarget<T(==)>(c: T, names: seq<T>, csvExists: T -> bool)
    returns (result: NextResult<T>, ghost steps: nat)
    ensures result.NoMoreForests? <==> c !in names
    ensures result.MoveTo? ==> FirstWithCsv(NextOf(names), c, csvExists, steps)
    ensures result.MoveTo? ==> Orbit(NextOf(names), c, steps) == Some(result.name)
    ensures result.NeverFinds? <==> c in names && NeverReachesCsv(NextOf(names), c, csvExists)
  {
    var following := NextForestName(c, names);
    if following.None? {
      return NoMoreForests, 0;
    }
    NextOfClosed(names);
    result, steps := SearchCsv(NextOf(names), names, c, csvExists);
  }

  // ---------------------------------------------------------------- the prompts

  /** The first index whose element satisfies p, or None when none does. */
  function FirstIndex<T>(xs: seq<T>, p: T -> bool): (r: Option<nat>)
    ensures r.Some? ==> r.value < |xs| && p(xs[r.value])
    ensures r.Some? ==> forall j :: 0 <= j < r.value ==> !p(xs[j])
    ensures r.None? ==> forall j :: 0 <= j < |xs| ==> !p(xs[j])
  {
    if xs == [] then None
    else if p(xs[0]) then Some(0)
    else match FirstIndex(xs[1..], p)
      case None => None
      case Some(j) => Some(j + 1)
  }

  /** An index whose element satisfies p, with none before it satisfying p, is the first. */
  lemma {:induction false} FirstIndexAt<T>(xs: seq<T>, p: T -> bool, i: nat)
    requires i < |xs| && p(xs[i])
    requires forall j :: 0 <= j < i ==> !p(xs[j])
    ensures FirstIndex(xs, p) == Some(i)
  {
    if i > 0 {
      assert !p(xs[0]);
      FirstIndexAt(xs[1..], p, i - 1);
    }
  }

  /** The Cut prompt accepts an answer that Integer.parseInt accepts. */
  predicate IsInt(answer: string)
  {
    ParseInt(answer).Some?
  }

  /** The Reap prompt accepts an answer that Double.parseDouble reads as a height of at least 0. */
  function IsHeight(parseDouble: string -> Option<real>): string -> bool
  {
    answer => parseDouble(answer).Some? && parseDouble(answer).value >= 0.0
  }

  // ---------------------------------------------------------------- start-up

  /**
   * What reading the named forest's CSV file yields, with parse as the per-line logic of
   * readTreesFromCSV; None when the file does not exist and so is not read.
   */
  function StartupRead(name: string, csvFiles: string -> Option<seq<string>>,
                       parse: string -> LineEffect): (r: Option<Ingested>)
    ensures r.None? <==> csvFiles(name).None?
    ensures r.Some? ==> |r.value.added| <= |csvFiles(name).value|
    ensures r.Some? && r.value.failedLine.Some? ==> r.value.failedLine.value < |csvFiles(name).value|
  {
    match csvFiles(name)
    case None => None
    case Some(lines) => Some(Replay(Effects(lines, parse)))
  }

  /** The trees a forest starts with: those read from its CSV file, or none when there is no file. */
  function StartupTrees(name: string, csvFiles: string -> Option<seq<string>>,
                        parse: string -> LineEffect): (r: seq<TreeValue>)
    ensures csvFiles(name).None? ==> r == []
    ensures csvFiles(name).Some? ==> |r| <= |csvFiles(name).value|
  {
    match StartupRead(name, csvFiles, parse)
    case None => []
    case Some(r) => r.added
  }

  /** Reading the named forest's CSV file throws, which ends the whole program. */
  predicate ReadingThrows(name: string, csvFiles: string -> Option<seq<string>>, parse: string -> LineEffect)
  {
    StartupRead(name, csvFiles, parse).Some? && StartupRead(name, csvFiles, parse).value.failedLine.Some?
  }

  /**
   * ReadingThrows, as a test on names: FirstIndex takes a one-argument test, and a Dafny
   * function value cannot fix some arguments of a predicate, hence this lambda.
   */
  function ReadThrows(csvFiles: string -> Option<seq<string>>,
                      parse: string -> LineEffect): string -> bool
  {
    name => ReadingThrows(name, csvFiles, parse)
  }

  /** How start-up ends. */
  datatype LaunchOutcome = NoForestNames | Crashed(name: string, line: nat) | Started

  /** The outcome start-up has for these arguments and files. */
  function LaunchResult(args: seq<string>, csvFiles: string -> Option<seq<string>>,
                        parse: string -> LineEffect): (r: LaunchOutcome)
    ensures r.NoForestNames? <==> args == []
    ensures r.Crashed? ==> r.name in args && ReadingThrows(r.name, csvFiles, parse)
    ensures r.Started? ==> forall j :: 0 <= j < |args| ==> !ReadingThrows(args[j], csvFiles, parse)
  {
    if args == [] then NoForestNames
    else match FirstIndex(args, ReadThrows(csvFiles, parse))
      case None => Started
      case Some(i) => Crashed(args[i], StartupRead(args[i], csvFiles, parse).value.failedLine.value)
  }

  /** Start-up ends at the first argument whose CSV file throws. */
  lemma CrashOutcome(args: seq<string>, csvFiles: string -> Option<seq<string>>,
                     parse: string -> LineEffect, i: nat)
    requires i < |args| && ReadingThrows(args[i], csvFiles, parse)
    requires NoneThrow(args[..i], csvFiles, parse)
    ensures LaunchResult(args, csvFiles, parse) ==
      Crashed(args[i], StartupRead(args[i], csvFiles, parse).value.failedLine.value)
  {
    NoneThrowAll(args[..i], csvFiles, parse);
    FirstIndexAt(args, ReadThrows(csvFiles, parse), i);
  }

  /** Start-up completes when no argument's CSV file throws. */
  lemma StartedOutcome(args: seq<string>, csvFiles: string -> Option<seq<string>>,
                       parse: string -> LineEffect)
    requires args != []
    requires NoneThrow(args, csvFiles, parse)
    ensures LaunchResult(args, csvFiles, parse) == Started
  {
    NoneThrowAll(args, csvFiles, parse);
  }

  /** No CSV file among `names` throws while it is read. */
  ghost predicate NoneThrow(names: seq<string>, csvFiles: string -> Option<seq<string>>,
                            parse: string -> LineEffect)
    decreases |names|
  {
    names == [] ||
    (NoneThrow(names[..|names| - 1], csvFiles, parse) &&
     !ReadingThrows(names[|names| - 1], csvFiles, parse))
  }

  lemma {:induction false} NoneThrowAll(names: seq<string>, csvFiles: string -> Option<seq<string>>,
                                        parse: string -> LineEffect)
    ensures NoneThrow(names, csvFiles, parse) <==>
      forall j :: 0 <= j < |names| ==> !ReadingThrows(names[j], csvFiles, parse)
    decreases |names|
  {
    if names != [] {
      var n := |names| - 1;
      NoneThrowAll(names[..n], csvFiles, parse);
      assert forall j :: 0 <= j < n ==> names[..n][j] == names[j];
    }
  }

  /** Reading one more file that does not throw keeps the prefix throw-free. */
  lemma NoneThrowExtend(args: seq<string>, i: nat, csvFiles: string -> Option<seq<string>>,
                        parse: string -> LineEffect)
    requires i < |args| && NoneThrow(args[..i], csvFiles, parse)
    requires !ReadingThrows(args[i], csvFiles, parse)
    ensures NoneThrow(args[..i + 1], csvFiles, parse)
  {
    assert args[..i + 1][..i] == args[..i];
  }

  // ---------------------------------------------------------------- the running program

  /**
   * Forests stored by name: each named by its key and holding no tree twice, and no
   * forest stored under two names.
   */
  ghost predicate Opened(forests: map<string, Forest>)
    reads forests.Values
  {
    (forall name :: name in forests ==> forests[name].forestName == name && forests[name].Valid()) &&
    (forall a, b :: a in forests && b in forests && a != b ==> forests[a] != forests[b])
  }

  /**
   * Putting the forest opened for args[i] under its name keeps the forests stored as
   * described, for the arguments up to and including i.
   */
  lemma PutKeeps(args: seq<string>, i: nat, forests: map<string, Forest>, forest: Forest,
                 csvFiles: string -> Option<seq<string>>, parse: string -> LineEffect)
    requires i < |args|
    requires forall name :: name in forests ==> name in args
    requires forall j :: 0 <= j < i ==> args[j] in forests
    requires Opened(forests) && forest !in forests.Values
    requires forall name :: name in forests ==>
      forests[name].Values() == StartupTrees(name, csvFiles, parse)
    requires forest.forestName == args[i] && forest.Valid()
    requires forest.Values() == StartupTrees(args[i], csvFiles, parse)
    ensures forall name :: name in forests[args[i] := forest] ==> name in args
    ensures forall j :: 0 <= j < i + 1 ==> args[j] in forests[args[i] := forest]
    ensures Opened(forests[args[i] := forest])
    ensures forall name :: name in forests[args[i] := forest] ==>
      forests[args[i] := forest][name].Values() == StartupTrees(name, csvFiles, parse)
  {
  }

  class Simulation {
    const args: seq<string>
    var forests: map<string, Forest>
    var current: Forest

    /**
     * One forest per distinct argument, each a separate object named by its key and
     * holding no tree twice; the current forest is the one stored under its own name.
     */
    ghost predicate Valid()
      reads this, forests.Values
    {
      args != [] &&
      (forall name :: name in forests <==> name in args) &&
      (forall name :: name in forests ==> forests[name].forestName == name && forests[name].Valid()) &&
      (forall a, b :: a in forests && b in forests && a != b ==> forests[a] != forests[b]) &&
      current.forestName in forests && forests[current.forestName] == current
    }

    constructor (args: seq<string>, forests: map<string, Forest>, current: Forest)
      ensures this.args == args && this.forests == forests && this.current == current
    {
      this.args := args;
      this.forests := forests;
      this.current := current;
    }

    /**
     * main's start-up: no arguments end the program; otherwise one forest per argument,
     * its CSV file read when it exists, later arguments replacing earlier ones of the same
     * name; a CSV line that throws ends the program; the first argument's forest is current.
     */
    static method Launch(args: seq<string>, csvFiles: string -> Option<seq<string>>,
                         parseDouble: string -> Option<real>)
      returns (outcome: LaunchOutcome, sim: Simulation?)
      ensures outcome == LaunchResult(args, csvFiles, LineParser(parseDouble))
      ensures outcome.Started? <==> sim != null
      ensures sim != null ==> fresh(sim) && sim.Valid() && sim.args == args
      ensures sim != null ==> sim.current == sim.forests[args[0]]
      ensures sim != null ==> forall name :: name in sim.forests ==>
        sim.forests[name].Values() == StartupTrees(name, csvFiles, LineParser(parseDouble))
    {
      outcome, sim := Start(args, csvFiles, LineParser(parseDouble));
    }

    /** Start-up with the per-line logic of readTreesFromCSV given as parse. */
    static method Start(args: seq<string>, csvFiles: string -> Option<seq<string>>,
                        parse: string -> LineEffect)
      returns (outcome: LaunchOutcome, sim: Simulation?)
      ensures outcome == LaunchResult(args, csvFiles, parse)
      ensures outcome.Started? <==> sim != null
      ensures sim != null ==> fresh(sim) && sim.Valid() && sim.args == args
      ensures sim != null ==> sim.current == sim.forests[args[0]]
      ensures sim != null ==> forall name :: name in sim.forests ==>
        sim.forests[name].Values() == StartupTrees(name, csvFiles, parse)
    {
      if args == [] {
        return NoForestNames, null;
      }
      var forests;
      forests, outcome := OpenAll(args, csvFiles, parse);
      if outcome.Started? {
        sim := new Simulation(args, forests, forests[args[0]]);
      } else {
        sim := null;
      }
    }

    /**
     * main's loop over the arguments: one forest per argument, put under its name, with
     * its CSV file read when the file exists; stops at the first file that throws.
     */
    static method OpenAll(args: seq<string>, csvFiles: string -> Option<seq<string>>,
                          parse: string -> LineEffect)
      returns (forests: map<string, Forest>, outcome: LaunchOutcome)
      requires args != []
      ensures outcome == LaunchResult(args, csvFiles, parse)
      ensures outcome.Started? ==> (forall name :: name in forests <==> name in args) && Opened(forests)
      ensures outcome.Started? ==> forall name :: name in forests ==>
        forests[name].Values() == StartupTrees(name, csvFiles, parse)
    {
      forests := map[];
      var i := 0;
      while i < |args|
        invariant 0 <= i <= |args|
        invariant forall name :: name in forests ==> name in args
        invariant forall j :: 0 <= j < i ==> args[j] in forests
        invariant Opened(forests)
        invariant forall name :: name in forests ==>
          forests[name].Values() == StartupTrees(name, csvFiles, parse)
        invariant NoneThrow(args[..i], csvFiles, parse)
      {
        var name := args[i];
        var forest, read := OpenForest(name, csvFiles, parse);
        if read.Some? && read.value.Threw? {
          CrashOutcome(args, csvFiles, parse, i);
          return forests, Crashed(name, read.value.line);
        }
        NoneThrowExtend(args, i, csvFiles, parse);
        PutKeeps(args, i, forests, forest, csvFiles, parse);
        forests := forests[name := forest];
        i := i + 1;
      }
      assert args[..i] == args;
      StartedOutcome(args, csvFiles, parse);
      outcome := Started;
    }

    /** new Forest(name) and, when its CSV file exists, readTreesFromCSV on it. */
    static method OpenForest(name: string, csvFiles: string -> Option<seq<string>>,
                             parse: string -> LineEffect)
      returns (forest: Forest, read: Option<ReadOutcome>)
      ensures fresh(forest) && forest.forestName == name && forest.Valid()
      ensures read.None? <==> csvFiles(name).None?
      ensures read.Some? && read.value.Threw? <==> ReadingThrows(name, csvFiles, parse)
      ensures read.Some? && read.value.Threw? ==>
        read.value.line == StartupRead(name, csvFiles, parse).value.failedLine.value
      ensures forest.Values() == StartupTrees(name, csvFiles, parse)
    {
      forest := new Forest(name);
      var file := csvFiles(name);
      read := None;
      if file.Some? {
        var outcome := forest.ReadLines(file.value, parse);
        read := Some(outcome);
      }
    }

    /** The Load command: switch to the named forest if there is one, else keep the current one. */
    method Load(name: string) returns (loaded: bool)
      requires Valid()
      modifies this
      ensures Valid() && forests == old(forests)
      ensures loaded <==> name in forests
      ensures current == if loaded then forests[name] else old(current)
    {
      loaded := name in forests;
      if loaded {
        current := forests[name];
      }
    }

    /**
     * The Next command: move to the first forest after the current one, in
     * getNextForestName order, whose CSV file exists.
     */
    method Next(csvExists: string -> bool) returns (result: NextResult<string>, ghost steps: nat)
      requires Valid()
      modifies this
      ensures Valid() && forests == old(forests)
      ensures !result.NoMoreForests?
      ensures result.MoveTo? ==> FirstWithCsv(NextOf(args), old(current).forestName, csvExists, steps)
      ensures result.MoveTo? ==> Orbit(NextOf(args), old(current).forestName, steps) == Some(result.name)
      ensures result.MoveTo? ==> current == forests[result.name]
      ensures result.NeverFinds? <==> NeverReachesCsv(NextOf(args), old(current).forestName, csvExists)
      ensures !result.MoveTo? ==> current == old(current)
    {
      result, steps := NextTarget(current.forestName, args, csvExists);
      if result.MoveTo? {
        current := forests[result.name];
      }
    }

    /**
     * The Cut prompt: the first answer that parses as an int decides; a tree number in
     * range cuts that tree, any other number leaves the forest as it was.
     */
    method CutCommand(inputs: seq<string>) returns (consumed: nat)
      requires Valid()
      modifies current
      ensures Valid()
      ensures FirstIndex(inputs, IsInt).None? ==> consumed == |inputs| && current.trees == old(current.trees)
      ensures FirstIndex(inputs, IsInt).Some? ==>
        var n := ParseInt(inputs[FirstIndex(inputs, IsInt).value]).value;
        consumed == FirstIndex(inputs, IsInt).value + 1 &&
        current.trees == if 0 <= n < |old(current.trees)|
          then old(current.trees)[..n] + old(current.trees)[n + 1..] else old(current.trees)
    {
      consumed := 0;
      while consumed < |inputs|
        invariant consumed <= |inputs|
        invariant forall j :: 0 <= j < consumed ==> !IsInt(inputs[j])
        invariant current.trees == old(current.trees)
      {
        var indexToCut := ParseInt(inputs[consumed]);
        consumed := consumed + 1;
        if indexToCut.Some? {
          FirstIndexAt(inputs, IsInt, consumed - 1);
          if 0 <= indexToCut.value < |current.trees| {
            current.CutTreeByIndex(indexToCut.value);
          }
          return;
        }
      }
    }

    /**
     * The Reap prompt: the first answer that parses as a height of at least 0 reaps the
     * current forest at that height.
     */
    method ReapCommand(inputs: seq<string>, parseDouble: string -> Option<real>, draws: seq<Draw>,
                       currentYear: int)
      returns (consumed: nat)
      requires Valid()
      requires |current.trees| <= |draws| && ReplacementDraws(draws)
      modifies current
      ensures Valid()
      ensures FirstIndex(inputs, IsHeight(parseDouble)).None? ==>
        consumed == |inputs| && current.trees == old(current.trees)
      ensures FirstIndex(inputs, IsHeight(parseDouble)).Some? ==>
        var h := parseDouble(inputs[FirstIndex(inputs, IsHeight(parseDouble)).value]).value;
        consumed == FirstIndex(inputs, IsHeight(parseDouble)).value + 1 &&
        |TallIndexes(old(current.Values()), h)| <= |draws| &&
        current.Values() == Reaped(old(current.Values()), h, draws, currentYear)
    {
      consumed := 0;
      while consumed < |inputs|
        invariant consumed <= |inputs|
        invariant forall j :: 0 <= j < consumed ==> !IsHeight(parseDouble)(inputs[j])
        invariant current.trees == old(current.trees)
      {
        var heightToReap := parseDouble(inputs[consumed]);
        consumed := consumed + 1;
        if heightToReap.Some? && heightToReap.value >= 0.0 {
          FirstIndexAt(inputs, IsHeight(parseDouble), consumed - 1);
          current.ReapForest(heightToReap.value, draws, currentYear);
          return;
        }
      }
    }
  }
}
