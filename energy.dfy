/** Reading the energy components out of an `analyze` report, and the
    per-component lists (`Main.all_energy_components`) that collect one value
    per analysed pair and are never cleared. Energies stay the text tokens
    the report holds; `float()` is not modelled. */
module Energy {
  import opened PyText

  datatype Component = Intermolecular | VanDerWaals | AtomicMultipoles | Polarization

  /** Position of the component's branch in the if/elif chain. */
  function Rank(c: Component): nat {
    match c
    case Intermolecular => 0
    case VanDerWaals => 1
    case AtomicMultipoles => 2
    case Polarization => 3
  }

  /** The text each branch looks for in a report line. */
  function Label(c: Component): string {
    match c
    case Intermolecular => "Intermolecular Energy :"
    case VanDerWaals => "Van der Waals"
    case AtomicMultipoles => "Atomic Multipoles"
    case Polarization => "Polarization "
  }

  /** Which field of the matching line holds the value (`line.split()[k]`). */
  function TokenIndex(c: Component): nat {
    match c
    case Intermolecular => 3
    case VanDerWaals => 3
    case AtomicMultipoles => 2
    case Polarization => 1
  }

  /** The component of the first branch whose label occurs in the line. */
  function Dispatch(line: string): Option<Component> {
    if Contains(line, Label(Intermolecular)) then Some(Intermolecular)
    else if Contains(line, Label(VanDerWaals)) then Some(VanDerWaals)
    else if Contains(line, Label(AtomicMultipoles)) then Some(AtomicMultipoles)
    else if Contains(line, Label(Polarization)) then Some(Polarization)
    else None
  }

  /** A line sets the component of the first label it contains, and none
      when it contains no label. */
  lemma {:induction false} DispatchIsFirstMatch(line: string)
    ensures Dispatch(line).Some? ==> Contains(line, Label(Dispatch(line).value))
    ensures Dispatch(line).Some? ==>
      forall c :: Rank(c) < Rank(Dispatch(line).value) ==> !Contains(line, Label(c))
    ensures Dispatch(line).None? <==> forall c :: !Contains(line, Label(c))
  {
  }

  /** What one report line does to the components found so far. */
  datatype LineEffect = NoLabel | Sets(component: Component, token: string) | TooShort

  function EffectOf(line: string): LineEffect {
    match Dispatch(line)
    case None => NoLabel
    case Some(c) =>
      var fields := Split(line);
      if TokenIndex(c) < |fields| then Sets(c, fields[TokenIndex(c)]) else TooShort
  }

  /** The `energy_components` dict after the given lines; `None` when a
      matching line is too short (the `IndexError` is caught by the
      surrounding `except` and nothing of the report is kept). */
  function Report(lines: seq<string>): Option<map<Component, string>> {
    if lines == [] then Some(map[])
    else match Report(lines[..|lines| - 1])
      case None => None
      case Some(m) =>
        match EffectOf(lines[|lines| - 1])
        case NoLabel => Some(m)
        case TooShort => None
        case Sets(c, t) => Some(m[c := t])
  }

  /** Index of the last line that dispatches to `c`, or -1. */
  function LastFor(lines: seq<string>, c: Component): (k: int)
    ensures -1 <= k < |lines|
    ensures k >= 0 ==> Dispatch(lines[k]) == Some(c)
    ensures forall q :: k < q < |lines| ==> Dispatch(lines[q]) != Some(c)
  {
    if lines == [] then -1
    else if Dispatch(lines[|lines| - 1]) == Some(c) then |lines| - 1
    else LastFor(lines[..|lines| - 1], c)
  }

  /** The report fails exactly when some labelled line is too short for its
      field. */
  lemma {:induction false} ReportFails(lines: seq<string>)
    ensures Report(lines).None? <==> exists k :: 0 <= k < |lines| && EffectOf(lines[k]).TooShort?
  {
    if lines != [] {
      var init := lines[..|lines| - 1];
      ReportFails(init);
      if exists k :: 0 <= k < |init| && EffectOf(init[k]).TooShort? {
        var k :| 0 <= k < |init| && EffectOf(init[k]).TooShort?;
        assert lines[k] == init[k];
      }
      if exists k :: 0 <= k < |lines| && EffectOf(lines[k]).TooShort? {
        var k :| 0 <= k < |lines| && EffectOf(lines[k]).TooShort?;
        if k < |init| {
          assert init[k] == lines[k];
        }
      }
    }
  }

  /** A component is reported exactly when some line carries its label, and
      its value is the field of the last such line: later lines overwrite
      earlier ones. */
  lemma {:induction false} ReportValues(lines: seq<string>, c: Component)
    requires Report(lines).Some?
    ensures c in Report(lines).value <==> LastFor(lines, c) >= 0
    ensures c in Report(lines).value ==>
      EffectOf(lines[LastFor(lines, c)]) == Sets(c, Report(lines).value[c])
  {
    if lines != [] {
      var init := lines[..|lines| - 1];
      ReportValues(init, c);
      var k := LastFor(init, c);
      if k >= 0 && Dispatch(lines[|lines| - 1]) != Some(c) {
        assert lines[k] == init[k];
      }
    }
  }

  /** The loop over `stdout.splitlines()`. */
  method ParseEnergyReport(lines: seq<string>) returns (r: Option<map<Component, string>>)
    ensures r == Report(lines)
  {
    var found: map<Component, string> := map[];
    for i := 0 to |lines|
      invariant Report(lines[..i]) == Some(found)
    {
      var line := lines[i];
      var c: Option<Component> := None;
      if Contains(line, "Intermolecular Energy :") {
        c := Some(Intermolecular);
      } else if Contains(line, "Van der Waals") {
        c := Some(VanDerWaals);
      } else if Contains(line, "Atomic Multipoles") {
        c := Some(AtomicMultipoles);
      } else if Contains(line, "Polarization ") {
        c := Some(Polarization);
      }
      assert c == Dispatch(line);
      assert lines[..i + 1][..i] == lines[..i];
      match c {
        case None =>
        case Some(component) =>
          var fields := Split(line);
          if |fields| <= TokenIndex(component) {
            ReportStopsAt(lines, i);
            return None;
          }
          found := found[component := fields[TokenIndex(component)]];
      }
    }
    assert lines[..|lines|] == lines;
    r := Some(found);
  }

  lemma {:induction false} ReportStopsAt(lines: seq<string>, i: nat)
    requires i < |lines| && EffectOf(lines[i]).TooShort?
    ensures Report(lines).None?
  {
    ReportFails(lines);
  }

  // ------------------------------------------------------------ the analyze run

  /** What running `analyze` gave: nothing (the executable is missing), or
      its stdout lines and its stderr text. */
  datatype AnalyzeRun = NotFound | Ran(stdout: seq<string>, stderr: string)

  /** The components read from one run: none when the run failed, wrote to
      stderr, or its report was cut short. */
  function Components(run: AnalyzeRun): Option<map<Component, string>> {
    match run
    case NotFound => None
    case Ran(out, err) => if err != "" then None else Report(out)
  }

  // ------------------------------------------------------------ the global lists

  function ListOf(log: map<Component, seq<string>>, c: Component): seq<string> {
    if c in log then log[c] else []
  }

  /** The log after storing one report: each reported component gets its
      value appended to its list, created empty first if needed. */
  function Accumulate(log: map<Component, seq<string>>, report: map<Component, string>): map<Component, seq<string>> {
    map c | c in log.Keys + report.Keys :: ListOf(log, c) + (if c in report then [report[c]] else [])
  }

  /** The log after storing the reports of several runs in order; failed
      runs store nothing. */
  function AccumulateAll(log: map<Component, seq<string>>, reports: seq<Option<map<Component, string>>>): map<Component, seq<string>> {
    if reports == [] then log
    else
      var before := AccumulateAll(log, reports[..|reports| - 1]);
      match reports[|reports| - 1]
      case None => before
      case Some(report) => Accumulate(before, report)
  }

  /** The values reported for `c`, run by run. */
  function History(reports: seq<Option<map<Component, string>>>, c: Component): seq<string> {
    if reports == [] then []
    else
      History(reports[..|reports| - 1], c)
      + match reports[|reports| - 1]
        case Some(report) => if c in report then [report[c]] else []
        case None => []
  }

  /** Storing a report appends at most one value per component and removes
      nothing. */
  lemma {:induction false} AccumulateAppends(log: map<Component, seq<string>>, report: map<Component, string>, c: Component)
    ensures c in Accumulate(log, report) <==> c in log || c in report
    ensures c in report ==> ListOf(Accumulate(log, report), c) == ListOf(log, c) + [report[c]]
    ensures c !in report ==> ListOf(Accumulate(log, report), c) == ListOf(log, c)
  {
  }

  /** Starting from the lists already there, every component's list is the
      old list followed by the values of the later runs, in run order: the
      lists are never reset between pairs. */
  lemma {:induction false} AccumulateAllIsHistory(log: map<Component, seq<string>>,
                                                  reports: seq<Option<map<Component, string>>>, c: Component)
    ensures ListOf(AccumulateAll(log, reports), c) == ListOf(log, c) + History(reports, c)
  {
    if reports == [] {
      assert ListOf(log, c) + [] == ListOf(log, c);
    } else {
      var init := reports[..|reports| - 1];
      AccumulateAllIsHistory(log, init, c);
      match reports[|reports| - 1] {
        case None =>
          assert History(reports, c) == History(init, c) + [];
        case Some(report) =>
          AccumulateAppends(AccumulateAll(log, init), report, c);
      }
    }
  }

  /** The log after storing the report's values for the components `cs`,
      visited in that order. */
  function AddEach(log: map<Component, seq<string>>, report: map<Component, string>, cs: seq<Component>): map<Component, seq<string>> {
    if cs == [] then log
    else
      var before := AddEach(log, report, cs[..|cs| - 1]);
      var c := cs[|cs| - 1];
      if c in report then before[c := ListOf(before, c) + [report[c]]] else before
  }

  /** Visiting distinct components appends each visited component's value
      once, and to no other list. */
  lemma {:induction false} AddEachAt(log: map<Component, seq<string>>, report: map<Component, string>, cs: seq<Component>, c: Component)
    requires forall i, j :: 0 <= i < j < |cs| ==> cs[i] != cs[j]
    ensures c in AddEach(log, report, cs) <==> c in log || (c in report && c in cs)
    ensures ListOf(AddEach(log, report, cs), c) == ListOf(log, c) + (if c in report && c in cs then [report[c]] else [])
  {
    if cs != [] {
      var init := cs[..|cs| - 1];
      AddEachAt(log, report, init, c);
      assert c in cs <==> c in init || c == cs[|cs| - 1];
      if c == cs[|cs| - 1] {
        assert c !in init by {
          forall i | 0 <= i < |init| ensures init[i] != c {
            assert init[i] == cs[i];
          }
        }
      }
    }
  }

  /** Visiting every component once is storing the whole report. */
  lemma {:induction false} AddEachIsAccumulate(log: map<Component, seq<string>>, report: map<Component, string>)
    ensures AddEach(log, report, [Intermolecular, VanDerWaals, AtomicMultipoles, Polarization]) == Accumulate(log, report)
  {
    var cs := [Intermolecular, VanDerWaals, AtomicMultipoles, Polarization];
    var a := AddEach(log, report, cs);
    var b := Accumulate(log, report);
    forall c ensures (c in a <==> c in b) && (c in a ==> a[c] == b[c]) {
      AddEachAt(log, report, cs, c);
      AccumulateAppends(log, report, c);
      assert c in cs by {
        match c
        case Intermolecular => assert cs[0] == c;
        case VanDerWaals => assert cs[1] == c;
        case AtomicMultipoles => assert cs[2] == c;
        case Polarization => assert cs[3] == c;
      }
    }
    MapsAgree(a, b);
  }

  /** `Main.all_energy_components`. */
  class EnergyLog {
    var components: map<Component, seq<string>>

    constructor()
      ensures components == map[]
    {
      components := map[];
    }

    /** The loop `for component, value in energy_components.items()`. The
        result does not depend on the order the items are visited in, so
        they are visited in branch order. */
    method Record(report: map<Component, string>)
      modifies this
      ensures components == Accumulate(old(components), report)
    {
      var order := [Intermolecular, VanDerWaals, AtomicMultipoles, Polarization];
      ghost var start := components;
      for i := 0 to |order|
        invariant components == AddEach(start, report, order[..i])
      {
        assert order[..i + 1][..i] == order[..i];
        var c := order[i];
        if c in report {
          var previous := if c in components then components[c] else [];
          components := components[c := previous + [report[c]]];
        }
      }
      assert order[..|order|] == order;
      AddEachIsAccumulate(start, report);
    }
  }

  lemma {:induction false} MapsAgree(a: map<Component, seq<string>>, b: map<Component, seq<string>>)
    requires forall c :: c in a <==> c in b
    requires forall c :: c in a ==> a[c] == b[c]
    ensures a == b
  {
  }
}
