/** `archive_sep_pair(residues, prm_file)`: for every pair of residues, the
    script for `archive`, the cleanup of the archive it leaves, the input
    for `analyze`, and the components of its report stored into the global
    lists. The two external programs are parameters: `produced(i, j)` is the
    pair archive `archive` leaves for the pair (`None` when there is nothing
    to rename), and `runs(i, j)` is what `analyze` prints for it. */
module PairDriver {
  import opened PyText
  import opened ArcReader
  import opened Selection
  import opened ConnectCleanup
  import opened Energy

  /** `f"pair_{i}_{j}.arc"` */
  function PairFileName(i: nat, j: nat): string {
    "pair_" + IntToString(i) + "_" + IntToString(j) + ".arc"
  }

  /** `f"{a_res}\n{prm_file}\nE\n\r"` */
  function AnalyzeInput(i: nat, j: nat, prm: string): string {
    PairFileName(i, j) + "\n" + prm + "\nE\n\r"
  }

  /** Everything the loop body produces for the pair `(i, j)`. */
  datatype PairStep = PairStep(i: nat, j: nat, archiveInput: string,
                               archive: Option<seq<string>>, analyzeInput: string)

  predicate ValidPair(p: (nat, nat), n: nat) {
    1 <= p.0 < p.1 < n
  }

  function StepOf(residues: seq<seq<Atom>>, arc: string, header: string, repetitions: nat, prm: string,
                  produced: (nat, nat) -> Option<seq<string>>, p: (nat, nat)): PairStep
    requires ValidPair(p, |residues|) && residues[p.0] != [] && residues[p.1] != []
  {
    PairStep(p.0, p.1,
             ArchiveScript(arc, header, repetitions, BoundsOf(residues[p.0]), BoundsOf(residues[p.1])),
             CleanedArchive(produced(p.0, p.1)),
             AnalyzeInput(p.0, p.1, prm))
  }

  /** The pair archive on disk after the cleanup, if there is one. */
  function CleanedArchive(file: Option<seq<string>>): Option<seq<string>> {
    match file
    case None => None
    case Some(f) => Some(Written(f))
  }

  function StepsOf(residues: seq<seq<Atom>>, arc: string, header: string, repetitions: nat, prm: string,
                   produced: (nat, nat) -> Option<seq<string>>, ps: seq<(nat, nat)>): seq<PairStep>
    requires forall k :: 1 <= k < |residues| ==> residues[k] != []
    requires forall k :: 0 <= k < |ps| ==> ValidPair(ps[k], |residues|)
  {
    if ps == [] then []
    else StepsOf(residues, arc, header, repetitions, prm, produced, ps[..|ps| - 1])
         + [StepOf(residues, arc, header, repetitions, prm, produced, ps[|ps| - 1])]
  }

  /** The components each pair's `analyze` run gives, pair by pair. */
  function ReportsOf(runs: (nat, nat) -> AnalyzeRun, ps: seq<(nat, nat)>): (rs: seq<Option<map<Component, string>>>)
    ensures |rs| == |ps|
  {
    if ps == [] then [] else ReportsOf(runs, ps[..|ps| - 1]) + [Components(runs(ps[|ps| - 1].0, ps[|ps| - 1].1))]
  }

  /** Fewer than three residues give no pair at all. */
  lemma {:induction false} NoPairsBelowThree(n: nat)
    requires n <= 2
    ensures Pairs(n) == []
  {
    if n == 2 {
      assert Row(1, 2) == [];
    }
  }

  /** The archive and analyze files of different pairs have different names. */
  lemma {:induction false} PairFileNameInjective(i: nat, j: nat, i': nat, j': nat)
    requires PairFileName(i, j) == PairFileName(i', j')
    ensures i == i' && j == j'
  {
    var a, b, a', b' := NatToString(i), NatToString(j), NatToString(i'), NatToString(j');
    assert IntToString(i) == a && IntToString(j) == b && IntToString(i') == a' && IntToString(j') == b';
    var r, r' := "_" + b + ".arc", "_" + b' + ".arc";
    NameParts(a, b);
    NameParts(a', b');
    SameDigitsBeforeMark(a, r, a', r', "pair_");
    SameDigitsBeforeMark(b, ".arc", b', ".arc", "_");
    NatToStringValue(i);
    NatToStringValue(i');
    NatToStringValue(j);
    NatToStringValue(j');
  }

  lemma {:induction false} NameParts(a: string, b: string)
    ensures "pair_" + a + "_" + b + ".arc" == "pair_" + a + ("_" + b + ".arc")
  {
  }

  /** Length of the run of digits starting at `i`. */
  function DigitRun(s: string, i: nat): nat
    decreases |s| - i
  {
    if i < |s| && IsDigit(s[i]) then 1 + DigitRun(s, i + 1) else 0
  }

  lemma {:induction false} DigitRunIs(s: string, i: nat, n: nat)
    requires i + n < |s|
    requires forall k :: i <= k < i + n ==> IsDigit(s[k])
    requires !IsDigit(s[i + n])
    ensures DigitRun(s, i) == n
    decreases n
  {
    if n > 0 {
      DigitRunIs(s, i + 1, n - 1);
    }
  }

  /** Two strings that run `prefix`, digits, then a non-digit start with the
      same digits. */
  lemma {:induction false} SameDigitsBeforeMark(a: string, r: string, a': string, r': string, prefix: string)
    requires IsDigits(a) && IsDigits(a')
    requires r != [] && !IsDigit(r[0]) && r' != [] && !IsDigit(r'[0])
    requires prefix + a + r == prefix + a' + r'
    ensures a == a' && r == r'
  {
    var s := prefix + a + r;
    var s' := prefix + a' + r';
    assert s[|prefix| + |a|] == r[0];
    assert s'[|prefix| + |a'|] == r'[0];
    DigitRunIs(s, |prefix|, |a|);
    DigitRunIs(s', |prefix|, |a'|);
    assert a == s[|prefix|..|prefix| + |a|];
    assert a' == s'[|prefix|..|prefix| + |a'|];
    assert r == s[|prefix| + |a|..];
    assert r' == s'[|prefix| + |a'|..];
  }

  /** Every pair of `ps` names two residues after the reference slot. */
  predicate AllValid(ps: seq<(nat, nat)>, n: nat) {
    forall k :: 0 <= k < |ps| ==> ValidPair(ps[k], n)
  }

  /** The pairs the loops have visited before `(i, j)`. */
  function Visited(i: nat, j: nat, n: nat): seq<(nat, nat)>
    requires 1 <= i < n && i < j <= n
  {
    RowAt(i, n);
    PairsBefore(i, n) + Row(i, n)[..j - i - 1]
  }

  lemma {:induction false} ReportsAppend(runs: (nat, nat) -> AnalyzeRun, ps: seq<(nat, nat)>, p: (nat, nat))
    ensures ReportsOf(runs, ps + [p]) == ReportsOf(runs, ps) + [Components(runs(p.0, p.1))]
  {
    assert (ps + [p])[..|ps|] == ps;
  }

  lemma {:induction false} AccumulateAllAppend(log: map<Component, seq<string>>, rs: seq<Option<map<Component, string>>>,
                            r: Option<map<Component, string>>)
    ensures AccumulateAll(log, rs + [r])
         == match r case None => AccumulateAll(log, rs) case Some(m) => Accumulate(AccumulateAll(log, rs), m)
  {
    assert (rs + [r])[..|rs|] == rs;
  }

  lemma {:induction false} VisitedStart(i: nat, n: nat)
    requires 1 <= i < n
    ensures Visited(i, i + 1, n) == PairsBefore(i, n)
  {
  }

  lemma {:induction false} VisitedEnd(i: nat, n: nat)
    requires 1 <= i < n
    ensures Visited(i, n, n) == PairsBefore(i + 1, n)
  {
    RowAt(i, n);
    assert Row(i, n)[..n - i - 1] == Row(i, n);
  }

  lemma {:induction false} VisitedValid(i: nat, j: nat, n: nat)
    requires 1 <= i < n && i < j <= n
    ensures AllValid(Visited(i, j, n), n)
  {
    PairsBeforeMembers(i, n);
    RowAt(i, n);
    var ps := Visited(i, j, n);
    forall k | 0 <= k < |ps| ensures ValidPair(ps[k], n) {
      if k < |PairsBefore(i, n)| {
        assert ps[k] in PairsBefore(i, n);
      } else {
        assert ps[k] == Row(i, n)[k - |PairsBefore(i, n)|];
      }
    }
  }

  /** Visiting `(i, j)` extends the visited pairs, the steps and the reports
      by that pair. */
  lemma {:induction false} VisitNext(residues: seq<seq<Atom>>, arc: string, header: string, repetitions: nat, prm: string,
                  produced: (nat, nat) -> Option<seq<string>>, runs: (nat, nat) -> AnalyzeRun,
                  i: nat, j: nat)
    requires forall k :: 1 <= k < |residues| ==> residues[k] != []
    requires 1 <= i < j < |residues|
    ensures AllValid(Visited(i, j, |residues|), |residues|)
    ensures AllValid(Visited(i, j + 1, |residues|), |residues|)
    ensures StepsOf(residues, arc, header, repetitions, prm, produced, Visited(i, j + 1, |residues|))
         == StepsOf(residues, arc, header, repetitions, prm, produced, Visited(i, j, |residues|))
            + [StepOf(residues, arc, header, repetitions, prm, produced, (i, j))]
    ensures ReportsOf(runs, Visited(i, j + 1, |residues|))
         == ReportsOf(runs, Visited(i, j, |residues|)) + [Components(runs(i, j))]
  {
    var n := |residues|;
    RowAt(i, n);
    assert Row(i, n)[..j - i] == Row(i, n)[..j - i - 1] + [(i, j)];
    var ps := Visited(i, j, n);
    assert Visited(i, j + 1, n) == ps + [(i, j)];
    VisitedValid(i, j, n);
    VisitedValid(i, j + 1, n);
    assert (ps + [(i, j)])[..|ps|] == ps;
    ReportsAppend(runs, ps, (i, j));
  }

  /** Step `k` belongs to pair `k`. */
  lemma {:induction false} StepsAt(residues: seq<seq<Atom>>, arc: string, header: string, repetitions: nat, prm: string,
                                   produced: (nat, nat) -> Option<seq<string>>, ps: seq<(nat, nat)>)
    requires forall k :: 1 <= k < |residues| ==> residues[k] != []
    requires AllValid(ps, |residues|)
    ensures |StepsOf(residues, arc, header, repetitions, prm, produced, ps)| == |ps|
    ensures forall k :: 0 <= k < |ps| ==>
      StepsOf(residues, arc, header, repetitions, prm, produced, ps)[k]
      == StepOf(residues, arc, header, repetitions, prm, produced, ps[k])
  {
    if ps != [] {
      var init := ps[..|ps| - 1];
      AllValidFront(ps, |residues|);
      StepsAt(residues, arc, header, repetitions, prm, produced, init);
      var before := StepsOf(residues, arc, header, repetitions, prm, produced, init);
      var all := StepsOf(residues, arc, header, repetitions, prm, produced, ps);
      assert all == before + [StepOf(residues, arc, header, repetitions, prm, produced, ps[|ps| - 1])];
      forall k | 0 <= k < |ps|
        ensures all[k] == StepOf(residues, arc, header, repetitions, prm, produced, ps[k])
      {
        if k < |init| {
          assert init[k] == ps[k];
          assert all[k] == before[k];
          assert before[k] == StepOf(residues, arc, header, repetitions, prm, produced, init[k]);
        } else {
          assert k == |ps| - 1;
          assert all[k] == StepOf(residues, arc, header, repetitions, prm, produced, ps[|ps| - 1]);
        }
      }
    }
  }

  lemma {:induction false} AllValidFront(ps: seq<(nat, nat)>, n: nat)
    requires ps != [] && AllValid(ps, n)
    ensures AllValid(ps[..|ps| - 1], n)
  {
    var init := ps[..|ps| - 1];
    forall k | 0 <= k < |init| ensures ValidPair(init[k], n) {
      assert init[k] == ps[k];
    }
  }

  /** Different pairs are analysed from different files: no two steps of a
      run name the same pair archive. */
  lemma {:induction false} PairNamesDistinct(n: nat)
    ensures forall a, b :: 0 <= a < b < |Pairs(n)| ==>
      PairFileName(Pairs(n)[a].0, Pairs(n)[a].1) != PairFileName(Pairs(n)[b].0, Pairs(n)[b].1)
  {
    PairsAreLexicographic(n);
    forall a, b | 0 <= a < b < |Pairs(n)|
      ensures PairFileName(Pairs(n)[a].0, Pairs(n)[a].1) != PairFileName(Pairs(n)[b].0, Pairs(n)[b].1)
    {
      var p, q := Pairs(n)[a], Pairs(n)[b];
      assert LexLess(p, q);
      if PairFileName(p.0, p.1) == PairFileName(q.0, q.1) {
        PairFileNameInjective(p.0, p.1, q.0, q.1);
      }
    }
  }

  /** One iteration of the inner loop: the archive script, the cleanup of the
      pair archive, the analyze input, and the report stored into the lists. */
  method ProcessPair(residues: seq<seq<Atom>>, arc: string, header: string, repetitions: nat, prm: string,
                     produced: (nat, nat) -> Option<seq<string>>, runs: (nat, nat) -> AnalyzeRun,
                     log: EnergyLog, i: nat, j: nat)
    returns (step: PairStep)
    requires ValidPair((i, j), |residues|) && residues[i] != [] && residues[j] != []
    modifies log
    ensures step == StepOf(residues, arc, header, repetitions, prm, produced, (i, j))
    ensures log.components == match Components(runs(i, j))
                              case None => old(log.components)
                              case Some(m) => Accumulate(old(log.components), m)
  {
    var res1 := residues[i];
    var res2 := residues[j];
    var input := ArchiveScript(arc, header, repetitions, BoundsOf(res1), BoundsOf(res2));
    var archive: Option<seq<string>> := None;
    match produced(i, j) {
      case None =>
      case Some(f) =>
        var w := CleanupConnect(f);
        archive := Some(w);
    }
    var report: Option<map<Component, string>> := None;
    match runs(i, j) {
      case NotFound =>
      case Ran(out, err) =>
        if err == "" {
          report := ParseEnergyReport(out);
        }
    }
    if report.Some? {
      log.Record(report.value);
    }
    step := PairStep(i, j, input, archive, AnalyzeInput(i, j, prm));
  }

  /** The inner loop `for j in range(i + 1, len(residues))`. */
  method ProcessRow(residues: seq<seq<Atom>>, arc: string, header: string, repetitions: nat, prm: string,
                    produced: (nat, nat) -> Option<seq<string>>, runs: (nat, nat) -> AnalyzeRun,
                    log: EnergyLog, i: nat, before: seq<PairStep>, ghost start: map<Component, seq<string>>)
    returns (steps: seq<PairStep>)
    requires forall k :: 1 <= k < |residues| ==> residues[k] != []
    requires 1 <= i < |residues|
    requires AllValid(Visited(i, i + 1, |residues|), |residues|)
    requires before == StepsOf(residues, arc, header, repetitions, prm, produced, Visited(i, i + 1, |residues|))
    requires log.components == AccumulateAll(start, ReportsOf(runs, Visited(i, i + 1, |residues|)))
    modifies log
    ensures AllValid(Visited(i, |residues|, |residues|), |residues|)
    ensures steps == StepsOf(residues, arc, header, repetitions, prm, produced, Visited(i, |residues|, |residues|))
    ensures log.components == AccumulateAll(start, ReportsOf(runs, Visited(i, |residues|, |residues|)))
  {
    var n := |residues|;
    steps := before;
    for j := i + 1 to n
      invariant AllValid(Visited(i, j, n), n)
      invariant steps == StepsOf(residues, arc, header, repetitions, prm, produced, Visited(i, j, n))
      invariant log.components == AccumulateAll(start, ReportsOf(runs, Visited(i, j, n)))
    {
      var step := ProcessPair(residues, arc, header, repetitions, prm, produced, runs, log, i, j);
      VisitNext(residues, arc, header, repetitions, prm, produced, runs, i, j);
      AccumulateAllAppend(start, ReportsOf(runs, Visited(i, j, n)), Components(runs(i, j)));
      steps := steps + [step];
    }
  }

  /** The nested loops of `archive_sep_pair`. Pairs are visited in the order
      of `Pairs`; each produces its step, and what `analyze` reports for it
      is appended to the global lists. An empty residue list does nothing. */
  method ArchiveSepPair(residues: seq<seq<Atom>>, arc: string, header: string, repetitions: nat, prm: string,
                        produced: (nat, nat) -> Option<seq<string>>, runs: (nat, nat) -> AnalyzeRun,
                        log: EnergyLog)
    returns (steps: seq<PairStep>)
    requires forall k :: 1 <= k < |residues| ==> residues[k] != []
    modifies log
    ensures AllValid(Pairs(|residues|), |residues|)
    ensures steps == StepsOf(residues, arc, header, repetitions, prm, produced, Pairs(|residues|))
    ensures log.components == AccumulateAll(old(log.components), ReportsOf(runs, Pairs(|residues|)))
  {
    steps := [];
    if residues == [] {
      return;
    }
    var n := |residues|;
    ghost var start := log.components;
    for i := 1 to n
      invariant AllValid(PairsBefore(i, n), n)
      invariant steps == StepsOf(residues, arc, header, repetitions, prm, produced, PairsBefore(i, n))
      invariant log.components == AccumulateAll(start, ReportsOf(runs, PairsBefore(i, n)))
    {
      VisitedStart(i, n);
      steps := ProcessRow(residues, arc, header, repetitions, prm, produced, runs, log, i, steps, start);
      VisitedEnd(i, n);
    }
  }
}
