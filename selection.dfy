/** The residue pairs `archive_sep_pair` walks through, the four-way choice of
    the atom ranges to cut out for each pair, the exact stdin script sent to
    TINKER's `archive` for it, and the single-reference variant of
    read_sep_arc.py with its index prompt (shared with read_tinker_xyz.py). */
module Selection {
  import opened PyText
  import opened ArcReader
  import opened Segmenter

  // ------------------------------------------------------------ pairs

  /** The pairs `(i, j)` of the inner loop for a fixed `i`. */
  function Row(i: nat, n: nat): seq<(nat, nat)> {
    if i + 1 >= n then [] else seq(n - i - 1, k requires 0 <= k < n - i - 1 => (i, i + 1 + k))
  }

  /** The pairs visited by the outer iterations `1 <= i' < i`. */
  function PairsBefore(i: nat, n: nat): seq<(nat, nat)> {
    if i <= 1 then [] else PairsBefore(i - 1, n) + Row(i - 1, n)
  }

  /** `for i in range(1, n): for j in range(i + 1, n)` */
  function Pairs(n: nat): seq<(nat, nat)> {
    PairsBefore(n, n)
  }

  predicate LexLess(p: (nat, nat), q: (nat, nat)) {
    p.0 < q.0 || (p.0 == q.0 && p.1 < q.1)
  }

  lemma {:induction false} RowAt(i: nat, n: nat)
    ensures |Row(i, n)| == if i + 1 >= n then 0 else n - i - 1
    ensures forall k :: 0 <= k < |Row(i, n)| ==> Row(i, n)[k] == (i, i + 1 + k)
    ensures forall p :: p in Row(i, n) <==> p.0 == i && i < p.1 < n
  {
    var row := Row(i, n);
    forall p: (nat, nat) | p.0 == i && i < p.1 < n ensures p in row {
      assert row[p.1 - i - 1] == p;
    }
  }

  lemma {:induction false} PairsBeforeMembers(i: nat, n: nat)
    ensures forall p :: p in PairsBefore(i, n) <==> 1 <= p.0 < i && p.0 < p.1 < n
  {
    if i > 1 {
      PairsBeforeMembers(i - 1, n);
      RowAt(i - 1, n);
    }
  }

  lemma {:induction false} PairsBeforeOrdered(i: nat, n: nat)
    ensures forall a, b :: 0 <= a < b < |PairsBefore(i, n)| ==> LexLess(PairsBefore(i, n)[a], PairsBefore(i, n)[b])
  {
    if i > 1 {
      PairsBeforeOrdered(i - 1, n);
      PairsBeforeMembers(i - 1, n);
      RowAt(i - 1, n);
      var pre := PairsBefore(i - 1, n);
      var row := Row(i - 1, n);
      var all := pre + row;
      forall a, b | 0 <= a < b < |all| ensures LexLess(all[a], all[b]) {
        if b < |pre| {
          assert all[a] == pre[a] && all[b] == pre[b];
        } else if a < |pre| {
          assert all[a] == pre[a] && pre[a] in pre;
          assert all[b] == row[b - |pre|];
        } else {
          assert all[a] == row[a - |pre|];
          assert all[b] == row[b - |pre|];
        }
      }
    }
  }

  /** Every pair `1 <= i < j < n` is visited, nothing else is, and the visits
      are in strictly increasing lexicographic order (so each exactly once);
      residue 0 is never paired. */
  lemma {:induction false} PairsAreLexicographic(n: nat)
    ensures forall p :: p in Pairs(n) <==> 1 <= p.0 < p.1 < n
    ensures forall a, b :: 0 <= a < b < |Pairs(n)| ==> LexLess(Pairs(n)[a], Pairs(n)[b])
  {
    PairsBeforeMembers(n, n);
    PairsBeforeOrdered(n, n);
  }

  // ------------------------------------------------------------ branches

  /** `res[0]['atom_num']` and `res[-1]['atom_num']`. */
  datatype Bounds = Bounds(first: int, last: int)

  function BoundsOf(residue: seq<Atom>): Bounds
    requires residue != []
  {
    Bounds(residue[0].serial, residue[|residue| - 1].serial)
  }

  datatype Branch = SentinelPair | Adjacent | Forward | Reversed

  /** The if/elif chain that orders the pair. */
  function ChooseBranch(r1: Bounds, r2: Bounds): Branch {
    if r1.first == 1 && r2.first == 17 then SentinelPair
    else if r1.last + 1 == r2.first then Adjacent
    else if r1.first < r2.first then Forward
    else Reversed
  }

  /** The chain tests its conditions in order: each branch is taken exactly
      when its own test holds and no earlier one does. */
  lemma {:induction false} ChooseBranchIsFirstTest(r1: Bounds, r2: Bounds)
    ensures ChooseBranch(r1, r2) == SentinelPair <==> r1.first == 1 && r2.first == 17
    ensures ChooseBranch(r1, r2) == Adjacent <==> !(r1.first == 1 && r2.first == 17) && r1.last + 1 == r2.first
    ensures ChooseBranch(r1, r2) == Forward <==>
      !(r1.first == 1 && r2.first == 17) && r1.last + 1 != r2.first && r1.first < r2.first
    ensures ChooseBranch(r1, r2) == Reversed <==>
      !(r1.first == 1 && r2.first == 17) && r1.last + 1 != r2.first && r1.first >= r2.first
  {
  }

  /** The range line of the script as a value: the serial bounds, each
      written with a leading minus, then the negated header, then the flag
      that says whether the reference frame is kept. */
  datatype RangeSpec = RangeSpec(indent: bool, bounds: seq<int>, flag: nat)

  function SelectionFor(r1: Bounds, r2: Bounds): RangeSpec {
    match ChooseBranch(r1, r2)
    case SentinelPair => RangeSpec(true, [r2.last + 1], 0)
    case Adjacent => RangeSpec(false, [1, r1.first - 1, r2.last + 1], 0)
    case Forward => RangeSpec(false, [1, r1.first - 1, r1.last + 1, r2.first - 1, r2.last + 1], 1)
    case Reversed => RangeSpec(false, [1, r2.first - 1, r2.last + 1, r1.first - 1, r1.last + 1], 1)
  }

  /** `f"-{x}"` for each bound. */
  function MinusTokens(xs: seq<int>): seq<string> {
    seq(|xs|, k requires 0 <= k < |xs| => "-" + IntToString(xs[k]))
  }

  function RangeTokens(spec: RangeSpec, header: string): seq<string> {
    MinusTokens(spec.bounds) + ["-" + header, IntToString(spec.flag)]
  }

  function RangeLine(spec: RangeSpec, header: string): string {
    (if spec.indent then " " else "") + Join(RangeTokens(spec, header))
  }

  /** `f"1 {repetitions} 1"`: first frame, last frame, stride. */
  function FrameLine(repetitions: nat): string {
    "1 " + IntToString(repetitions) + " 1"
  }

  /** The stdin script for `archive` for the pair `(r1, r2)`. */
  function ArchiveScript(arc: string, header: string, repetitions: nat, r1: Bounds, r2: Bounds): string {
    arc + "\n3\n" + RangeLine(SelectionFor(r1, r2), header) + "\n" + FrameLine(repetitions) + "\n\r"
  }

  // The four scripts, written out as in the source.

  lemma {:induction false} SentinelScript(arc: string, header: string, repetitions: nat, r1: Bounds, r2: Bounds)
    requires r1.first == 1 && r2.first == 17
    ensures ArchiveScript(arc, header, repetitions, r1, r2)
         == arc + "\n3\n -" + IntToString(r2.last + 1) + " -" + header + " 0\n1 "
            + IntToString(repetitions) + " 1\n\r"
  {
    var u := IntToString(r2.last + 1);
    var m := MinusTokens([r2.last + 1]);
    assert m[0] == "-" + u;
    assert IntToString(0) == "0";
    var toks := RangeTokens(SelectionFor(r1, r2), header);
    assert toks == ["-" + u, "-" + header, "0"];
    JoinThree("-" + u, "-" + header, "0");
    SentinelText(arc, u, header, IntToString(repetitions), Join(toks));
  }

  lemma {:induction false} SentinelText(arc: string, u: string, h: string, r: string, j: string)
    requires j == "-" + u + " " + ("-" + h) + " " + "0"
    ensures arc + "\n3\n" + (" " + j) + "\n" + ("1 " + r + " 1") + "\n\r"
         == arc + "\n3\n -" + u + " -" + h + " 0\n1 " + r + " 1\n\r"
  {
    assert "\n3\n -" == "\n3\n" + " " + "-";
    assert " -" == " " + "-";
    assert " 0\n1 " == " " + "0" + "\n" + "1 ";
    assert " 1\n\r" == " 1" + "\n\r";
  }

  lemma {:induction false} AdjacentScript(arc: string, header: string, repetitions: nat, r1: Bounds, r2: Bounds)
    requires !(r1.first == 1 && r2.first == 17) && r1.last + 1 == r2.first
    ensures ArchiveScript(arc, header, repetitions, r1, r2)
         == arc + "\n3\n-1 -" + IntToString(r1.first - 1) + " -" + IntToString(r2.last + 1)
            + " -" + header + " 0\n1 " + IntToString(repetitions) + " 1\n\r"
  {
    var u := IntToString(r1.first - 1);
    var v := IntToString(r2.last + 1);
    var m := MinusTokens([1, r1.first - 1, r2.last + 1]);
    assert IntToString(1) == "1" && IntToString(0) == "0";
    assert m[0] == "-1" && m[1] == "-" + u && m[2] == "-" + v;
    var toks := RangeTokens(SelectionFor(r1, r2), header);
    assert toks == ["-1", "-" + u, "-" + v, "-" + header, "0"];
    JoinFive("-1", "-" + u, "-" + v, "-" + header, "0");
    AdjacentText(arc, u, v, header, IntToString(repetitions), Join(toks));
  }

  lemma {:induction false} AdjacentText(arc: string, u: string, v: string, h: string, r: string, j: string)
    requires j == "-1" + " " + ("-" + u) + " " + ("-" + v) + " " + ("-" + h) + " " + "0"
    ensures arc + "\n3\n" + ("" + j) + "\n" + ("1 " + r + " 1") + "\n\r"
         == arc + "\n3\n-1 -" + u + " -" + v + " -" + h + " 0\n1 " + r + " 1\n\r"
  {
    assert "" + j == j;
    AdjacentLine(u, v, h, j);
    AdjacentOuter(arc, u, v, h, r, j);
  }

  lemma {:induction false} AdjacentLine(u: string, v: string, h: string, j: string)
    requires j == "-1" + " " + ("-" + u) + " " + ("-" + v) + " " + ("-" + h) + " " + "0"
    ensures j == "-1 -" + u + " -" + v + " -" + h + " 0"
  {
    assert "-1 -" == "-1" + " " + "-";
    assert " -" == " " + "-";
    assert " 0" == " " + "0";
  }

  lemma {:induction false} AdjacentOuter(arc: string, u: string, v: string, h: string, r: string, j: string)
    requires j == "-1 -" + u + " -" + v + " -" + h + " 0"
    ensures arc + "\n3\n" + j + "\n" + ("1 " + r + " 1") + "\n\r"
         == arc + "\n3\n-1 -" + u + " -" + v + " -" + h + " 0\n1 " + r + " 1\n\r"
  {
    assert "\n3\n-1 -" == "\n3\n" + "-1 -";
    assert " 0\n1 " == " 0" + "\n" + "1 ";
    assert " 1\n\r" == " 1" + "\n\r";
  }

  lemma {:induction false} ForwardScript(arc: string, header: string, repetitions: nat, r1: Bounds, r2: Bounds)
    requires !(r1.first == 1 && r2.first == 17) && r1.last + 1 != r2.first && r1.first < r2.first
    ensures ArchiveScript(arc, header, repetitions, r1, r2)
         == arc + "\n3\n-1 -" + IntToString(r1.first - 1) + " -" + IntToString(r1.last + 1)
            + " -" + IntToString(r2.first - 1) + " -" + IntToString(r2.last + 1)
            + " -" + header + " 1\n1 " + IntToString(repetitions) + " 1\n\r"
  {
    var bounds := [1, r1.first - 1, r1.last + 1, r2.first - 1, r2.last + 1];
    FiveBoundsText(arc, header, repetitions, r1, r2, bounds);
  }

  lemma {:induction false} ReversedScript(arc: string, header: string, repetitions: nat, r1: Bounds, r2: Bounds)
    requires !(r1.first == 1 && r2.first == 17) && r1.last + 1 != r2.first && r1.first >= r2.first
    ensures ArchiveScript(arc, header, repetitions, r1, r2)
         == arc + "\n3\n-1 -" + IntToString(r2.first - 1) + " -" + IntToString(r2.last + 1)
            + " -" + IntToString(r1.first - 1) + " -" + IntToString(r1.last + 1)
            + " -" + header + " 1\n1 " + IntToString(repetitions) + " 1\n\r"
  {
    var bounds := [1, r2.first - 1, r2.last + 1, r1.first - 1, r1.last + 1];
    FiveBoundsText(arc, header, repetitions, r1, r2, bounds);
  }

  /** The script of a pair is the text of the branch the chain selects. */
  lemma {:induction false} ArchiveScriptByBranch(arc: string, header: string, repetitions: nat, r1: Bounds, r2: Bounds)
    ensures ArchiveScript(arc, header, repetitions, r1, r2)
         == match ChooseBranch(r1, r2)
            case SentinelPair =>
              arc + "\n3\n -" + IntToString(r2.last + 1) + " -" + header + " 0\n1 "
              + IntToString(repetitions) + " 1\n\r"
            case Adjacent =>
              arc + "\n3\n-1 -" + IntToString(r1.first - 1) + " -" + IntToString(r2.last + 1)
              + " -" + header + " 0\n1 " + IntToString(repetitions) + " 1\n\r"
            case Forward =>
              arc + "\n3\n-1 -" + IntToString(r1.first - 1) + " -" + IntToString(r1.last + 1)
              + " -" + IntToString(r2.first - 1) + " -" + IntToString(r2.last + 1)
              + " -" + header + " 1\n1 " + IntToString(repetitions) + " 1\n\r"
            case Reversed =>
              arc + "\n3\n-1 -" + IntToString(r2.first - 1) + " -" + IntToString(r2.last + 1)
              + " -" + IntToString(r1.first - 1) + " -" + IntToString(r1.last + 1)
              + " -" + header + " 1\n1 " + IntToString(repetitions) + " 1\n\r"
  {
    ChooseBranchIsFirstTest(r1, r2);
    match ChooseBranch(r1, r2) {
      case SentinelPair => SentinelScript(arc, header, repetitions, r1, r2);
      case Adjacent => AdjacentScript(arc, header, repetitions, r1, r2);
      case Forward => ForwardScript(arc, header, repetitions, r1, r2);
      case Reversed => ReversedScript(arc, header, repetitions, r1, r2);
    }
  }

  /** The text of a script whose range line has five bounds (the forward
      and reversed branches). */
  lemma {:induction false} FiveBoundsText(arc: string, header: string, repetitions: nat, r1: Bounds, r2: Bounds, bounds: seq<int>)
    requires SelectionFor(r1, r2) == RangeSpec(false, bounds, 1) && |bounds| == 5 && bounds[0] == 1
    ensures ArchiveScript(arc, header, repetitions, r1, r2)
         == arc + "\n3\n-1 -" + IntToString(bounds[1]) + " -" + IntToString(bounds[2])
            + " -" + IntToString(bounds[3]) + " -" + IntToString(bounds[4])
            + " -" + header + " 1\n1 " + IntToString(repetitions) + " 1\n\r"
  {
    var t1 := IntToString(bounds[1]);
    var t2 := IntToString(bounds[2]);
    var t3 := IntToString(bounds[3]);
    var t4 := IntToString(bounds[4]);
    var m := MinusTokens(bounds);
    assert IntToString(1) == "1";
    assert m[0] == "-1" && m[1] == "-" + t1 && m[2] == "-" + t2 && m[3] == "-" + t3 && m[4] == "-" + t4;
    var toks := RangeTokens(SelectionFor(r1, r2), header);
    assert toks == ["-1", "-" + t1, "-" + t2, "-" + t3, "-" + t4, "-" + header, "1"];
    JoinSeven("-1", "-" + t1, "-" + t2, "-" + t3, "-" + t4, "-" + header, "1");
    FiveBoundsLine(arc, t1, t2, t3, t4, header, IntToString(repetitions), Join(toks));
  }

  lemma {:induction false} FiveBoundsLine(arc: string, t1: string, t2: string, t3: string, t4: string, h: string, r: string, j: string)
    requires j == "-1" + " " + ("-" + t1) + " " + ("-" + t2) + " " + ("-" + t3) + " " + ("-" + t4)
                  + " " + ("-" + h) + " " + "1"
    ensures arc + "\n3\n" + ("" + j) + "\n" + ("1 " + r + " 1") + "\n\r"
         == arc + "\n3\n-1 -" + t1 + " -" + t2 + " -" + t3 + " -" + t4 + " -" + h + " 1\n1 " + r + " 1\n\r"
  {
    assert "" + j == j;
    var front := "-1 -" + t1 + " -" + t2;
    assert j == front + " -" + t3 + " -" + t4 + " -" + h + " 1" by {
      assert front == "-1" + " " + ("-" + t1) + " " + ("-" + t2) by {
        assert "-1 -" == "-1" + " " + "-";
        assert " -" == " " + "-";
      }
      assert " -" == " " + "-";
      assert " 1" == " " + "1";
    }
    FiveBoundsOuter(arc, front, t1, t2, t3, t4, h, r, j);
  }

  lemma {:induction false} FiveBoundsOuter(arc: string, front: string, t1: string, t2: string, t3: string, t4: string,
                        h: string, r: string, j: string)
    requires front == "-1 -" + t1 + " -" + t2
    requires j == front + " -" + t3 + " -" + t4 + " -" + h + " 1"
    ensures arc + "\n3\n" + j + "\n" + ("1 " + r + " 1") + "\n\r"
         == arc + "\n3\n-1 -" + t1 + " -" + t2 + " -" + t3 + " -" + t4 + " -" + h + " 1\n1 " + r + " 1\n\r"
  {
    assert "\n3\n-1 -" == "\n3\n" + "-1 -";
    assert " 1\n1 " == " 1" + "\n" + "1 ";
    assert " 1\n\r" == " 1" + "\n\r";
  }

  // ------------------------------------------------------------ decoding

  function Negated(xs: seq<int>): seq<int> {
    seq(|xs|, k requires 0 <= k < |xs| => -xs[k])
  }

  /** `int("-" + h)` for a run of digits `h`. */
  lemma {:induction false} ParseMinusDigits(h: string)
    requires IsDigits(h)
    ensures ParseInt("-" + h) == Some(-(DigitsValue(h) as int))
  {
    var s := "-" + h;
    assert NoSpace(s) by {
      forall k | 0 <= k < |s| ensures !IsSpace(s[k]) {
        if k > 0 {
          assert s[k] == h[k - 1];
        }
      }
    }
    StripNoSpace(s);
    assert s[1..] == h;
  }

  /** A word with a minus sign in front is still one word. */
  lemma {:induction false} MinusWord(w: string)
    requires NoSpace(w)
    ensures "-" + w != [] && NoSpace("-" + w)
  {
    var s := "-" + w;
    forall q | 0 <= q < |s| ensures !IsSpace(s[q]) {
      if q > 0 {
        assert s[q] == w[q - 1];
      }
    }
  }

  lemma {:induction false} MinusTokensRead(xs: seq<int>)
    requires forall k :: 0 <= k < |xs| ==> xs[k] >= 0
    ensures forall k :: 0 <= k < |xs| ==> MinusTokens(xs)[k] != [] && NoSpace(MinusTokens(xs)[k])
    ensures forall k :: 0 <= k < |xs| ==> ParseInt(MinusTokens(xs)[k]) == Some(-xs[k])
  {
    forall k | 0 <= k < |xs|
      ensures MinusTokens(xs)[k] != [] && NoSpace(MinusTokens(xs)[k])
      ensures ParseInt(MinusTokens(xs)[k]) == Some(-xs[k])
    {
      var b: nat := xs[k];
      assert IntToString(b) == NatToString(b);
      MinusWord(NatToString(b));
      ParseNegated(b);
    }
  }

  /** The numbers the range line stands for: the negated bounds, the
      negated header and the flag. */
  function RangeValues(spec: RangeSpec, header: string): seq<int>
    requires IsDigits(header)
  {
    Negated(spec.bounds) + [-(DigitsValue(header) as int), spec.flag]
  }

  /** Each token of the range line is one word and reads back as its number. */
  lemma {:induction false} RangeTokensRead(spec: RangeSpec, header: string)
    requires forall k :: 0 <= k < |spec.bounds| ==> spec.bounds[k] >= 0
    requires IsDigits(header)
    ensures |RangeTokens(spec, header)| == |RangeValues(spec, header)|
    ensures forall k :: 0 <= k < |RangeTokens(spec, header)| ==>
      RangeTokens(spec, header)[k] != [] && NoSpace(RangeTokens(spec, header)[k])
    ensures forall k :: 0 <= k < |RangeTokens(spec, header)| ==>
      ParseInt(RangeTokens(spec, header)[k]) == Some(RangeValues(spec, header)[k])
  {
    var minus := MinusTokens(spec.bounds);
    var tail := ["-" + header, IntToString(spec.flag)];
    var toks := RangeTokens(spec, header);
    var vals := RangeValues(spec, header);
    MinusTokensRead(spec.bounds);
    assert NoSpace(header);
    MinusWord(header);
    ParseMinusDigits(header);
    ParseIntToString(spec.flag);
    forall k | 0 <= k < |toks|
      ensures toks[k] != [] && NoSpace(toks[k])
      ensures ParseInt(toks[k]) == Some(vals[k])
    {
      if k < |minus| {
        assert toks[k] == minus[k] && vals[k] == -spec.bounds[k];
      } else {
        assert toks[k] == tail[k - |minus|];
      }
    }
  }

  /** The range line splits into its tokens. */
  lemma {:induction false} RangeLineSplits(spec: RangeSpec, header: string)
    requires forall k :: 0 <= k < |RangeTokens(spec, header)| ==>
      RangeTokens(spec, header)[k] != [] && NoSpace(RangeTokens(spec, header)[k])
    ensures Split(RangeLine(spec, header)) == RangeTokens(spec, header)
  {
    var toks := RangeTokens(spec, header);
    SplitJoin(toks, "");
    var j := Join(toks);
    assert j + "" == j;
    if spec.indent {
      assert (" " + j)[1..] == j;
    } else {
      assert "" + j == j;
    }
  }

  /** The script's range line reads back, number by number, as the negated
      bounds, the negated header and the flag, provided the bounds are not
      negative and the header is a plain run of digits. */
  lemma {:induction false} RangeLineDecodes(spec: RangeSpec, header: string)
    requires forall k :: 0 <= k < |spec.bounds| ==> spec.bounds[k] >= 0
    requires IsDigits(header)
    ensures ParseInts(Split(RangeLine(spec, header))) == Some(RangeValues(spec, header))
  {
    var toks := RangeTokens(spec, header);
    var vals := RangeValues(spec, header);
    RangeTokensRead(spec, header);
    RangeLineSplits(spec, header);
    assert Split(RangeLine(spec, header)) == toks;
    ParseIntsExact(toks, vals);
    assert ParseInts(toks) == Some(vals);
  }

  /** The frame line reads back as first frame 1, the frame count, stride 1. */
  lemma {:induction false} FrameLineDecodes(repetitions: nat)
    ensures ParseInts(Split(FrameLine(repetitions))) == Some([1, repetitions as int, 1])
  {
    var toks := ["1", IntToString(repetitions), "1"];
    assert Join(toks[1..]) == toks[1] + " " + "1";
    assert "1 " == "1" + " " && " 1" == " " + "1";
    assert FrameLine(repetitions) == Join(toks) + "";
    SplitJoin(toks, "");
    ParseIntToString(1);
    ParseIntToString(repetitions);
    assert IntToString(1) == "1";
    ParseIntsExact(toks, [1, repetitions as int, 1]);
  }

  // ------------------------------------------------------------ serial order

  predicate IncreasingSerials(atoms: seq<Atom>) {
    forall p, q :: 0 <= p < q < |atoms| ==> atoms[p].serial < atoms[q].serial
  }

  /** Serials numbered consecutively, as TINKER writes them. */
  predicate ConsecutiveSerials(atoms: seq<Atom>) {
    forall p :: 0 <= p < |atoms| ==> atoms[p].serial == atoms[0].serial + p
  }

  /** Where the bounds of residue `k` sit among the atoms. */
  lemma {:induction false} BoundsAt(atoms: seq<Atom>, rs: seq<seq<Atom>>, k: nat)
    requires IsResidueSplit(atoms, rs) && 1 <= k < |rs|
    ensures |rs[k]| >= 3
    ensures |Flatten(rs[..k])| + |rs[k]| <= |atoms|
    ensures BoundsOf(rs[k]).first == atoms[|Flatten(rs[..k])|].serial
    ensures BoundsOf(rs[k]).last == atoms[|Flatten(rs[..k])| + |rs[k]| - 1].serial
  {
    ResidueAt(rs, k, 0);
    ResidueAt(rs, k, |rs[k]| - 1);
  }

  /** When serials increase along the atoms, the final `else` is dead: the
      first residue of a pair always starts before the second. */
  lemma {:induction false} IncreasingSerialsNeverReversed(atoms: seq<Atom>, rs: seq<seq<Atom>>, i: nat, j: nat)
    requires IsResidueSplit(atoms, rs) && IncreasingSerials(atoms)
    requires 1 <= i < j < |rs|
    ensures BoundsOf(rs[i]).first < BoundsOf(rs[j]).first
    ensures ChooseBranch(BoundsOf(rs[i]), BoundsOf(rs[j])) != Reversed
  {
    BoundsAt(atoms, rs, i);
    BoundsAt(atoms, rs, j);
    OffsetGrows(rs, i, j);
  }

  /** With consecutive serials, neighbouring residues take the sentinel or
      the adjacency branch. */
  lemma {:induction false} NeighboursAreAdjacent(atoms: seq<Atom>, rs: seq<seq<Atom>>, i: nat)
    requires IsResidueSplit(atoms, rs) && ConsecutiveSerials(atoms)
    requires 1 <= i && i + 1 < |rs|
    ensures BoundsOf(rs[i]).last + 1 == BoundsOf(rs[i + 1]).first
    ensures ChooseBranch(BoundsOf(rs[i]), BoundsOf(rs[i + 1])) in {SentinelPair, Adjacent}
  {
    BoundsAt(atoms, rs, i);
    BoundsAt(atoms, rs, i + 1);
    OffsetGrows(rs, i, i + 1);
  }

  /** With consecutive serials, residues further apart take the sentinel or
      the forward branch. */
  lemma {:induction false} DistantAreForward(atoms: seq<Atom>, rs: seq<seq<Atom>>, i: nat, j: nat)
    requires IsResidueSplit(atoms, rs) && ConsecutiveSerials(atoms)
    requires 1 <= i && i + 1 < j < |rs|
    ensures BoundsOf(rs[i]).last + 1 < BoundsOf(rs[j]).first
    ensures ChooseBranch(BoundsOf(rs[i]), BoundsOf(rs[j])) in {SentinelPair, Forward}
  {
    BoundsAt(atoms, rs, i);
    BoundsAt(atoms, rs, i + 1);
    BoundsAt(atoms, rs, j);
    OffsetGrows(rs, i, i + 1);
    OffsetGrows(rs, i + 1, j);
  }

  // ------------------------------------------------------------ reference residue

  /** `1 <= residue_index < len(residues)` */
  predicate ValidReference(index: int, count: nat) {
    1 <= index < count
  }

  /** An answer the prompt loop accepts: `int(answer)` succeeds and is in range. */
  predicate Accepts(answer: string, count: nat) {
    ParseInt(answer).Some? && ValidReference(ParseInt(answer).value, count)
  }

  /** The position of the first accepted answer, or `|answers|` if none is. */
  function FirstAccepted(answers: seq<string>, count: nat): (k: nat)
    ensures k <= |answers|
    ensures forall q :: 0 <= q < k ==> !Accepts(answers[q], count)
    ensures k < |answers| ==> Accepts(answers[k], count)
  {
    if answers == [] then 0
    else if Accepts(answers[0], count) then 0
    else 1 + FirstAccepted(answers[1..], count)
  }

  /** The `while True` prompt of read_sep_arc.py and read_tinker_xyz.py, with
      the user's answers given in advance; `None` when they run out before one
      is accepted. */
  method PromptReferenceIndex(count: nat, answers: seq<string>) returns (index: Option<int>)
    ensures index.Some? <==> FirstAccepted(answers, count) < |answers|
    ensures index.Some? ==> ValidReference(index.value, count)
    ensures index.Some? ==> index == ParseInt(answers[FirstAccepted(answers, count)])
  {
    var i := 0;
    while i < |answers|
      invariant 0 <= i <= |answers|
      invariant forall q :: 0 <= q < i ==> !Accepts(answers[q], count)
    {
      var parsed := ParseInt(answers[i]);
      match parsed {
        case Some(v) =>
          if 1 <= v < count {
            FirstAcceptedIs(answers, count, i);
            return Some(v);
          }
        case None =>
      }
      i := i + 1;
    }
    FirstAcceptedIs(answers, count, |answers|);
    return None;
  }

  /** `FirstAccepted` is the first accepted position. */
  lemma {:induction false} FirstAcceptedIs(answers: seq<string>, count: nat, k: nat)
    requires k <= |answers|
    requires forall q :: 0 <= q < k ==> !Accepts(answers[q], count)
    requires k < |answers| ==> Accepts(answers[k], count)
    ensures FirstAccepted(answers, count) == k
  {
    if k > 0 {
      assert !Accepts(answers[0], count);
      var rest := answers[1..];
      forall q | 0 <= q < k - 1 ensures !Accepts(rest[q], count) {
        assert rest[q] == answers[q + 1];
      }
      if k < |answers| {
        assert rest[k - 1] == answers[k];
      }
      FirstAcceptedIs(rest, count, k - 1);
    }
  }

  /** With fewer than two residues no answer is ever accepted. */
  lemma {:induction false} NoReferenceForTooFewResidues(answers: seq<string>, count: nat)
    requires count <= 1
    ensures FirstAccepted(answers, count) == |answers|
  {
  }

  /** `f"{arc_file}\n3\n-1 {first - 1} 1, -{last + 1} {line_to_search} 1\n1 {repetitions} 1\n"` */
  function ReferenceRangeTokens(header: string, b: Bounds): seq<string> {
    ["-1", IntToString(b.first - 1), "1,", "-" + IntToString(b.last + 1), header, "1"]
  }

  function ReferenceScript(arc: string, header: string, repetitions: nat, b: Bounds): string {
    arc + "\n3\n" + Join(ReferenceRangeTokens(header, b)) + "\n" + FrameLine(repetitions) + "\n"
  }

  lemma {:induction false} ReferenceScriptText(arc: string, header: string, repetitions: nat, b: Bounds)
    ensures ReferenceScript(arc, header, repetitions, b)
         == arc + "\n3\n-1 " + IntToString(b.first - 1) + " 1, -" + IntToString(b.last + 1)
            + " " + header + " 1\n1 " + IntToString(repetitions) + " 1\n"
  {
    var u := IntToString(b.first - 1);
    var v := IntToString(b.last + 1);
    JoinSix("-1", u, "1,", "-" + v, header, "1");
    ReferenceText(arc, u, v, header, IntToString(repetitions), Join(ReferenceRangeTokens(header, b)));
  }

  lemma {:induction false} ReferenceText(arc: string, u: string, v: string, h: string, r: string, j: string)
    requires j == "-1" + " " + u + " " + "1," + " " + ("-" + v) + " " + h + " " + "1"
    ensures arc + "\n3\n" + j + "\n" + ("1 " + r + " 1") + "\n"
         == arc + "\n3\n-1 " + u + " 1, -" + v + " " + h + " 1\n1 " + r + " 1\n"
  {
    assert "\n3\n-1 " == "\n3\n" + "-1" + " ";
    assert " 1, -" == " " + "1," + " " + "-";
    assert " 1\n1 " == " " + "1" + "\n" + "1 ";
    assert " 1\n" == " 1" + "\n";
  }

  /** The reference line splits back into its six fields when the header is
      one word. */
  lemma {:induction false} ReferenceLineFields(header: string, b: Bounds)
    requires header != [] && NoSpace(header)
    ensures Split(Join(ReferenceRangeTokens(header, b))) == ReferenceRangeTokens(header, b)
  {
    var toks := ReferenceRangeTokens(header, b);
    var w := IntToString(b.last + 1);
    assert NoSpace("-" + w) by {
      forall q | 0 <= q < |"-" + w| ensures !IsSpace(("-" + w)[q]) {
        if q > 0 {
          assert ("-" + w)[q] == w[q - 1];
        }
      }
    }
    SplitJoin(toks, "");
    assert Join(toks) + "" == Join(toks);
  }

  /** `call_archive_ref(residues)`: prompt for the reference residue, then
      build the script. `None` when there are no residues (the script line
      then names unbound variables) or the answers run out. */
  method CallArchiveRef(arc: string, header: string, repetitions: nat, residues: seq<seq<Atom>>,
                        answers: seq<string>) returns (script: Option<string>)
    requires forall k :: 1 <= k < |residues| ==> residues[k] != []
    ensures script.Some? <==> residues != [] && FirstAccepted(answers, |residues|) < |answers|
    ensures script.Some? ==>
      var k := ParseInt(answers[FirstAccepted(answers, |residues|)]).value;
      1 <= k < |residues| && script.value == ReferenceScript(arc, header, repetitions, BoundsOf(residues[k]))
  {
    if residues == [] {
      return None;
    }
    var index := PromptReferenceIndex(|residues|, answers);
    match index {
      case None => script := None;
      case Some(k) =>
        var selected := residues[k];
        script := Some(ReferenceScript(arc, header, repetitions, BoundsOf(selected)));
    }
  }

  /** What `call_tinker_archive` computes: the accepted reference index (or
      none when there are no residues to choose from) and the frame count of
      the archive file. */
  datatype TinkerArchiveRun = TinkerArchiveRun(reference: Option<int>, frames: Result<nat>)

  /** `call_tinker_archive(residues)`; `None` when the answers run out before
      an index is accepted. */
  method CallTinkerArchive(residues: seq<seq<Atom>>, answers: seq<string>, file: Option<seq<string>>)
    returns (r: Option<TinkerArchiveRun>)
    ensures r.None? <==> residues != [] && FirstAccepted(answers, |residues|) == |answers|
    ensures r.Some? ==> r.value.reference.Some? == (residues != [])
    ensures r.Some? && r.value.reference.Some? ==> ValidReference(r.value.reference.value, |residues|)
    ensures r.Some? && residues != [] ==>
      r.value.reference == Some(ParseInt(answers[FirstAccepted(answers, |residues|)]).value)
    ensures r.Some? ==> r.value.frames == IntegerFrameCount(file)
  {
    var reference: Option<int> := None;
    if residues != [] {
      reference := PromptReferenceIndex(|residues|, answers);
      if reference.None? {
        return None;
      }
    }
    var frames := CountIntegerFrames(file);
    r := Some(TinkerArchiveRun(reference, frames));
  }
}
