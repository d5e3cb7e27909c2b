/** Reading a TINKER .arc/.xyz text file: the atom records of its first frame,
    and the two ways the scripts count frames.

    A file is the list `file.readlines()` would return (every line keeps its
    terminator); `None` stands for a path that does not exist. */
module ArcReader {
  import opened PyText

  /** One atom line `serial symbol x y z type bond...`. The three coordinates
      are kept as the tokens the file holds. */
  datatype Atom = Atom(serial: int, symbol: string, x: string, y: string, z: string,
                       typeCode: int, connect: seq<int>)

  datatype ReadError =
    | FileNotFound       // open() raised FileNotFoundError
    | HeaderNotInteger   // int() of the first line raised ValueError
    | FieldNotInteger    // int() of a record field raised ValueError (not caught)

  datatype Result<T> = Ok(value: T) | Err(error: ReadError)

  /** What `file.readline()` returns as the k-th call: "" past the end. */
  function LineAt(lines: seq<string>, k: nat): string {
    if k < |lines| then lines[k] else ""
  }

  // ------------------------------------------------------------ one record

  /** `[int(num) for num in ws]`, or `None` when some `int()` fails. */
  function ParseInts(ws: seq<string>): (r: Option<seq<int>>)
    ensures r.Some? <==> forall k :: 0 <= k < |ws| ==> ParseInt(ws[k]).Some?
    ensures r.Some? ==> |r.value| == |ws|
    ensures r.Some? ==> forall k :: 0 <= k < |ws| ==> ParseInt(ws[k]) == Some(r.value[k])
  {
    if ws == [] then Some([])
    else match (ParseInt(ws[0]), ParseInts(ws[1..]))
      case (Some(v), Some(vs)) => Some([v] + vs)
      case _ => None
  }

  /** A list of words each of which reads back as the matching number. */
  lemma {:induction false} ParseIntsExact(ws: seq<string>, vs: seq<int>)
    requires |ws| == |vs|
    requires forall k :: 0 <= k < |ws| ==> ParseInt(ws[k]) == Some(vs[k])
    ensures ParseInts(ws) == Some(vs)
  {
    var r := ParseInts(ws);
    assert r.Some?;
    assert r.value == vs;
  }

  /** `[num for num in xs if num != 0]` */
  function DropZeros(xs: seq<int>): (r: seq<int>)
    ensures |r| <= |xs|
    ensures forall v :: v in r <==> v in xs && v != 0
  {
    if xs == [] then []
    else if xs[0] == 0 then DropZeros(xs[1..])
    else [xs[0]] + DropZeros(xs[1..])
  }

  datatype LineOutcome = Skipped | Parsed(atom: Atom) | Invalid

  /** `line.strip().split()`; a blank line has no fields. */
  function Fields(line: string): seq<string> {
    Split(Strip(line))
  }

  /** The record built from the fields of a line with at least seven: the
      serial, the type code and every bond field go through `int()`, and the
      `0` bonds are dropped when `dropZeros` holds. */
  function AtomOf(parts: seq<string>, dropZeros: bool): LineOutcome
    requires |parts| >= 7
  {
    match (ParseInt(parts[0]), ParseInt(parts[5]), ParseInts(parts[6..]))
    case (Some(serial), Some(typeCode), Some(bonds)) =>
      Parsed(Atom(serial, parts[1], parts[2], parts[3], parts[4], typeCode,
                  if dropZeros then DropZeros(bonds) else bonds))
    case _ => Invalid
  }

  /** One pass of the reader's loop body on `file.readline()`: blank lines
      and lines with fewer than seven fields are skipped. */
  function RecordOf(line: string, dropZeros: bool): LineOutcome {
    var parts := Fields(line);
    if |parts| < 7 then Skipped else AtomOf(parts, dropZeros)
  }

  // ------------------------------------------------------------ the reader

  /** The lines the loop reads: `n_atoms + 1` calls of `readline()` after the
      first line (none when `n_atoms + 1` is not positive). */
  function Budget(lines: seq<string>, nAtoms: int): (body: seq<string>)
    ensures |body| == if nAtoms + 1 > 0 then nAtoms + 1 else 0
  {
    seq(if nAtoms + 1 > 0 then nAtoms + 1 else 0, k requires 0 <= k => LineAt(lines, k + 1))
  }

  /** The records of `body`, in order; the first invalid record ends the
      read with an error. */
  function Records(body: seq<string>, dropZeros: bool): (r: Result<seq<Atom>>)
    ensures r.Ok? || r == Err(FieldNotInteger)
    ensures r.Ok? ==> |r.value| <= |body|
    ensures r.Ok? && dropZeros ==> forall k :: 0 <= k < |r.value| ==> 0 !in r.value[k].connect
  {
    if body == [] then Ok([])
    else match Records(body[..|body| - 1], dropZeros)
      case Err(e) => Err(e)
      case Ok(prev) =>
        match RecordOf(body[|body| - 1], dropZeros)
        case Skipped => Ok(prev)
        case Invalid => Err(FieldNotInteger)
        case Parsed(a) => Ok(prev + [a])
  }

  /** A line is skipped exactly when it has fewer than seven fields; it is
      rejected exactly when, with seven or more, the serial, the type code or
      a bond field is not an integer; otherwise its record holds the fields
      in order, the bonds read and, when `dropZeros` holds, without the zeros. */
  lemma {:induction false} RecordOfMeaning(line: string, dropZeros: bool)
    ensures RecordOf(line, dropZeros) == Skipped <==> |Fields(line)| < 7
    ensures RecordOf(line, dropZeros).Invalid? <==>
      |Fields(line)| >= 7 &&
      (ParseInt(Fields(line)[0]).None? || ParseInt(Fields(line)[5]).None? || ParseInts(Fields(line)[6..]).None?)
    ensures RecordOf(line, dropZeros).Parsed? ==>
      var f := Fields(line);
      var a := RecordOf(line, dropZeros).atom;
      && |f| >= 7
      && ParseInt(f[0]) == Some(a.serial)
      && a.symbol == f[1] && a.x == f[2] && a.y == f[3] && a.z == f[4]
      && ParseInt(f[5]) == Some(a.typeCode)
      && ParseInts(f[6..]).Some?
      && a.connect == (if dropZeros then DropZeros(ParseInts(f[6..]).value) else ParseInts(f[6..]).value)
  {
  }

  /** Some line of `body` is rejected. */
  predicate SomeInvalid(body: seq<string>, dropZeros: bool) {
    exists k :: 0 <= k < |body| && RecordOf(body[k], dropZeros).Invalid?
  }

  lemma {:induction false} SomeInvalidStep(body: seq<string>, dropZeros: bool)
    requires body != []
    ensures SomeInvalid(body, dropZeros) <==>
      SomeInvalid(body[..|body| - 1], dropZeros) || RecordOf(body[|body| - 1], dropZeros).Invalid?
  {
    AnyStep(body, line => RecordOf(line, dropZeros).Invalid?);
  }

  predicate AnyIn<T>(s: seq<T>, p: T -> bool) {
    exists k :: 0 <= k < |s| && p(s[k])
  }

  /** Some element satisfies `p` exactly when one of the front does or the
      last one does. */
  lemma {:induction false} AnyStep<T>(s: seq<T>, p: T -> bool)
    requires s != []
    ensures AnyIn(s, p) <==> AnyIn(s[..|s| - 1], p) || p(s[|s| - 1])
  {
    var init := s[..|s| - 1];
    if AnyIn(init, p) {
      var k :| 0 <= k < |init| && p(init[k]);
      assert s[k] == init[k];
    }
    if AnyIn(s, p) {
      var k :| 0 <= k < |s| && p(s[k]);
      if k < |init| {
        assert init[k] == s[k];
      }
    }
  }

  /** The read fails exactly when some line it reads is rejected. */
  lemma {:induction false} RecordsErrIff(body: seq<string>, dropZeros: bool)
    ensures Records(body, dropZeros).Err? <==> exists k :: 0 <= k < |body| && RecordOf(body[k], dropZeros).Invalid?
  {
    if body != [] {
      RecordsErrIff(body[..|body| - 1], dropZeros);
      SomeInvalidStep(body, dropZeros);
    }
  }

  /** `read_tinker_xyz(arc_file)` as a function of the file's lines. */
  function ReadAtoms(file: Option<seq<string>>, dropZeros: bool): Result<seq<Atom>> {
    match file
    case None => Err(FileNotFound)
    case Some(lines) =>
      match ParseInt(LineAt(lines, 0))
      case None => Err(HeaderNotInteger)
      case Some(n) => Records(Budget(lines, n), dropZeros)
  }

  lemma {:induction false} RecordsErrSticky(body: seq<string>, k: nat, dropZeros: bool)
    requires k <= |body|
    requires Records(body[..k], dropZeros).Err?
    ensures Records(body, dropZeros).Err?
    decreases |body| - k
  {
    if k < |body| {
      assert body[..k + 1][..k] == body[..k];
      RecordsErrSticky(body, k + 1, dropZeros);
    } else {
      assert body[..k] == body;
    }
  }

  lemma {:induction false} RecordsStep(body: seq<string>, i: nat, dropZeros: bool)
    requires i < |body|
    ensures Records(body[..i + 1], dropZeros) ==
              match Records(body[..i], dropZeros)
              case Err(e) => Err(e)
              case Ok(prev) =>
                match RecordOf(body[i], dropZeros)
                case Skipped => Ok(prev)
                case Invalid => Err(FieldNotInteger)
                case Parsed(a) => Ok(prev + [a])
  {
    assert body[..i + 1][..i] == body[..i];
  }

  /** The body of the reader's loop for one `file.readline()`. */
  method ReadRecord(raw: string, dropZeros: bool) returns (o: LineOutcome)
    ensures o == RecordOf(raw, dropZeros)
  {
    var line := Strip(raw);
    if line == [] {
      return Skipped;
    }
    var parts := Split(line);
    if |parts| < 7 {
      return Skipped;
    }
    var serial := ParseInt(parts[0]);
    var typeCode := ParseInt(parts[5]);
    var bonds := ParseInts(parts[6..]);
    if serial.None? || typeCode.None? || bonds.None? {
      return Invalid;
    }
    var connect := bonds.value;
    if dropZeros {
      connect := DropZeros(connect);
    }
    o := Parsed(Atom(serial.value, parts[1], parts[2], parts[3], parts[4], typeCode.value, connect));
  }

  /** `read_tinker_xyz`: `dropZeros` is true for the copy in new_main.py,
      which filters the `0` bonds, and false for the copies in read_sep_arc.py
      and read_tinker_xyz.py, which keep them. */
  method ReadTinkerXyz(file: Option<seq<string>>, dropZeros: bool) returns (r: Result<seq<Atom>>)
    ensures r == ReadAtoms(file, dropZeros)
    ensures r == Err(FileNotFound) <==> file.None?
    ensures r == Err(HeaderNotInteger) <==> file.Some? && ParseInt(LineAt(file.value, 0)).None?
    ensures r.Ok? ==> var n := ParseInt(LineAt(file.value, 0)).value;
                      |r.value| <= if n + 1 > 0 then n + 1 else 0
  {
    if file.None? {
      return Err(FileNotFound);
    }
    var lines := file.value;
    var header := ParseInt(LineAt(lines, 0));
    if header.None? {
      return Err(HeaderNotInteger);
    }
    var nAtoms := header.value + 1;
    ghost var body := Budget(lines, header.value);
    var atoms: seq<Atom> := [];
    var i := 0;
    while i < nAtoms
      invariant 0 <= i <= |body|
      invariant Records(body[..i], dropZeros) == Ok(atoms)
    {
      assert body[i] == LineAt(lines, i + 1);
      var record := ReadRecord(LineAt(lines, i + 1), dropZeros);
      RecordsStep(body, i, dropZeros);
      match record {
        case Skipped =>
        case Invalid =>
          RecordsErrSticky(body, i + 1, dropZeros);
          return Err(FieldNotInteger);
        case Parsed(atom) =>
          atoms := atoms + [atom];
      }
      i := i + 1;
    }
    assert body[..i] == body;
    r := Ok(atoms);
  }

  // ------------------------------------------------------------ properties

  /** The records are exactly the lines of the budget that are neither blank
      nor short, each parsed, in file order. */
  function KeptLines(body: seq<string>): (kept: seq<string>)
    ensures |kept| <= |body|
  {
    if body == [] then []
    else KeptLines(body[..|body| - 1]) +
         (if RecordOf(body[|body| - 1], false).Skipped? then [] else [body[|body| - 1]])
  }

  lemma {:induction false} RecordsAreKeptLines(body: seq<string>, dropZeros: bool)
    requires Records(body, dropZeros).Ok?
    ensures |Records(body, dropZeros).value| == |KeptLines(body)|
    ensures forall k :: 0 <= k < |KeptLines(body)| ==>
              RecordOf(KeptLines(body)[k], dropZeros) == Parsed(Records(body, dropZeros).value[k])
  {
    if body != [] {
      var init := body[..|body| - 1];
      var last := body[|body| - 1];
      RecordsAreKeptLines(init, dropZeros);
      RecordOfCopies(last);
    }
  }

  /** The two reader copies treat one line alike, up to the `0` bonds. */
  lemma {:induction false} RecordOfCopies(line: string)
    ensures RecordOf(line, true).Skipped? <==> RecordOf(line, false).Skipped?
    ensures RecordOf(line, true).Invalid? <==> RecordOf(line, false).Invalid?
    ensures RecordOf(line, false).Parsed? ==>
              RecordOf(line, true) == Parsed(WithoutZeroBonds(RecordOf(line, false).atom))
  {
  }

  /** A record with its `0` bonds removed, as new_main.py builds it. */
  function WithoutZeroBonds(a: Atom): Atom {
    a.(connect := DropZeros(a.connect))
  }

  function AllWithoutZeroBonds(atoms: seq<Atom>): (r: seq<Atom>)
    ensures |r| == |atoms|
    ensures forall k :: 0 <= k < |atoms| ==> r[k] == WithoutZeroBonds(atoms[k])
  {
    seq(|atoms|, k requires 0 <= k < |atoms| => WithoutZeroBonds(atoms[k]))
  }

  /** The copy of the reader in new_main.py and the copies in read_sep_arc.py
      and read_tinker_xyz.py accept and reject the same files, and read the
      same records except that new_main.py's bond lists lack the `0`s. */
  lemma {:induction false} ReaderCopiesAgree(file: Option<seq<string>>)
    ensures ReadAtoms(file, true).Ok? <==> ReadAtoms(file, false).Ok?
    ensures ReadAtoms(file, true).Err? ==> ReadAtoms(file, true) == ReadAtoms(file, false)
    ensures ReadAtoms(file, true).Ok? ==>
              ReadAtoms(file, true).value == AllWithoutZeroBonds(ReadAtoms(file, false).value)
  {
    if file.Some? && ParseInt(LineAt(file.value, 0)).Some? {
      RecordsCopiesAgree(Budget(file.value, ParseInt(LineAt(file.value, 0)).value));
    }
  }

  lemma {:induction false} RecordsCopiesAgree(body: seq<string>)
    ensures Records(body, true).Ok? <==> Records(body, false).Ok?
    ensures Records(body, true).Ok? ==>
              Records(body, true).value == AllWithoutZeroBonds(Records(body, false).value)
  {
    if body != [] {
      var init := body[..|body| - 1];
      RecordsCopiesAgree(init);
      var last := body[|body| - 1];
      RecordOfCopies(last);
      match RecordOf(last, false)
      case Skipped =>
      case Invalid =>
      case Parsed(a) =>
        if Records(init, false).Ok? {
          assert AllWithoutZeroBonds(Records(init, false).value + [a])
              == AllWithoutZeroBonds(Records(init, false).value) + [WithoutZeroBonds(a)];
        }
    }
  }

  /** In new_main.py no bond list holds `0`, and each keeps the other bonds
      in file order. */
  lemma {:induction false} DropZerosKeepsOrder(xs: seq<int>, ys: seq<int>)
    ensures DropZeros(xs + ys) == DropZeros(xs) + DropZeros(ys)
  {
    if xs == [] {
      assert xs + ys == ys;
    } else {
      assert (xs + ys)[1..] == xs[1..] + ys;
      DropZerosKeepsOrder(xs[1..], ys);
      if xs[0] != 0 {
        assert [xs[0]] + DropZeros(xs[1..]) + DropZeros(ys) == [xs[0]] + (DropZeros(xs[1..]) + DropZeros(ys));
      }
    }
  }

  /** A list without `0` is left as it is, so filtering twice is filtering once. */
  lemma {:induction false} DropZerosNoZero(xs: seq<int>)
    requires 0 !in xs
    ensures DropZeros(xs) == xs
  {
    if xs != [] {
      assert 0 !in xs[1..];
      DropZerosNoZero(xs[1..]);
    }
  }

  // ------------------------------------------------------------ frames

  /** Number of lines whose stripped text equals `target`. */
  function CountMatching(lines: seq<string>, target: string): (c: nat)
    ensures c <= |lines|
  {
    if lines == [] then 0
    else CountMatching(lines[..|lines| - 1], target) + (if Strip(lines[|lines| - 1]) == target then 1 else 0)
  }

  function StrippedLines(lines: seq<string>): (r: seq<string>)
    ensures |r| == |lines|
    ensures forall k :: 0 <= k < |lines| ==> r[k] == Strip(lines[k])
  {
    seq(|lines|, k requires 0 <= k < |lines| => Strip(lines[k]))
  }

  /** The frame count is the multiplicity of the header among the stripped
      lines. */
  lemma {:induction false} CountMatchingIsMultiplicity(lines: seq<string>, target: string)
    ensures CountMatching(lines, target) == multiset(StrippedLines(lines))[target]
  {
    if lines != [] {
      var init := lines[..|lines| - 1];
      CountMatchingIsMultiplicity(init, target);
      assert StrippedLines(lines) == StrippedLines(init) + [Strip(lines[|lines| - 1])];
    }
  }

  lemma {:induction false} CountMatchingFirst(lines: seq<string>, target: string)
    requires lines != [] && Strip(lines[0]) == target
    ensures CountMatching(lines, target) >= 1
  {
    var init := lines[..|lines| - 1];
    if |lines| > 1 {
      assert init[0] == lines[0];
      CountMatchingFirst(init, target);
    } else {
      assert init == [];
    }
  }

  /** `count_frames_in_arc_file(arc_file, line_to_search)` */
  method CountFramesInArcFile(file: Option<seq<string>>, target: string) returns (r: Option<nat>)
    ensures r.None? <==> file.None?
    ensures file.Some? ==> r.value == CountMatching(file.value, target)
  {
    if file.None? {
      return None;
    }
    var lines := file.value;
    var count := 0;
    var i := 0;
    while i < |lines|
      invariant 0 <= i <= |lines|
      invariant count == CountMatching(lines[..i], target)
    {
      assert lines[..i + 1][..i] == lines[..i];
      if Strip(lines[i]) == target {
        count := count + 1;
      }
      i := i + 1;
    }
    assert lines[..i] == lines;
    r := Some(count);
  }

  /** `get_header_and_repetitions(arc_file)`: the stripped first line and the
      number of lines equal to it, or `(None, None)` (here `None`) when the
      file is missing or its first line is blank. */
  method GetHeaderAndRepetitions(file: Option<seq<string>>) returns (r: Option<(string, nat)>)
    ensures r.Some? <==> file.Some? && Strip(LineAt(file.value, 0)) != []
    ensures r.Some? ==> r.value.0 == Strip(LineAt(file.value, 0))
    ensures r.Some? ==> r.value.1 == CountMatching(file.value, r.value.0)
    ensures r.Some? ==> 1 <= r.value.1 <= |file.value|
  {
    if file.None? {
      return None;
    }
    var header := Strip(LineAt(file.value, 0));
    if header == [] {
      return None;
    }
    var count := CountFramesInArcFile(file, header);
    CountMatchingFirst(file.value, header);
    r := Some((header, count.value));
  }

  /** Whenever the reader accepts a file, the header is found: its first
      line is an integer, so it is not blank, and it matches itself. */
  lemma {:induction false} ReaderOkHasHeader(file: Option<seq<string>>, dropZeros: bool)
    requires ReadAtoms(file, dropZeros).Ok?
    ensures file.Some? && Strip(LineAt(file.value, 0)) != []
    ensures CountMatching(file.value, Strip(LineAt(file.value, 0))) >= 1
  {
    var lines := file.value;
    ParseIntNotBlank(LineAt(lines, 0));
    CountMatchingFirst(lines, Strip(lines[0]));
  }

  // ------------------------------------------------------------ integer frames

  /** The count in `call_tinker_archive`: integer lines equal to `nAtoms` are
      counted, other integer lines are passed over, and the count stops at
      the first line that is not an integer. */
  function IntegerFrames(rest: seq<string>, nAtoms: int): (c: nat)
    ensures c <= LeadingIntegerLines(rest)
  {
    if rest == [] then 0
    else match ParseInt(rest[0])
      case None => 0
      case Some(v) => (if v == nAtoms then 1 else 0) + IntegerFrames(rest[1..], nAtoms)
  }

  /** Length of the longest prefix of lines that `int()` accepts. */
  function LeadingIntegerLines(rest: seq<string>): (n: nat)
    ensures n <= |rest|
  {
    if rest == [] || ParseInt(rest[0]).None? then 0 else 1 + LeadingIntegerLines(rest[1..])
  }

  /** Nothing after the first non-integer line is looked at. */
  lemma {:induction false} IntegerFramesStops(rest: seq<string>, nAtoms: int, k: nat)
    requires k < |rest| && ParseInt(rest[k]).None?
    ensures IntegerFrames(rest, nAtoms) == IntegerFrames(rest[..k], nAtoms)
  {
    if k > 0 {
      assert rest[..k][1..] == rest[1..][..k - 1];
      IntegerFramesStops(rest[1..], nAtoms, k - 1);
    }
  }

  /** The outcome of the count for a whole file: the file is missing, its
      first line is not an integer, or the count. */
  function IntegerFrameCount(file: Option<seq<string>>): Result<nat> {
    match file
    case None => Err(FileNotFound)
    case Some(lines) =>
      if lines == [] then Err(HeaderNotInteger)
      else match ParseInt(lines[0])
        case None => Err(HeaderNotInteger)
        case Some(n) => Ok(IntegerFrames(lines[1..], n))
  }

  /** The frame count of read_tinker_xyz.py's `call_tinker_archive`, which
      it prints; the result here is that count. */
  method CountIntegerFrames(file: Option<seq<string>>) returns (r: Result<nat>)
    ensures r == Err(FileNotFound) <==> file.None?
    ensures r == Err(HeaderNotInteger) <==> file.Some? && ParseInt(LineAt(file.value, 0)).None?
    ensures r.Ok? ==> r.value == IntegerFrames(file.value[1..], ParseInt(file.value[0]).value)
    ensures r == IntegerFrameCount(file)
  {
    if file.None? {
      return Err(FileNotFound);
    }
    var lines := file.value;
    var header := ParseInt(LineAt(lines, 0));
    if header.None? {
      return Err(HeaderNotInteger);
    }
    var nAtoms := header.value;
    ghost var rest := lines[1..];
    var count := 0;
    var i := 1;
    while i < |lines|
      invariant 1 <= i <= |lines|
      invariant count + IntegerFrames(lines[i..], nAtoms) == IntegerFrames(rest, nAtoms)
    {
      var frames := ParseInt(lines[i]);
      if frames.None? {
        break;
      }
      assert lines[i..][1..] == lines[i + 1..];
      if frames.value == nAtoms {
        count := count + 1;
      }
      i := i + 1;
    }
    r := Ok(count);
  }

  // ------------------------------------------------------------ the count on a well-formed archive

  /** An archive of frames, each made of the header line and the frame's
      other lines. */
  function FramesText(header: string, bodies: seq<seq<string>>): seq<string> {
    if bodies == [] then [] else FramesText(header, bodies[..|bodies| - 1]) + [header] + bodies[|bodies| - 1]
  }

  /** No line of any frame body reads as an integer, as atom lines and box
      lines do not. */
  predicate NoIntegerLines(bodies: seq<seq<string>>) {
    forall b, k :: 0 <= b < |bodies| && 0 <= k < |bodies[b]| ==> ParseInt(bodies[b][k]).None?
  }

  lemma {:induction false} FramesTextStart(header: string, bodies: seq<seq<string>>)
    requires bodies != []
    ensures |FramesText(header, bodies)| >= 1 + |bodies[0]|
    ensures FramesText(header, bodies)[..1 + |bodies[0]|] == [header] + bodies[0]
  {
    if |bodies| > 1 {
      var init := bodies[..|bodies| - 1];
      FramesTextStart(header, init);
      var before := FramesText(header, init);
      var t := FramesText(header, bodies);
      assert t == before + ([header] + bodies[|bodies| - 1]);
      assert t[..1 + |bodies[0]|] == before[..1 + |init[0]|];
    } else {
      assert bodies[..0] == [];
    }
  }

  /** As written, the loop stops at the first line that is not an integer:
      on an archive whose first frame has any line besides the header, the
      count is 0 however many frames follow. */
  lemma {:induction false} BreakCountsNothing(header: string, nAtoms: int, bodies: seq<seq<string>>)
    requires ParseInt(header) == Some(nAtoms)
    requires bodies != [] && bodies[0] != [] && NoIntegerLines(bodies)
    ensures IntegerFrameCount(Some(FramesText(header, bodies))) == Ok(0)
  {
    FramesTextStart(header, bodies);
    var t := FramesText(header, bodies);
    assert t[0] == header;
    assert t[1..][0] == bodies[0][0];
  }

  /** The count with `continue` in place of `break`: every later line equal
      to the header as an integer is counted, and other lines are passed over. */
  function RepeatedHeaders(rest: seq<string>, nAtoms: int): nat {
    if rest == [] then 0
    else RepeatedHeaders(rest[..|rest| - 1], nAtoms) + (if ParseInt(rest[|rest| - 1]) == Some(nAtoms) then 1 else 0)
  }

  function IntendedFrameCount(file: Option<seq<string>>): Result<nat> {
    match file
    case None => Err(FileNotFound)
    case Some(lines) =>
      if lines == [] then Err(HeaderNotInteger)
      else match ParseInt(lines[0])
        case None => Err(HeaderNotInteger)
        case Some(n) => Ok(RepeatedHeaders(lines[1..], n))
  }

  lemma {:induction false} RepeatedHeadersAppend(a: seq<string>, b: seq<string>, nAtoms: int)
    ensures RepeatedHeaders(a + b, nAtoms) == RepeatedHeaders(a, nAtoms) + RepeatedHeaders(b, nAtoms)
    decreases |b|
  {
    if b != [] {
      RepeatedHeadersAppend(a, b[..|b| - 1], nAtoms);
      assert (a + b)[..|a + b| - 1] == a + b[..|b| - 1];
    } else {
      assert a + b == a;
    }
  }

  lemma {:induction false} RepeatedHeadersNone(b: seq<string>, nAtoms: int)
    requires forall k :: 0 <= k < |b| ==> ParseInt(b[k]).None?
    ensures RepeatedHeaders(b, nAtoms) == 0
  {
    if b != [] {
      RepeatedHeadersNone(b[..|b| - 1], nAtoms);
    }
  }

  lemma {:induction false} RepeatedHeadersOfFrames(header: string, nAtoms: int, bodies: seq<seq<string>>)
    requires ParseInt(header) == Some(nAtoms) && NoIntegerLines(bodies)
    ensures RepeatedHeaders(FramesText(header, bodies), nAtoms) == |bodies|
  {
    if bodies != [] {
      var init := bodies[..|bodies| - 1];
      var last := bodies[|bodies| - 1];
      assert NoIntegerLines(init) by {
        forall b, k | 0 <= b < |init| && 0 <= k < |init[b]| ensures ParseInt(init[b][k]).None? {
          assert init[b] == bodies[b];
        }
      }
      RepeatedHeadersOfFrames(header, nAtoms, init);
      RepeatedHeadersAppend(FramesText(header, init) + [header], last, nAtoms);
      RepeatedHeadersAppend(FramesText(header, init), [header], nAtoms);
      assert [header][..0] == [];
      RepeatedHeadersNone(last, nAtoms);
    }
  }

  /** With `continue`, the count on a well-formed archive is the number of
      frames after the first: how often the first line repeats. */
  lemma {:induction false} ContinueCountsRepeats(header: string, nAtoms: int, bodies: seq<seq<string>>)
    requires ParseInt(header) == Some(nAtoms)
    requires bodies != [] && NoIntegerLines(bodies)
    ensures IntendedFrameCount(Some(FramesText(header, bodies))) == Ok(|bodies| - 1)
  {
    FramesTextStart(header, bodies);
    var t := FramesText(header, bodies);
    RepeatedHeadersOfFrames(header, nAtoms, bodies);
    assert t == [header] + t[1..];
    RepeatedHeadersAppend([header], t[1..], nAtoms);
    assert [header][..0] == [];
  }

  /** The counting loop with `continue` in place of `break`. */
  method CountRepeatedHeaders(file: Option<seq<string>>) returns (r: Result<nat>)
    ensures r == IntendedFrameCount(file)
  {
    if file.None? {
      return Err(FileNotFound);
    }
    var lines := file.value;
    var header := ParseInt(LineAt(lines, 0));
    if header.None? {
      return Err(HeaderNotInteger);
    }
    var nAtoms := header.value;
    var count := 0;
    for i := 1 to |lines|
      invariant count == RepeatedHeaders(lines[1..i], nAtoms)
    {
      assert lines[1..i + 1][..i - 1] == lines[1..i];
      var frames := ParseInt(lines[i]);
      if frames == Some(nAtoms) {
        count := count + 1;
      }
    }
    assert lines[1..|lines|] == lines[1..];
    r := Ok(count);
  }
}
