/** The rewrite of each pair archive in `archive_sep_pair`: every atom line
    after the header loses the `0` entries of its bond list. A bond field
    that is not an integer aborts the rewrite and the file stays as it was. */
module ConnectCleanup {
  import opened PyText
  import opened ArcReader

  /** `[str(num) for num in xs]` */
  function IntTokens(xs: seq<int>): (ts: seq<string>)
    ensures |ts| == |xs|
    ensures forall k :: 0 <= k < |xs| ==> ts[k] == IntToString(xs[k])
  {
    seq(|xs|, k requires 0 <= k < |xs| => IntToString(xs[k]))
  }

  /** One line of the loop: a line with more than six fields becomes its
      first six fields and its non-zero bonds, joined by single spaces and
      ended by a newline; any other line is kept. `None` when a bond field
      is not an integer. */
  function CleanLine(line: string): Option<string> {
    var parts := Split(line);
    if |parts| > 6 then
      match ParseInts(parts[6..])
      case None => None
      case Some(bonds) => Some(Join(parts[..6] + IntTokens(DropZeros(bonds))) + "\n")
    else Some(line)
  }

  /** The lines `lines[1:]`, each cleaned; `None` as soon as one fails. */
  function CleanLines(ls: seq<string>): (r: Option<seq<string>>)
    ensures r.Some? ==> |r.value| == |ls|
    ensures r.Some? ==> forall k :: 0 <= k < |ls| ==> CleanLine(ls[k]) == Some(r.value[k])
  {
    if ls == [] then Some([])
    else match (CleanLines(ls[..|ls| - 1]), CleanLine(ls[|ls| - 1]))
      case (Some(init), Some(last)) => Some(init + [last])
      case _ => None
  }

  /** The file after the cleanup; `None` when the rewrite is abandoned. */
  function CleanFile(lines: seq<string>): Option<seq<string>> {
    if lines == [] then Some([])
    else match CleanLines(lines[1..])
      case None => None
      case Some(rest) => Some([lines[0]] + rest)
  }

  /** What is on disk after the cleanup: the rewritten lines, or the file
      unchanged. */
  function Written(lines: seq<string>): seq<string> {
    match CleanFile(lines)
    case None => lines
    case Some(w) => w
  }

  lemma {:induction false} CleanLinesFails(ls: seq<string>, k: nat)
    requires k < |ls| && CleanLine(ls[k]).None?
    ensures CleanLines(ls).None?
  {
    if k < |ls| - 1 {
      assert ls[..|ls| - 1][k] == ls[k];
      CleanLinesFails(ls[..|ls| - 1], k);
    }
  }

  lemma {:induction false} CleanLinesSucceeds(ls: seq<string>)
    requires forall k :: 0 <= k < |ls| ==> CleanLine(ls[k]).Some?
    ensures CleanLines(ls).Some?
  {
    if ls != [] {
      var init := ls[..|ls| - 1];
      forall k | 0 <= k < |init| ensures CleanLine(init[k]).Some? {
        assert init[k] == ls[k];
      }
      CleanLinesSucceeds(init);
    }
  }

  /** The rewrite goes through exactly when every line after the header is
      either short or has integer bonds; then the header is kept, the length
      is kept, and every other line is its own cleaned version. */
  lemma {:induction false} CleanFileShape(lines: seq<string>)
    ensures CleanFile(lines).None? <==> exists m :: 1 <= m < |lines| && CleanLine(lines[m]).None?
    ensures CleanFile(lines).Some? ==> |CleanFile(lines).value| == |lines|
    ensures CleanFile(lines).Some? && lines != [] ==> CleanFile(lines).value[0] == lines[0]
    ensures CleanFile(lines).Some? ==>
      forall m :: 1 <= m < |lines| ==> CleanLine(lines[m]) == Some(CleanFile(lines).value[m])
  {
    CleanFileFails(lines);
    if CleanFile(lines).Some? {
      CleanFileKeeps(lines);
    }
  }

  lemma {:induction false} CleanFileFails(lines: seq<string>)
    ensures CleanFile(lines).None? <==> exists m :: 1 <= m < |lines| && CleanLine(lines[m]).None?
  {
    if lines != [] {
      var rest := lines[1..];
      if exists m :: 1 <= m < |lines| && CleanLine(lines[m]).None? {
        var m :| 1 <= m < |lines| && CleanLine(lines[m]).None?;
        assert rest[m - 1] == lines[m];
        CleanLinesFails(rest, m - 1);
      } else {
        forall k | 0 <= k < |rest| ensures CleanLine(rest[k]).Some? {
          assert rest[k] == lines[k + 1];
        }
        CleanLinesSucceeds(rest);
      }
    }
  }

  lemma {:induction false} CleanFileKeeps(lines: seq<string>)
    requires CleanFile(lines).Some?
    ensures |CleanFile(lines).value| == |lines|
    ensures lines != [] ==> CleanFile(lines).value[0] == lines[0]
    ensures forall m :: 1 <= m < |lines| ==> CleanLine(lines[m]) == Some(CleanFile(lines).value[m])
  {
    if lines != [] {
      var rest := lines[1..];
      var w := CleanFile(lines).value;
      var cleaned := CleanLines(rest).value;
      assert w == [lines[0]] + cleaned;
      forall m | 1 <= m < |lines| ensures CleanLine(lines[m]) == Some(w[m]) {
        assert rest[m - 1] == lines[m];
        assert w[m] == cleaned[m - 1];
      }
    }
  }

  /** Lines with at most six fields come through untouched. */
  lemma {:induction false} ShortLinesKept(lines: seq<string>)
    requires CleanFile(lines).Some?
    ensures forall m :: 1 <= m < |lines| && |Split(lines[m])| <= 6 ==> CleanFile(lines).value[m] == lines[m]
  {
    CleanFileShape(lines);
    var w := CleanFile(lines).value;
    forall m | 1 <= m < |lines| && |Split(lines[m])| <= 6 ensures w[m] == lines[m] {
      assert CleanLine(lines[m]) == Some(w[m]);
    }
  }

  /** A cleaned line reads back as the first six fields followed by the
      non-zero bonds in their original order. */
  lemma {:induction false} CleanedLineFields(line: string)
    requires |Split(line)| > 6 && CleanLine(line).Some?
    ensures ParseInts(Split(line)[6..]).Some?
    ensures Split(CleanLine(line).value)
         == Split(line)[..6] + IntTokens(DropZeros(ParseInts(Split(line)[6..]).value))
  {
    var parts := Split(line);
    var tokens := IntTokens(DropZeros(ParseInts(parts[6..]).value));
    assert Words(parts);
    WordsSlice(parts, 0, 6);
    assert parts[0..6] == parts[..6];
    TokensAreWords(DropZeros(ParseInts(parts[6..]).value));
    WordsAppend(parts[..6], tokens);
    assert AllSpace("\n");
    SplitJoin(parts[..6] + tokens, "\n");
  }

  lemma {:induction false} TokensAreWords(xs: seq<int>)
    ensures Words(IntTokens(xs))
  {
  }

  lemma {:induction false} IntTokensRead(xs: seq<int>)
    ensures ParseInts(IntTokens(xs)) == Some(xs)
  {
    forall k | 0 <= k < |xs| ensures ParseInt(IntTokens(xs)[k]) == Some(xs[k]) {
      ParseIntToString(xs[k]);
    }
    ParseIntsExact(IntTokens(xs), xs);
  }

  /** Cleaning a cleaned line changes nothing. */
  lemma {:induction false} CleanLineIdempotent(line: string)
    requires CleanLine(line).Some?
    ensures CleanLine(CleanLine(line).value) == CleanLine(line)
  {
    var parts := Split(line);
    if |parts| > 6 {
      var cleaned := CleanLine(line).value;
      CleanedLineFields(line);
      var kept := DropZeros(ParseInts(parts[6..]).value);
      var fields := parts[..6] + IntTokens(kept);
      assert Split(cleaned) == fields;
      if |fields| > 6 {
        assert fields[6..] == IntTokens(kept);
        assert fields[..6] == parts[..6];
        IntTokensRead(kept);
        DropZerosNoZero(kept);
      }
    }
  }

  lemma {:induction false} CleanLinesIdempotent(ls: seq<string>)
    requires CleanLines(ls).Some?
    ensures CleanLines(CleanLines(ls).value) == CleanLines(ls)
  {
    if ls != [] {
      var init := ls[..|ls| - 1];
      var w := CleanLines(ls).value;
      CleanLinesIdempotent(init);
      CleanLineIdempotent(ls[|ls| - 1]);
      assert w[..|w| - 1] == CleanLines(init).value;
    }
  }

  /** Running the cleanup on its own output changes nothing. */
  lemma {:induction false} CleanFileIdempotent(lines: seq<string>)
    requires CleanFile(lines).Some?
    ensures CleanFile(CleanFile(lines).value) == CleanFile(lines)
  {
    if lines != [] {
      var w := CleanFile(lines).value;
      CleanLinesIdempotent(lines[1..]);
      assert w[1..] == CleanLines(lines[1..]).value;
    }
  }

  /** What is written back is a fixed point of the cleanup: the cleaned file
      when the cleanup succeeds, the untouched file when it is abandoned. */
  lemma {:induction false} WrittenIsClean(lines: seq<string>)
    ensures Written(Written(lines)) == Written(lines)
  {
    if CleanFile(lines).Some? {
      CleanFileIdempotent(lines);
    }
  }

  /** The loop of new_main.py over one pair archive: `lines[m]` is
      overwritten in place, and the file is written back only if no line
      raised. */
  method CleanupConnect(file: seq<string>) returns (written: seq<string>)
    ensures written == Written(file)
  {
    if file == [] {
      return file;
    }
    var lines := new string[|file|](k requires 0 <= k < |file| => file[k]);
    assert file[1..1] == [] && lines[1..1] == [];
    for m := 1 to lines.Length
      invariant lines[0] == file[0]
      invariant CleanLines(file[1..m]) == Some(lines[1..m])
      invariant forall k :: m <= k < |file| ==> lines[k] == file[k]
    {
      var parts := Split(lines[m]);
      if |parts| > 6 {
        var bonds := ParseInts(parts[6..]);
        if bonds.None? {
          assert file[1..][m - 1] == file[m];
          CleanLinesFails(file[1..], m - 1);
          return file;
        }
        lines[m] := Join(parts[..6] + IntTokens(DropZeros(bonds.value))) + "\n";
      }
      CleanStep(file, m, lines[m]);
      assert lines[1..m + 1] == lines[1..m] + [lines[m]];
    }
    written := lines[..];
    WholeTail(file, 1);
    HeadTail(written);
  }

  lemma {:induction false} WholeTail<T>(s: seq<T>, i: nat)
    requires i <= |s|
    ensures s[i..|s|] == s[i..]
  {
  }

  lemma {:induction false} HeadTail<T>(s: seq<T>)
    requires s != []
    ensures s == [s[0]] + s[1..|s|]
  {
  }

  lemma {:induction false} CleanStep(file: seq<string>, m: nat, cleaned: string)
    requires 1 <= m < |file|
    requires CleanLines(file[1..m]).Some?
    requires CleanLine(file[m]) == Some(cleaned)
    ensures CleanLines(file[1..m + 1]) == Some(CleanLines(file[1..m]).value + [cleaned])
  {
    assert file[1..m + 1][..m - 1] == file[1..m];
  }
}
