/** `apply_mutations(sequence, mutations)`: substitutions written like `A12V`
    (expected residue, 1-based position, new residue) applied one after the
    other to a protein sequence held as a list of characters. */
module Mutations {
  import opened PyText

  /** `mutation[1:-1]`: empty when the mutation has fewer than three characters. */
  function PositionText(m: string): string {
    if |m| >= 2 then m[1..|m| - 1] else ""
  }

  /** `mutation[-1]` */
  function Replacement(m: string): char
    requires m != []
  {
    m[|m| - 1]
  }

  /** The 0-based index the mutation writes to in a sequence of length `n`,
      or `None` when it is skipped: its position is not an integer, or
      `int(pos_str) - 1` lies outside `0 .. n - 1`. */
  function Target(n: nat, m: string): Option<nat> {
    match ParseInt(PositionText(m))
    case None => None
    case Some(v) => if v - 1 < 0 || v - 1 >= n then None else Some(v - 1)
  }

  /** A mutation writes somewhere exactly when its position is an integer
      from 1 to `n`, and then to that position minus one. */
  lemma {:induction false} TargetMeaning(n: nat, m: string)
    ensures Target(n, m).Some? <==> ParseInt(PositionText(m)).Some? && 1 <= ParseInt(PositionText(m)).value <= n
    ensures Target(n, m).Some? ==> Target(n, m).value + 1 == ParseInt(PositionText(m)).value
  {
  }

  /** One pass of the loop body. The expected residue `mutation[0]` is only
      compared for a warning, so a mismatch does not stop the substitution. */
  function ApplyOne(s: seq<char>, m: string): seq<char>
    requires m != []
  {
    match Target(|s|, m)
    case None => s
    case Some(pos) => s[pos := Replacement(m)]
  }

  /** The sequence after the mutations, in list order. */
  function ApplyAll(s: seq<char>, ms: seq<string>): seq<char>
    requires forall k :: 0 <= k < |ms| ==> ms[k] != []
  {
    if ms == [] then s else ApplyOne(ApplyAll(s, ms[..|ms| - 1]), ms[|ms| - 1])
  }

  /** Index of the last mutation that writes to `k`, or -1. */
  function LastWriter(n: nat, ms: seq<string>, k: nat): (w: int)
    ensures -1 <= w < |ms|
  {
    if ms == [] then -1
    else if Target(n, ms[|ms| - 1]) == Some(k) then |ms| - 1
    else LastWriter(n, ms[..|ms| - 1], k)
  }

  /** The index found writes to `k` and no later mutation does. */
  lemma {:induction false} LastWriterIsLast(n: nat, ms: seq<string>, k: nat)
    ensures LastWriter(n, ms, k) >= 0 ==> Target(n, ms[LastWriter(n, ms, k)]) == Some(k)
    ensures forall q :: LastWriter(n, ms, k) < q < |ms| ==> Target(n, ms[q]) != Some(k)
  {
    if ms != [] && Target(n, ms[|ms| - 1]) != Some(k) {
      var init := ms[..|ms| - 1];
      LastWriterIsLast(n, init, k);
      var w := LastWriter(n, init, k);
      if w >= 0 {
        assert ms[w] == init[w];
      }
      forall q | w < q < |ms| ensures Target(n, ms[q]) != Some(k) {
        if q < |init| {
          assert ms[q] == init[q];
        }
      }
    }
  }

  /** A single mutation: the length is kept; a skipped mutation changes
      nothing; an accepted one puts its last character at its position,
      whatever was there before, and leaves every other position alone. */
  lemma {:induction false} ApplyOneEffect(s: seq<char>, m: string)
    requires m != []
    ensures |ApplyOne(s, m)| == |s|
    ensures Target(|s|, m).None? ==> ApplyOne(s, m) == s
    ensures forall k :: 0 <= k < |s| ==>
      ApplyOne(s, m)[k] == if Target(|s|, m) == Some(k) then Replacement(m) else s[k]
  {
  }

  /** Applying a list: the length is kept, and each position holds the new
      residue of the last mutation that writes to it, or its original residue
      when none does (in particular, an empty list changes nothing). Later
      mutations at the same position win; skipped ones have no effect. */
  lemma {:induction false} ApplyAllAt(s: seq<char>, ms: seq<string>)
    requires forall k :: 0 <= k < |ms| ==> ms[k] != []
    ensures |ApplyAll(s, ms)| == |s|
    ensures forall k :: 0 <= k < |s| ==>
      ApplyAll(s, ms)[k] == if LastWriter(|s|, ms, k) < 0 then s[k] else Replacement(ms[LastWriter(|s|, ms, k)])
  {
    if ms != [] {
      var init := ms[..|ms| - 1];
      var m := ms[|ms| - 1];
      ApplyAllAt(s, init);
      var before := ApplyAll(s, init);
      ApplyOneEffect(before, m);
      forall k | 0 <= k < |s|
        ensures ApplyAll(s, ms)[k]
             == if LastWriter(|s|, ms, k) < 0 then s[k] else Replacement(ms[LastWriter(|s|, ms, k)])
      {
        if Target(|s|, m) != Some(k) {
          var w := LastWriter(|s|, init, k);
          assert LastWriter(|s|, ms, k) == w;
          if w >= 0 {
            assert ms[w] == init[w];
          }
        }
      }
    }
  }

  /** A mutation that is skipped can be dropped from the list. */
  lemma {:induction false} SkippedIsDropped(s: seq<char>, ms: seq<string>, m: string)
    requires forall k :: 0 <= k < |ms| ==> ms[k] != []
    requires m != [] && Target(|s|, m).None?
    ensures forall k :: 0 <= k < |ms + [m]| ==> (ms + [m])[k] != []
    ensures ApplyAll(s, ms + [m]) == ApplyAll(s, ms)
  {
    assert (ms + [m])[..|ms|] == ms;
    ApplyAllAt(s, ms);
  }

  /** The loop of `apply_mutations` over `seq_list`, updated in place. */
  method ApplyMutations(sequence: string, mutations: seq<string>) returns (r: string)
    requires forall k :: 0 <= k < |mutations| ==> mutations[k] != []
    ensures r == ApplyAll(sequence, mutations)
  {
    var seqList := new char[|sequence|](k requires 0 <= k < |sequence| => sequence[k]);
    assert seqList[..] == sequence;
    for i := 0 to |mutations|
      invariant seqList[..] == ApplyAll(sequence, mutations[..i])
    {
      assert mutations[..i + 1][..i] == mutations[..i];
      ghost var before := seqList[..];
      var mutation := mutations[i];
      var replacement := mutation[|mutation| - 1];
      var posText := if |mutation| >= 2 then mutation[1..|mutation| - 1] else "";
      assert posText == PositionText(mutation);
      var parsed := ParseInt(posText);
      if parsed.None? {
        assert ApplyOne(before, mutation) == before;
        continue;
      }
      var pos := parsed.value - 1;
      if pos < 0 || pos >= seqList.Length {
        assert ApplyOne(before, mutation) == before;
        continue;
      }
      // The comparison with `mutation[0]` only decides whether to warn.
      seqList[pos] := replacement;
      assert seqList[..] == before[pos := replacement];
    }
    assert mutations[..|mutations|] == mutations;
    r := seqList[..];
  }
}
