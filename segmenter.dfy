/** `atoms_to_residues`: grouping a frame's atoms into residues by the
    backbone triad N, CA, C. The three copies of the function (in new_main.py,
    read_sep_arc.py and read_tinker_xyz.py) are identical. */
module Segmenter {
  import opened ArcReader

  /** The atoms at `t`, `t + 1`, `t + 2` are N, CA, C. */
  predicate TriadAt(s: seq<Atom>, t: int)
    requires 0 <= t && t + 3 <= |s|
  {
    s[t].symbol == "N" && s[t + 1].symbol == "CA" && s[t + 2].symbol == "C"
  }

  /** No contiguous N, CA, C run anywhere in `s`. */
  predicate NoTriad(s: seq<Atom>) {
    forall t :: 0 <= t && t + 3 <= |s| ==> !TriadAt(s, t)
  }

  predicate StartsWithTriad(s: seq<Atom>) {
    |s| >= 3 && TriadAt(s, 0)
  }

  /** A non-empty sequence is its front followed by its last element. */
  lemma {:induction false} FrontLast<T>(s: seq<T>)
    requires s != []
    ensures s == s[..|s| - 1] + [s[|s| - 1]]
  {
  }

  /** The residues laid end to end. */
  function Flatten(rs: seq<seq<Atom>>): seq<Atom> {
    if rs == [] then [] else Flatten(rs[..|rs| - 1]) + rs[|rs| - 1]
  }

  lemma {:induction false} FlattenAppend(rs: seq<seq<Atom>>, r: seq<Atom>)
    ensures Flatten(rs + [r]) == Flatten(rs) + r
  {
    assert (rs + [r])[..|rs|] == rs;
  }

  lemma {:induction false} FlattenOne(r: seq<Atom>)
    ensures Flatten([r]) == r
  {
    assert [r][..0] == [];
  }

  /** Residue 0 holds no triad; every later residue starts with one and holds
      no other. */
  ghost predicate Shaped(rs: seq<seq<Atom>>) {
    && (rs != [] ==> NoTriad(rs[0]))
    && forall k :: 1 <= k < |rs| ==> StartsWithTriad(rs[k]) && NoTriad(rs[k][1..])
  }

  /** What `atoms_to_residues(atoms)` promises about its result `rs`. */
  ghost predicate IsResidueSplit(atoms: seq<Atom>, rs: seq<seq<Atom>>) {
    && Flatten(rs) == atoms
    && (rs == [] <==> atoms == [])
    && (rs != [] ==> rs[|rs| - 1] != [])
    && Shaped(rs)
  }

  // ------------------------------------------------------------ the loop

  lemma {:induction false} NoTriadPrefix(s: seq<Atom>, n: nat)
    requires n <= |s| && NoTriad(s)
    ensures NoTriad(s[..n])
  {
    forall t | 0 <= t && t + 3 <= n ensures !TriadAt(s[..n], t) {
      assert !TriadAt(s, t);
    }
  }

  /** Appending an atom that does not complete a triad keeps a run free of
      triads. */
  lemma {:induction false} NoTriadExtend(s: seq<Atom>, a: Atom)
    requires NoTriad(s)
    requires |s| >= 2 ==> !TriadAt(s + [a], |s| - 2)
    ensures NoTriad(s + [a])
  {
    var s' := s + [a];
    forall t | 0 <= t && t + 3 <= |s'| ensures !TriadAt(s', t) {
      if t + 3 <= |s| {
        assert !TriadAt(s, t);
      }
    }
  }

  lemma {:induction false} ShapedAppend(rs: seq<seq<Atom>>, r: seq<Atom>)
    requires Shaped(rs)
    requires rs == [] ==> NoTriad(r)
    requires rs != [] ==> StartsWithTriad(r) && NoTriad(r[1..])
    ensures Shaped(rs + [r])
  {
    var rs' := rs + [r];
    forall k | 1 <= k < |rs'| ensures StartsWithTriad(rs'[k]) && NoTriad(rs'[k][1..]) {
      if k < |rs| {
        assert rs'[k] == rs[k];
      }
    }
  }

  /** The state of the loop after each atom: the residues sealed so far and
      the atoms accumulated since. */
  ghost predicate LoopState(residues: seq<seq<Atom>>, current: seq<Atom>) {
    && Shaped(residues)
    && (residues == [] ==> NoTriad(current))
    && (residues != [] ==> StartsWithTriad(current) && NoTriad(current[1..]))
  }

  /** The sealed piece is shaped like the residue it becomes. */
  lemma {:induction false} SealedShape(residues: seq<seq<Atom>>, before: seq<Atom>, atom: Atom)
    requires LoopState(residues, before)
    requires |before + [atom]| >= 3 && TriadAt(before + [atom], |before| - 2)
    ensures residues == [] ==> NoTriad((before + [atom])[..|before| - 2])
    ensures residues != [] ==> StartsWithTriad((before + [atom])[..|before| - 2])
    ensures residues != [] ==> NoTriad((before + [atom])[..|before| - 2][1..])
  {
    var current := before + [atom];
    var n := |current|;
    var sealed := current[..n - 3];
    assert sealed == before[..n - 3];
    if residues == [] {
      NoTriadPrefix(before, n - 3);
    } else {
      SealedLater(before, atom);
    }
  }

  lemma {:induction false} SealedLater(before: seq<Atom>, atom: Atom)
    requires StartsWithTriad(before) && NoTriad(before[1..])
    requires |before + [atom]| >= 3 && TriadAt(before + [atom], |before| - 2)
    ensures |before| >= 5
    ensures StartsWithTriad(before[..|before| - 2]) && NoTriad(before[..|before| - 2][1..])
  {
    var n := |before| + 1;
    assert n - 3 >= 3 by {
      assert before[1].symbol == "CA" && before[2].symbol == "C";
    }
    var sealed := before[..n - 3];
    assert sealed[..3] == before[..3];
    assert sealed[1..] == before[1..][..n - 4];
    NoTriadPrefix(before[1..], n - 4);
  }

  /** The step that only accumulates the atom. */
  lemma {:induction false} ExtendStep(residues: seq<seq<Atom>>, before: seq<Atom>, atom: Atom)
    requires LoopState(residues, before)
    requires !(|before + [atom]| >= 3 && TriadAt(before + [atom], |before| - 2))
    ensures LoopState(residues, before + [atom])
  {
    if residues == [] {
      NoTriadExtend(before, atom);
    } else {
      var current := before + [atom];
      assert current[1..] == before[1..] + [atom];
      assert current[1..] + [] == current[1..];
      NoTriadExtend(before[1..], atom);
    }
  }

  /** After the loop: the atoms still accumulated are appended if any. */
  lemma {:induction false} FinalStep(atoms: seq<Atom>, residues: seq<seq<Atom>>, current: seq<Atom>)
    requires Flatten(residues) + current == atoms
    requires LoopState(residues, current)
    ensures IsResidueSplit(atoms, if current != [] then residues + [current] else residues)
  {
    if current != [] {
      FlattenAppend(residues, current);
      ShapedAppend(residues, current);
    }
  }

  /** The residues sealed so far and the atoms accumulated since. */
  datatype Scanned = Scanned(sealed: seq<seq<Atom>>, current: seq<Atom>)

  /** One pass of the loop body: append the atom, and when the last three
      atoms are N, CA, C, seal what came before them. */
  function Step(st: Scanned, atom: Atom): Scanned {
    var current := st.current + [atom];
    var n := |current|;
    if n >= 3 && TriadAt(current, n - 3) then Scanned(st.sealed + [current[..n - 3]], current[n - 3..])
    else Scanned(st.sealed, current)
  }

  /** The loop state after it has seen `atoms`. */
  function Scan(atoms: seq<Atom>): Scanned {
    if atoms == [] then Scanned([], []) else Step(Scan(atoms[..|atoms| - 1]), atoms[|atoms| - 1])
  }

  /** After the loop: the accumulated atoms are appended if there are any. */
  function Finish(st: Scanned): seq<seq<Atom>> {
    if st.current != [] then st.sealed + [st.current] else st.sealed
  }

  /** One step keeps every atom, in order. */
  lemma {:induction false} StepAtoms(st: Scanned, atom: Atom)
    ensures Flatten(Step(st, atom).sealed) + Step(st, atom).current == Flatten(st.sealed) + st.current + [atom]
  {
    var current := st.current + [atom];
    var n := |current|;
    if n >= 3 && TriadAt(current, n - 3) {
      FlattenAppend(st.sealed, current[..n - 3]);
      assert current[..n - 3] + current[n - 3..] == current;
    }
  }

  /** One step keeps the residue shape. */
  lemma {:induction false} StepShape(st: Scanned, atom: Atom)
    requires LoopState(st.sealed, st.current)
    ensures LoopState(Step(st, atom).sealed, Step(st, atom).current)
  {
    var current := st.current + [atom];
    var n := |current|;
    if n >= 3 && TriadAt(current, n - 3) {
      SealStep(st, atom);
    } else {
      ExtendStep(st.sealed, st.current, atom);
    }
  }

  /** The step that seals `current[:-3]` and restarts from the triad. */
  lemma {:induction false} SealStep(st: Scanned, atom: Atom)
    requires LoopState(st.sealed, st.current)
    requires |st.current| >= 2 && TriadAt(st.current + [atom], |st.current| - 2)
    ensures LoopState(Step(st, atom).sealed, Step(st, atom).current)
  {
    var current := st.current + [atom];
    var n := |current|;
    var triad := current[n - 3..];
    assert Step(st, atom) == Scanned(st.sealed + [current[..n - 3]], triad);
    SealedShape(st.sealed, st.current, atom);
    ShapedAppend(st.sealed, current[..n - 3]);
    assert StartsWithTriad(triad) && NoTriad(triad[1..]);
  }

  /** The loop keeps every atom, in order. */
  lemma {:induction false} ScanAtoms(atoms: seq<Atom>)
    ensures Flatten(Scan(atoms).sealed) + Scan(atoms).current == atoms
  {
    if atoms != [] {
      var init := atoms[..|atoms| - 1];
      FrontLast(atoms);
      ScanAtoms(init);
      StepAtoms(Scan(init), atoms[|atoms| - 1]);
    }
  }

  /** The loop keeps the residue shape. */
  lemma {:induction false} ScanShape(atoms: seq<Atom>)
    ensures LoopState(Scan(atoms).sealed, Scan(atoms).current)
  {
    if atoms != [] {
      ScanShape(atoms[..|atoms| - 1]);
      StepShape(Scan(atoms[..|atoms| - 1]), atoms[|atoms| - 1]);
    }
  }

  /** What the loop and the final append compute is a residue split, and so
      the unique one. */
  lemma {:induction false} ScanIsSplit(atoms: seq<Atom>)
    ensures IsResidueSplit(atoms, Finish(Scan(atoms)))
    ensures Finish(Scan(atoms)) == Residues(atoms)
  {
    ScanAtoms(atoms);
    ScanShape(atoms);
    FinalStep(atoms, Scan(atoms).sealed, Scan(atoms).current);
    SplitIsCut(atoms, Finish(Scan(atoms)));
  }

  /** `atoms_to_residues(atoms_list)` */
  method AtomsToResidues(atoms: seq<Atom>) returns (residues: seq<seq<Atom>>)
    ensures IsResidueSplit(atoms, residues)
    ensures residues == Residues(atoms)
  {
    residues := [];
    var current: seq<Atom> := [];
    for i := 0 to |atoms|
      invariant Scanned(residues, current) == Scan(atoms[..i])
    {
      assert atoms[..i + 1][..i] == atoms[..i];
      current := current + [atoms[i]];
      var n := |current|;
      if n >= 3 && current[n - 3].symbol == "N" && current[n - 2].symbol == "CA" && current[n - 1].symbol == "C" {
        residues := residues + [current[..n - 3]];
        current := current[n - 3..];
      }
    }
    assert atoms[..|atoms|] == atoms;
    if current != [] {
      residues := residues + [current];
    }
    ScanIsSplit(atoms);
  }

  // ------------------------------------------------------------ reference

  /** The largest `t < e` with a triad at `t`, or -1. */
  function LastTriadBefore(s: seq<Atom>, e: nat): (t: int)
    requires e + 2 <= |s|
    ensures -1 <= t < e
    ensures t >= 0 ==> TriadAt(s, t)
    ensures forall q :: t < q < e ==> !TriadAt(s, q)
  {
    if e == 0 then -1
    else if TriadAt(s, e - 1) then e - 1
    else LastTriadBefore(s, e - 1)
  }

  /** Cut a non-empty run of atoms before every N, CA, C triad: the pieces
      are the residues. */
  function CutAtTriads(atoms: seq<Atom>): seq<seq<Atom>>
    decreases |atoms|
  {
    var t := if |atoms| >= 3 then LastTriadBefore(atoms, |atoms| - 2) else -1;
    if t < 0 then [atoms] else CutAtTriads(atoms[..t]) + [atoms[t..]]
  }

  /** An independent definition of the segmentation. */
  function Residues(atoms: seq<Atom>): seq<seq<Atom>> {
    if atoms == [] then [] else CutAtTriads(atoms)
  }

  lemma {:induction false} ShapedIsCut(rs: seq<seq<Atom>>)
    requires rs != [] && Shaped(rs)
    ensures rs == CutAtTriads(Flatten(rs))
  {
    if |rs| == 1 {
      assert rs == [] + [rs[0]];
      FlattenAppend([], rs[0]);
      assert Flatten(rs) == rs[0];
      CutSingle(rs[0]);
    } else {
      var init := rs[..|rs| - 1];
      var last := rs[|rs| - 1];
      assert Shaped(init) by {
        forall k | 1 <= k < |init| ensures StartsWithTriad(init[k]) && NoTriad(init[k][1..]) {
          assert init[k] == rs[k];
        }
      }
      FrontLast(rs);
      ShapedIsCut(init);
      CutAfterLast(Flatten(init), last);
    }
  }

  /** A run without a triad is one piece. */
  lemma {:induction false} CutSingle(r: seq<Atom>)
    requires NoTriad(r)
    ensures CutAtTriads(r) == [r]
  {
    assert |r| >= 3 ==> LastTriadBefore(r, |r| - 2) < 0;
  }

  /** A last residue that starts with a triad and holds no other is the last
      piece of the cut. */
  lemma {:induction false} CutAfterLast(a: seq<Atom>, last: seq<Atom>)
    requires StartsWithTriad(last) && NoTriad(last[1..])
    ensures CutAtTriads(a + last) == CutAtTriads(a) + [last]
  {
    LastResidueCut(a, last);
    var s := a + last;
    assert s[..|a|] == a;
    assert s[|a|..] == last;
  }

  /** A last residue that starts with a triad and holds no other begins at
      the last triad of the atoms. */
  lemma {:induction false} LastResidueCut(a: seq<Atom>, last: seq<Atom>)
    requires StartsWithTriad(last) && NoTriad(last[1..])
    ensures |a + last| >= 3 && LastTriadBefore(a + last, |a + last| - 2) == |a|
  {
    var s := a + last;
    assert TriadAt(s, |a|) by {
      assert s[|a|] == last[0] && s[|a| + 1] == last[1] && s[|a| + 2] == last[2];
    }
    forall q | |a| < q && q + 3 <= |s| ensures !TriadAt(s, q) {
      var u := q - |a| - 1;
      assert s[q] == last[1..][u] && s[q + 1] == last[1..][u + 1] && s[q + 2] == last[1..][u + 2];
      assert !TriadAt(last[1..], u);
    }
  }

  /** `atoms_to_residues` has exactly one possible result: the run cut before
      every triad. */
  lemma {:induction false} SplitIsCut(atoms: seq<Atom>, rs: seq<seq<Atom>>)
    requires IsResidueSplit(atoms, rs)
    ensures rs == Residues(atoms)
  {
    if atoms != [] {
      ShapedIsCut(rs);
    }
  }

  // ------------------------------------------------------------ properties

  /** Residue 0 is empty exactly when the atoms begin with N, CA, C. */
  lemma {:induction false} FirstResidueEmpty(atoms: seq<Atom>, rs: seq<seq<Atom>>)
    requires IsResidueSplit(atoms, rs)
    ensures rs != [] && rs[0] == [] <==> |atoms| >= 3 && TriadAt(atoms, 0)
  {
    if rs != [] {
      FirstResidue(rs);
      if |rs| >= 2 {
        SecondResidue(rs);
      }
      var r0 := rs[0];
      assert |r0| >= 3 ==> (TriadAt(r0, 0) <==> |atoms| >= 3 && TriadAt(atoms, 0));
      assert |rs| >= 2 ==> StartsWithTriad(rs[1]);
      assert |rs| >= 2 ==> atoms[|r0|] == rs[1][0] && rs[1][0].symbol == "N";
      assert |rs| >= 2 && r0 == [] ==> atoms[1] == rs[1][1] && atoms[2] == rs[1][2];
      assert |rs| == 1 ==> atoms == r0 && r0 != [];
    }
  }

  /** Where the first residue sits in the atoms. */
  lemma {:induction false} FirstResidue(rs: seq<seq<Atom>>)
    requires rs != []
    ensures |rs[0]| <= |Flatten(rs)|
    ensures forall k :: 0 <= k < |rs[0]| ==> Flatten(rs)[k] == rs[0][k]
    ensures |rs| == 1 ==> Flatten(rs) == rs[0]
  {
    assert rs[..1] == [rs[0]];
    FlattenOne(rs[0]);
    FlattenPrefix(rs, 1);
    assert rs[..0] == [];
    forall k | 0 <= k < |rs[0]| ensures Flatten(rs)[k] == rs[0][k] {
      ResidueAt(rs, 0, k);
    }
    if |rs| == 1 {
      assert rs[..1] == rs;
    }
  }

  /** Where the second residue sits in the atoms. */
  lemma {:induction false} SecondResidue(rs: seq<seq<Atom>>)
    requires |rs| >= 2
    ensures |rs[0]| + |rs[1]| <= |Flatten(rs)|
    ensures forall k :: 0 <= k < |rs[1]| ==> Flatten(rs)[|rs[0]| + k] == rs[1][k]
  {
    assert rs[..1] == [rs[0]];
    FlattenOne(rs[0]);
    OffsetGrows(rs, 1, 2);
    FlattenPrefix(rs, 2);
    forall k | 0 <= k < |rs[1]| ensures Flatten(rs)[|rs[0]| + k] == rs[1][k] {
      ResidueAt(rs, 1, k);
    }
  }

  /** The atoms of the first `k` residues are a prefix of all atoms. */
  lemma {:induction false} FlattenPrefix(rs: seq<seq<Atom>>, k: nat)
    requires k <= |rs|
    ensures |Flatten(rs[..k])| <= |Flatten(rs)|
    ensures Flatten(rs)[..|Flatten(rs[..k])|] == Flatten(rs[..k])
    decreases |rs| - k
  {
    if k == |rs| {
      assert rs[..k] == rs;
    } else {
      FlattenPrefix(rs, k + 1);
      assert rs[..k + 1][..k] == rs[..k];
      assert Flatten(rs[..k + 1]) == Flatten(rs[..k]) + rs[k];
    }
  }

  /** Atom `t` of residue `k` sits at offset `|Flatten(rs[..k])| + t` of the
      flattened run. */
  lemma {:induction false} ResidueAt(rs: seq<seq<Atom>>, k: nat, t: nat)
    requires k < |rs| && t < |rs[k]|
    ensures |Flatten(rs[..k])| + t < |Flatten(rs)|
    ensures Flatten(rs)[|Flatten(rs[..k])| + t] == rs[k][t]
  {
    FlattenPrefix(rs, k + 1);
    assert rs[..k + 1][..k] == rs[..k];
    var p := Flatten(rs[..k + 1]);
    assert p == Flatten(rs[..k]) + rs[k];
    assert Flatten(rs)[|Flatten(rs[..k])| + t] == p[|Flatten(rs[..k])| + t];
  }

  /** Residue `j` starts no earlier than where residue `i < j` ends. */
  lemma {:induction false} OffsetGrows(rs: seq<seq<Atom>>, i: nat, j: nat)
    requires i < j <= |rs|
    ensures |Flatten(rs[..i])| + |rs[i]| <= |Flatten(rs[..j])|
    ensures j == i + 1 ==> |Flatten(rs[..i])| + |rs[i]| == |Flatten(rs[..j])|
  {
    var pre := rs[..j];
    FlattenPrefix(pre, i + 1);
    assert pre[..i + 1] == rs[..i + 1];
    assert rs[..i + 1][..i] == rs[..i];
    assert Flatten(rs[..i + 1]) == Flatten(rs[..i]) + rs[i];
  }

  function Sym(serial: int, symbol: string): Atom {
    Atom(serial, symbol, "0.0", "0.0", "0.0", 0, [])
  }

  /** The atoms X, N, CA, C, X, N, CA, C give three residues: the first triad
      seals [X], the second seals [N, CA, C, X], and the trailing triad is the
      last residue. */
  lemma {:induction false} EightAtomExample()
    ensures Residues([Sym(1, "X"), Sym(2, "N"), Sym(3, "CA"), Sym(4, "C"),
                      Sym(5, "X"), Sym(6, "N"), Sym(7, "CA"), Sym(8, "C")])
         == [[Sym(1, "X")],
             [Sym(2, "N"), Sym(3, "CA"), Sym(4, "C"), Sym(5, "X")],
             [Sym(6, "N"), Sym(7, "CA"), Sym(8, "C")]]
  {
    var r0 := [Sym(1, "X")];
    var r1 := [Sym(2, "N"), Sym(3, "CA"), Sym(4, "C"), Sym(5, "X")];
    var r2 := [Sym(6, "N"), Sym(7, "CA"), Sym(8, "C")];
    var rs := [r0, r1, r2];
    FlattenAppend([], r0);
    FlattenAppend([r0], r1);
    FlattenAppend([r0, r1], r2);
    assert [r0, r1] + [r2] == rs;
    assert [r0] + [r1] == [r0, r1];
    assert Flatten(rs) == r0 + r1 + r2;
    assert !TriadAt(r1[1..], 0);
    assert Shaped(rs);
    SplitIsCut(r0 + r1 + r2, rs);
    assert r0 + r1 + r2 == [Sym(1, "X"), Sym(2, "N"), Sym(3, "CA"), Sym(4, "C"),
                            Sym(5, "X"), Sym(6, "N"), Sym(7, "CA"), Sym(8, "C")];
  }
}
