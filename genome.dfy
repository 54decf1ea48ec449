/** The genome: 109 small integers. Addresses 0..100 are the instruction
    tape, 101..108 fixed-purpose parameters. This module holds the pointer
    arithmetic of the tape, single-point mutation, colour drift and the
    kin test that compares two genomes. */
module Genome {
  import opened Basics

  const GenomeLength: nat := 109
  /** The last address of the instruction tape (the tape has 101 slots). */
  const TapeEnd: int := 100
  const MaxGene: int := 100

  // Positions of the fixed-purpose genes.
  const StartGene: nat := 101
  const LifespanGene: nat := 102
  const MaxEnergyGene: nat := 103
  const MinEnergyGene: nat := 104
  const KeepPercentGene: nat := 105
  const DivisionGene: nat := 106
  const MutationGene: nat := 107
  const BreedEachGene: nat := 108

  predicate IsGene(v: int) { 0 <= v <= MaxGene }

  predicate IsAddr(a: int) { 0 <= a <= TapeEnd }

  predicate ValidGenome(g: seq<int>) {
    |g| == GenomeLength && forall i :: 0 <= i < |g| ==> IsGene(g[i])
  }

  /** Advance the instruction pointer: 100 wraps to 0, otherwise add one.
      On the tape this is addition modulo 101. */
  function NextGenAddr(a: int): (r: int)
    ensures IsAddr(a) ==> IsAddr(r) && r == (a + 1) % 101
    ensures a == TapeEnd ==> r == 0
  {
    if a + 1 == TapeEnd + 1 then 0 else a + 1
  }

  /** Jump through the gene under the pointer: the gene is a one-based
      target, so the pointer becomes gene - 1, and -1 wraps to 100. The
      loop's next advance therefore lands exactly on that gene's address. */
  function GoToGenomeAddr(g: seq<int>, a: int): (r: int)
    requires 0 <= a < |g|
    ensures IsGene(g[a]) ==> IsAddr(r) && NextGenAddr(r) == g[a]
    ensures g[a] == 0 ==> r == TapeEnd
  {
    var t := g[a] - 1;
    if t == -1 then TapeEnd else t
  }

  /** Number of positions below `n` at which `a` and `b` differ. */
  function Mismatches(a: seq<int>, b: seq<int>, n: nat): nat
    requires n <= |a| && n <= |b|
  {
    if n == 0 then 0
    else Mismatches(a, b, n - 1) + (if a[n - 1] != b[n - 1] then 1 else 0)
  }

  /** The positions where two genomes differ, as a set. */
  ghost function DiffSet(a: seq<int>, b: seq<int>, n: nat): set<nat>
    requires n <= |a| && n <= |b|
  {
    set i: nat | i < n && a[i] != b[i]
  }

  /** Mismatches counts exactly the differing positions. */
  lemma {:induction false} MismatchesCountsDiffs(a: seq<int>, b: seq<int>, n: nat)
    requires n <= |a| && n <= |b|
    ensures Mismatches(a, b, n) == |DiffSet(a, b, n)|
  {
    if n > 0 {
      MismatchesCountsDiffs(a, b, n - 1);
      if a[n - 1] != b[n - 1] {
        assert DiffSet(a, b, n) == DiffSet(a, b, n - 1) + {n - 1};
      } else {
        assert DiffSet(a, b, n) == DiffSet(a, b, n - 1);
      }
    } else {
      assert DiffSet(a, b, n) == {};
    }
  }

  /** Counting over a longer prefix never finds fewer differences. */
  lemma {:induction false} MismatchesMonotone(a: seq<int>, b: seq<int>, i: nat, n: nat)
    requires i <= n <= |a| && n <= |b|
    ensures Mismatches(a, b, i) <= Mismatches(a, b, n)
    decreases n - i
  {
    if i < n {
      MismatchesMonotone(a, b, i, n - 1);
    }
  }

  /** Two genomes are kin when, compared position by position over the
      shorter of the two, they differ in at most two places. */
  predicate Kin(a: seq<int>, b: seq<int>) {
    Mismatches(a, b, Min(|a|, |b|)) <= 2
  }

  /** The kin test of opcode 8, as the source runs it: walk both genomes
      together, count differences, give up as soon as there are three. */
  method IsRelative(a: seq<int>, b: seq<int>) returns (kin: bool)
    ensures kin <==> Kin(a, b)
  {
    var n := Min(|a|, |b|);
    var diff := 0;
    var i := 0;
    while i < n
      invariant 0 <= i <= n
      invariant diff == Mismatches(a, b, i)
      invariant diff <= 2
    {
      if a[i] != b[i] {
        diff := diff + 1;
        if diff > 2 {
          MismatchesMonotone(a, b, i + 1, n);
          return false;
        }
      }
      i := i + 1;
    }
    return true;
  }

  /** Single-point mutation: a copy of the genome with position `index`
      replaced by `value` (the two draws of the source). The parent is a
      value and is not touched. */
  function MakeMutant(g: seq<int>, index: int, value: int): (r: seq<int>)
    requires 0 <= index <= |g| - 1 && IsGene(value)
    ensures |r| == |g| && r[index] == value
    ensures forall j :: 0 <= j < |g| && j != index ==> r[j] == g[j]
    ensures ValidGenome(g) ==> ValidGenome(r)
  {
    g[index := value]
  }

  /** The mutant differs from its parent in at most one position. */
  lemma MutantDiffersAtMostOnce(g: seq<int>, index: int, value: int)
    requires 0 <= index <= |g| - 1 && IsGene(value)
    ensures Mismatches(g, MakeMutant(g, index, value), |g|) <= 1
  {
    var m := MakeMutant(g, index, value);
    MismatchesCountsDiffs(g, m, |g|);
    assert DiffSet(g, m, |g|) == if g[index] != value then {index as nat} else {};
  }

  /** A mutant is always kin of its parent. */
  lemma MutantIsKin(g: seq<int>, index: int, value: int)
    requires 0 <= index <= |g| - 1 && IsGene(value)
    ensures Kin(g, MakeMutant(g, index, value))
  {
    MutantDiffersAtMostOnce(g, index, value);
  }

  // Colours are three channels.
  predicate ValidColour(c: seq<int>) {
    |c| == 3 && forall k :: 0 <= k < 3 ==> 0 <= c[k] <= 255
  }

  /** Colour drift on a mutation: channel `channel` moves by `shift`, a draw
      from [-40, 40], and is clamped into [0, 255]; the other channels are
      kept. */
  function DriftColour(c: seq<int>, channel: int, shift: int): (r: seq<int>)
    requires |c| == 3 && 0 <= channel <= 2 && -40 <= shift <= 40
    ensures |r| == 3 && 0 <= r[channel] <= 255
    ensures forall k :: 0 <= k < 3 && k != channel ==> r[k] == c[k]
    ensures 0 <= c[channel] <= 255 ==> -40 <= r[channel] - c[channel] <= 40
    ensures ValidColour(c) ==> ValidColour(r)
  {
    c[channel := ClampChannel(c[channel] + shift)]
  }
}
