/**
 Pass 1 of CAT::runOnFunction: one linear scan over the instructions of the
 reachable blocks, creating a DFA_SET record per instruction, setting GEN for
 the defining CAT calls and recording kill relations on both sides.
 */
module GenKill {
  import opened BitSets
  import opened Ir
  import opened Cat
  import opened DfaSets

  /**
   Index `j` belongs to KILL of index `a` when the later of the two is a
   defining call and the earlier one is killed by it. Only the later
   instruction is ever asked whether it kills: it is compared with the records
   that already exist when it is scanned.
   */
  ghost predicate Kills(insts: seq<Instr>, a: int, j: int) {
    && 0 <= a < |insts| && 0 <= j < |insts|
    && ((a < j && IsDefinition(insts[j]) && IsKilledBy(insts[a], insts[j])) ||
        (j < a && IsDefinition(insts[a]) && IsKilledBy(insts[j], insts[a])))
  }

  /**
   Record `a` once the instructions `insts` have been scanned and the kill scan
   has compared it with the first `m` of them: it belongs to instruction `a`,
   GEN is {a} exactly for a defining call, KILL holds exactly the indices below
   `m` related to `a` by `Kills`, and IN and OUT are still empty.
   */
  ghost predicate ScannedUpTo(insts: seq<Instr>, a: int, d: DfaSet, m: int) {
    && 0 <= a < |insts|
    && d.inst == insts[a]
    && d.inSet == [] && d.outSet == []
    && |d.genSet| <= |insts| && |d.killSet| <= |insts|
    && Members(d.genSet) == GenOf(insts, a)
    && Members(d.killSet) == KillsBelow(insts, a, m)
  }

  /** GEN of index `a`: {a} for a defining call, empty otherwise. */
  ghost function GenOf(insts: seq<Instr>, a: int): set<int> {
    if 0 <= a < |insts| && IsDefinition(insts[a]) then {a} else {}
  }

  /** The indices below `m` that `Kills` relates to `a`. */
  ghost function KillsBelow(insts: seq<Instr>, a: int, m: int): set<int> {
    set j | 0 <= j < m && Kills(insts, a, j)
  }

  ghost predicate Scanned(insts: seq<Instr>, a: int, d: DfaSet) {
    ScannedUpTo(insts, a, d, |insts|)
  }

  /** The records of `dfa` are the first ones of `insts`, each in its scanned state. */
  ghost predicate AllScanned(insts: seq<Instr>, dfa: seq<DfaSet>) {
    |dfa| <= |insts| && forall a :: 0 <= a < |dfa| ==> Scanned(insts, a, dfa[a])
  }

  /** There is one record per instruction of `insts`, each in its scanned state. */
  ghost predicate GenKillSets(insts: seq<Instr>, dfa: seq<DfaSet>) {
    |dfa| == |insts| && AllScanned(insts, dfa)
  }

  lemma AppendScanned(insts: seq<Instr>, dfa: seq<DfaSet>, d: DfaSet)
    requires AllScanned(insts, dfa)
    requires Scanned(insts, |dfa|, d)
    ensures AllScanned(insts, dfa + [d])
  {
    forall a | 0 <= a < |dfa| + 1
      ensures Scanned(insts, a, (dfa + [d])[a])
    {
      if a < |dfa| {
        assert (dfa + [d])[a] == dfa[a];
      }
    }
  }

  /**
   Scanning one more instruction updates an earlier record exactly by the kill
   scan's hit: that record gains the new index in KILL when the new
   instruction is a defining call that kills it, and is otherwise unchanged.
   */
  lemma ExtendScanned(insts: seq<Instr>, inst: Instr, a: nat, d: DfaSet)
    requires a < |insts|
    requires Scanned(insts, a, d)
    ensures Scanned(insts + [inst], a,
      if IsDefinition(inst) && IsKilledBy(d.inst, inst) then Add(d, |insts|, KILL) else d)
  {
    var insts' := insts + [inst];
    var n := |insts|;
    assert insts'[a] == insts[a] && insts'[n] == inst;
    var d' := if IsDefinition(inst) && IsKilledBy(d.inst, inst) then Add(d, n, KILL) else d;
    forall j | 0 <= j < n
      ensures Kills(insts', a, j) == Kills(insts, a, j)
    {
      assert insts'[j] == insts[j];
    }
    assert KillsBelow(insts', a, n + 1) == KillsBelow(insts, a, n) + (if Kills(insts', a, n) then {n} else {});
  }

  /**
   One comparison of the kill scan for the defining call `inst`, which gets
   index `|insts|`: when earlier instruction `i` is killed by it, `i` joins
   the new record's KILL.
   */
  lemma KillScanStep(insts: seq<Instr>, inst: Instr, i: nat, rec: DfaSet)
    requires i < |insts|
    requires IsDefinition(inst)
    requires ScannedUpTo(insts + [inst], |insts|, rec, i)
    ensures ScannedUpTo(insts + [inst], |insts|, if IsKilledBy(insts[i], inst) then Add(rec, i, KILL) else rec, i + 1)
  {
    var insts' := insts + [inst];
    assert insts'[i] == insts[i] && insts'[|insts|] == inst;
  }

  /** A new record starts with GEN = {index} for a defining call, and nothing else. */
  lemma FreshScanned(insts: seq<Instr>, inst: Instr)
    ensures ScannedUpTo(insts + [inst], |insts|,
      if IsDefinition(inst) then Add(Fresh(inst), |insts|, GEN) else Fresh(inst), 0)
  {
    assert (insts + [inst])[|insts|] == inst;
  }

  /**
   The kill scan for the defining call `inst`, whose fresh record `rec` gets
   index `|dfa|`: every earlier record is compared with `inst`, and on a hit
   both records are marked.
   */
  method KillScan(ghost insts: seq<Instr>, dfa: seq<DfaSet>, inst: Instr, rec: DfaSet) returns (dfa': seq<DfaSet>)
    requires GenKillSets(insts, dfa)
    requires IsDefinition(inst)
    requires ScannedUpTo(insts + [inst], |dfa|, rec, 0)
    ensures GenKillSets(insts + [inst], dfa')
  {
    var index := |dfa|;
    ghost var insts' := insts + [inst];
    var rec' := rec;
    // The records before `index`, each after its comparison with `inst`.
    var updated: seq<DfaSet> := [];
    var i := 0;
    while i < |dfa|
      invariant 0 <= i <= |dfa| && |updated| == i
      invariant ScannedUpTo(insts', index, rec', i)
      invariant AllScanned(insts', updated)
    {
      var d := dfa[i];
      assert Scanned(insts, i, d);
      ExtendScanned(insts, inst, i, d);
      KillScanStep(insts, inst, i, rec');
      if IsKilledBy(d.inst, rec'.inst) {
        d := Add(d, index, KILL);
        rec' := Add(rec', i, KILL);
      }
      AppendScanned(insts', updated, d);
      updated := updated + [d];
      i := i + 1;
    }
    AppendScanned(insts', updated, rec');
    dfa' := updated + [rec'];
  }

  /**
   The body of the Pass 1 loop for one instruction: a fresh record with index
   `|dfa|`, GEN = {index} for a defining call, and the kill scan over every
   earlier record, marking both sides on a hit. Non-defining instructions get
   a record with empty sets and change no other record.
   */
  method Record(ghost insts: seq<Instr>, dfa: seq<DfaSet>, inst: Instr) returns (dfa': seq<DfaSet>)
    requires GenKillSets(insts, dfa)
    ensures GenKillSets(insts + [inst], dfa')
  {
    var index := |dfa|;
    ghost var insts' := insts + [inst];
    var rec := Fresh(inst);
    FreshScanned(insts, inst);
    if IsDefinition(inst) {
      rec := Add(rec, index, GEN);
      dfa' := KillScan(insts, dfa, inst, rec);
    } else {
      forall a | 0 <= a < index
        ensures Scanned(insts', a, dfa[a])
      {
        ExtendScanned(insts, inst, a, dfa[a]);
      }
      assert Scanned(insts', index, rec);
      AppendScanned(insts', dfa, rec);
      dfa' := dfa + [rec];
    }
  }

  /**
   Pass 1 over a whole function: record k belongs to the reachable
   instruction with dense index k (unreachable blocks are skipped), and every
   record is in its scanned state: GEN of record k is {k} for
   CAT_new/add/sub/set calls and empty otherwise, KILL holds the kill
   relations found in both directions, and IN and OUT are empty.
   */
  method PassOne(f: Function) returns (dfa: seq<DfaSet>)
    ensures GenKillSets(Instrs(f), dfa)
  {
    dfa := [];
    ghost var seen: seq<Instr> := [];
    var b := 0;
    while b < |f|
      invariant 0 <= b <= |f|
      invariant seen + InstrsFrom(f, b) == Instrs(f)
      invariant GenKillSets(seen, dfa)
    {
      NextBlock(f, b, seen, Instrs(f));
      dfa := ScanIfReachable(seen, dfa, f[b]);
      seen := seen + BlockInstrs(f[b]);
      b := b + 1;
    }
    assert seen + [] == seen;
    assert seen == Instrs(f);
  }

  /** Moving past block `b` appends its reachable instructions to those already seen. */
  lemma NextBlock(f: Function, b: nat, seen: seq<Instr>, all: seq<Instr>)
    requires b < |f|
    requires seen + InstrsFrom(f, b) == all
    ensures (seen + BlockInstrs(f[b])) + InstrsFrom(f, b + 1) == all
  {
    var blk, rest := BlockInstrs(f[b]), InstrsFrom(f, b + 1);
    assert InstrsFrom(f, b) == blk + rest;
    assert seen + (blk + rest) == (seen + blk) + rest;
  }

  /** One block of Pass 1: unreachable code is skipped. */
  method ScanIfReachable(ghost seen: seq<Instr>, dfa: seq<DfaSet>, blk: Block) returns (dfa': seq<DfaSet>)
    requires GenKillSets(seen, dfa)
    ensures GenKillSets(seen + BlockInstrs(blk), dfa')
  {
    if blk.reachable {
      dfa' := ScanBlock(seen, dfa, blk.instrs);
    } else {
      assert seen + BlockInstrs(blk) == seen;
      dfa' := dfa;
    }
  }

  /** The Pass 1 loop over the instructions of one reachable block. */
  method ScanBlock(ghost seen: seq<Instr>, dfa: seq<DfaSet>, instrs: seq<Instr>) returns (dfa': seq<DfaSet>)
    requires GenKillSets(seen, dfa)
    ensures GenKillSets(seen + instrs, dfa')
  {
    dfa' := dfa;
    var p := 0;
    while p < |instrs|
      invariant 0 <= p <= |instrs|
      invariant GenKillSets(seen + instrs[..p], dfa')
    {
      assert seen + instrs[..p + 1] == (seen + instrs[..p]) + [instrs[p]];
      dfa' := Record(seen + instrs[..p], dfa', instrs[p]);
      p := p + 1;
    }
    assert instrs[..p] == instrs;
  }

  /**
   Kill symmetry: after Pass 1, index j is in KILL of index k exactly when k is
   in KILL of j, no record is in its own KILL, and every GEN and KILL bit lies
   below the number of records.
   */
  lemma KillSymmetric(insts: seq<Instr>, dfa: seq<DfaSet>, k: nat, j: nat)
    requires GenKillSets(insts, dfa)
    requires k < |dfa| && j < |dfa|
    ensures Has(dfa[k].killSet, j) <==> Has(dfa[j].killSet, k)
    ensures !Has(dfa[k].killSet, k)
    ensures forall i :: Has(dfa[k].killSet, i) || Has(dfa[k].genSet, i) ==> i < |dfa|
  {
    assert Scanned(insts, k, dfa[k]);
    assert Scanned(insts, j, dfa[j]);
  }

  /**
   After Pass 1, GEN of record k is {k} exactly when instruction k calls
   CAT_add, CAT_sub, CAT_new or CAT_set, and is empty for CAT_get, for every
   other callee and for every non-call.
   */
  lemma GenExact(insts: seq<Instr>, dfa: seq<DfaSet>, k: nat)
    requires GenKillSets(insts, dfa)
    requires k < |dfa|
    ensures Members(dfa[k].genSet) ==
      if insts[k].kind.Call? && insts[k].kind.callee in {"CAT_add", "CAT_sub", "CAT_new", "CAT_set"}
      then {k} else {}
  {
    assert Scanned(insts, k, dfa[k]);
    DefinitionCallees(insts[k]);
  }
}
