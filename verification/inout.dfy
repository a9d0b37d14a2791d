/**
 Pass 2 of CAT::runOnFunction: the round-robin fixed point that computes IN
 and OUT for every record. Each sweep visits the reachable instructions in
 the order Pass 1 numbered them; a block's first instruction takes in the
 OUT of every predecessor's terminator, any other instruction the OUT of the
 instruction before it; OUT then gains GEN and IN - KILL. Sweeps repeat until
 one changes no OUT.
 */
module InOut {
  import opened BitSets
  import opened Ir
  import opened DfaSets

  /** Every vector of a record lies within the `n` instruction indices. */
  ghost predicate Fits(n: nat, d: DfaSet) {
    |d.genSet| <= n && |d.killSet| <= n && |d.inSet| <= n && |d.outSet| <= n && Normal(d.outSet)
  }

  /** One record per reachable instruction, all within bounds. */
  ghost predicate Shaped(f: Function, dfa: seq<DfaSet>) {
    |dfa| == |Sites(f)| && forall k :: 0 <= k < |dfa| ==> Fits(|dfa|, dfa[k])
  }

  /** `b` is `a` after IN and OUT have gained bits: nothing else differs. */
  ghost predicate Grew(a: DfaSet, b: DfaSet) {
    && a.inst == b.inst && a.genSet == b.genSet && a.killSet == b.killSet
    && Members(a.inSet) <= Members(b.inSet)
    && Members(a.outSet) <= Members(b.outSet)
  }

  ghost predicate GrewAll(s: seq<DfaSet>, t: seq<DfaSet>) {
    |s| == |t| && forall k :: 0 <= k < |s| ==> Grew(s[k], t[k])
  }

  /**
   The OUT of record `i` flows into the IN of record `k`: `k` is the first
   instruction of its block and `i` is the terminator of one of that block's
   predecessors, or `k` is not first and `i` is the record before it.
   */
  ghost predicate Feeds(f: Function, dfa: seq<DfaSet>, i: int, k: int) {
    && 0 <= i < |dfa| && 0 <= k < |dfa| && |dfa| == |Sites(f)|
    && var s := Sites(f)[k];
       if s.pos == 0 then TerminatesOneOf(f, f[s.block].preds, dfa[i].inst) else i + 1 == k
  }

  /** The bits the IN of record `k` receives in one visit. */
  ghost function Inflow(f: Function, dfa: seq<DfaSet>, k: int): set<int> {
    set i, j | 0 <= i < |dfa| && j in Members(dfa[i].outSet) && Feeds(f, dfa, i, k) :: j
  }

  /**
   The bits of the OUT sets of the records among the first `upto` whose
   instruction terminates one of the blocks `preds`.
   */
  ghost function FromPreds(f: Function, dfa: seq<DfaSet>, preds: seq<nat>, upto: int): set<int> {
    set i, j | 0 <= i < upto && i < |dfa| && j in Members(dfa[i].outSet) &&
      TerminatesOneOf(f, preds, dfa[i].inst) :: j
  }

  /**
   Record `k` satisfies the reaching-definitions equations as inequalities:
   its IN holds every bit flowing into it, and its OUT holds GEN and IN - KILL.
   */
  ghost predicate Solved(f: Function, dfa: seq<DfaSet>, k: int)
    requires 0 <= k < |dfa|
  {
    && Inflow(f, dfa, k) <= Members(dfa[k].inSet)
    && Members(dfa[k].genSet) + (Members(dfa[k].inSet) - Members(dfa[k].killSet)) <= Members(dfa[k].outSet)
  }

  ghost predicate IsSolution(f: Function, dfa: seq<DfaSet>) {
    forall k :: 0 <= k < |dfa| ==> Solved(f, dfa, k)
  }

  lemma InflowFirst(f: Function, dfa: seq<DfaSet>, k: nat)
    requires |dfa| == |Sites(f)| && k < |dfa|
    requires Sites(f)[k].pos == 0
    ensures Inflow(f, dfa, k) == FromPreds(f, dfa, f[Sites(f)[k].block].preds, |dfa|)
  {
  }

  lemma InflowNext(f: Function, dfa: seq<DfaSet>, k: nat)
    requires |dfa| == |Sites(f)| && k < |dfa|
    requires Sites(f)[k].pos > 0
    ensures k > 0
    ensures Inflow(f, dfa, k) == Members(dfa[k - 1].outSet)
  {
    SitesConsecutive(f, k);
    forall j | j in Members(dfa[k - 1].outSet)
      ensures j in Inflow(f, dfa, k)
    {
      assert Feeds(f, dfa, k - 1, k);
    }
  }

  /**
   An entry block has no predecessors, so its first instruction receives
   nothing; neither does it from a predecessor block whose terminator has no
   record.
   */
  lemma EntryInflow(f: Function, dfa: seq<DfaSet>, k: nat)
    requires |dfa| == |Sites(f)| && k < |dfa|
    requires Sites(f)[k].pos == 0
    requires forall i, q :: 0 <= i < |dfa| && q in f[Sites(f)[k].block].preds ==> Terminator(f, q) != Some(dfa[i].inst)
    ensures Inflow(f, dfa, k) == {}
  {
    InflowFirst(f, dfa, k);
  }

  /** Every bit of every vector of a shaped state names one of its records. */
  lemma BitsBelowCount(f: Function, dfa: seq<DfaSet>, k: nat, j: int)
    requires Shaped(f, dfa) && k < |dfa|
    requires Has(dfa[k].genSet, j) || Has(dfa[k].killSet, j) || Has(dfa[k].inSet, j) || Has(dfa[k].outSet, j)
    ensures 0 <= j < |dfa|
  {
    assert Fits(|dfa|, dfa[k]);
  }

  lemma FromPredsNone(f: Function, dfa: seq<DfaSet>, preds: seq<nat>)
    ensures FromPreds(f, dfa, preds, 0) == {}
    ensures FromPreds(f, dfa, [], |dfa|) == {}
  {
  }

  /** Looking at one more record adds its OUT when it terminates one of `preds`. */
  lemma FromPredsStep(f: Function, dfa: seq<DfaSet>, preds: seq<nat>, i: nat)
    requires i < |dfa|
    ensures FromPreds(f, dfa, preds, i + 1) ==
      FromPreds(f, dfa, preds, i) +
      (if TerminatesOneOf(f, preds, dfa[i].inst) then Members(dfa[i].outSet) else {})
  {
    if TerminatesOneOf(f, preds, dfa[i].inst) {
      forall j | j in Members(dfa[i].outSet)
        ensures j in FromPreds(f, dfa, preds, i + 1)
      {
      }
    }
  }

  /** The bits from the blocks `preds + [q]` are those from `preds` and from `q`. */
  lemma FromPredsAppend(f: Function, dfa: seq<DfaSet>, preds: seq<nat>, q: nat)
    ensures FromPreds(f, dfa, preds + [q], |dfa|) ==
      FromPreds(f, dfa, preds, |dfa|) + FromPreds(f, dfa, [q], |dfa|)
  {
    forall inst: Instr
      ensures TerminatesOneOf(f, preds + [q], inst) <==>
        TerminatesOneOf(f, preds, inst) || TerminatesOneOf(f, [q], inst)
    {
      if TerminatesOneOf(f, preds + [q], inst) {
        var q' :| q' in preds + [q] && Terminator(f, q') == Some(inst);
        if q' != q {
          assert q' in preds;
        }
      }
      if TerminatesOneOf(f, preds, inst) {
        var q' :| q' in preds && Terminator(f, q') == Some(inst);
        assert q' in preds + [q];
      }
      if TerminatesOneOf(f, [q], inst) {
        assert q in preds + [q];
      }
    }
  }

  /** The block at position `q` ends with `inst`. */
  lemma TerminatesSingle(f: Function, q: nat, inst: Instr)
    ensures TerminatesOneOf(f, [q], inst) <==> Terminator(f, q) == Some(inst)
  {
    if Terminator(f, q) == Some(inst) {
      assert q in [q];
    }
  }

  /**
   The inner loop over all records for one predecessor block `q`: every record
   whose instruction is that block's terminator adds its OUT to IN. Nothing
   but IN changes, and IN stays within `n` bits.
   */
  method InFromBlock(f: Function, dfa: seq<DfaSet>, q: nat, rec: DfaSet, ghost n: nat) returns (r: DfaSet)
    requires |rec.inSet| <= n
    requires forall i :: 0 <= i < |dfa| ==> |dfa[i].outSet| <= n
    ensures r == rec.(inSet := r.inSet)
    ensures |r.inSet| <= n
    ensures Members(r.inSet) == Members(rec.inSet) + FromPreds(f, dfa, [q], |dfa|)
  {
    r := rec;
    var i := 0;
    while i < |dfa|
      invariant 0 <= i <= |dfa|
      invariant r == rec.(inSet := r.inSet)
      invariant |r.inSet| <= n
      invariant Members(r.inSet) == Members(rec.inSet) + FromPreds(f, dfa, [q], i)
    {
      FromPredsStep(f, dfa, [q], i);
      TerminatesSingle(f, q, dfa[i].inst);
      if Terminator(f, q) == Some(dfa[i].inst) {
        r := AddVec(r, dfa[i].outSet, IN);
      }
      i := i + 1;
    }
  }

  /**
   The IN rule for the first instruction of a block: the OUT of the
   terminator of every predecessor block in `preds` is added to IN.
   */
  method InFromPreds(f: Function, dfa: seq<DfaSet>, preds: seq<nat>, rec: DfaSet, ghost n: nat) returns (r: DfaSet)
    requires |rec.inSet| <= n
    requires forall i :: 0 <= i < |dfa| ==> |dfa[i].outSet| <= n
    ensures r == rec.(inSet := r.inSet)
    ensures |r.inSet| <= n
    ensures Members(r.inSet) == Members(rec.inSet) + FromPreds(f, dfa, preds, |dfa|)
  {
    r := rec;
    FromPredsNone(f, dfa, preds);
    var j := 0;
    while j < |preds|
      invariant 0 <= j <= |preds|
      invariant r == rec.(inSet := r.inSet)
      invariant |r.inSet| <= n
      invariant Members(r.inSet) == Members(rec.inSet) + FromPreds(f, dfa, preds[..j], |dfa|)
    {
      assert preds[..j + 1] == preds[..j] + [preds[j]];
      FromPredsAppend(f, dfa, preds[..j], preds[j]);
      r := InFromBlock(f, dfa, preds[j], r, n);
      j := j + 1;
    }
    assert preds[..j] == preds;
  }

  /**
   One application of the transfer function to record `k`: IN gains every bit
   flowing into it, and OUT gains GEN and IN - KILL, with the new IN. The
   instruction, GEN and KILL are unchanged and every vector stays in bounds.
   */
  ghost predicate Visited(f: Function, dfa: seq<DfaSet>, k: nat, rec: DfaSet)
    requires k < |dfa|
  {
    && rec.inst == dfa[k].inst && rec.genSet == dfa[k].genSet && rec.killSet == dfa[k].killSet
    && Members(rec.inSet) == Members(dfa[k].inSet) + Inflow(f, dfa, k)
    && Members(rec.outSet) ==
       Members(dfa[k].outSet) + Members(rec.genSet) + (Members(rec.inSet) - Members(rec.killSet))
    && Fits(|dfa|, rec)
  }

  /**
   The body of the Pass 2 loop for the instruction at position `p` of block
   `b`, which has dense index `index`: IN from the predecessors' terminators
   when `p` is 0, else from the record before; then OUT from GEN and
   `(IN ^ KILL) & IN`. `changed` is the outcome of `comp != OUT`, and it holds
   exactly when OUT gained a bit.
   */
  method Visit(f: Function, dfa: seq<DfaSet>, b: nat, p: nat, index: nat) returns (rec: DfaSet, changed: bool)
    requires Shaped(f, dfa)
    requires index < |dfa| && Sites(f)[index] == Site(b, p)
    ensures Visited(f, dfa, index, rec)
    ensures changed <==> Members(rec.outSet) != Members(dfa[index].outSet)
  {
    ghost var n := |dfa|;
    rec := dfa[index];
    assert Fits(n, rec);
    var comp := rec.outSet;
    if p == 0 {
      InflowFirst(f, dfa, index);
      rec := InFromPreds(f, dfa, f[b].preds, rec, n);
    } else {
      InflowNext(f, dfa, index);
      assert Fits(n, dfa[index - 1]);
      rec := AddVec(rec, dfa[index - 1].outSet, IN);
    }
    rec := AddVec(rec, rec.genSet, OUT);
    var diff := Minus(rec.inSet, rec.killSet);
    rec := AddVec(rec, diff, OUT);
    changed := comp != rec.outSet;
    if changed {
      ChangedMeansGained(comp, rec.outSet);
    }
  }

  /** Same instructions, and every OUT of `a` is contained in the one of `b`. */
  ghost predicate OutsBelow(a: seq<DfaSet>, b: seq<DfaSet>) {
    |a| == |b| && forall i :: 0 <= i < |a| ==> a[i].inst == b[i].inst && Members(a[i].outSet) <= Members(b[i].outSet)
  }

  /** The inflow of a record only grows when the OUT sets grow. */
  lemma InflowMonotone(f: Function, a: seq<DfaSet>, b: seq<DfaSet>, k: int)
    requires OutsBelow(a, b)
    ensures Inflow(f, a, k) <= Inflow(f, b, k)
  {
    forall j | j in Inflow(f, a, k)
      ensures j in Inflow(f, b, k)
    {
      var i :| 0 <= i < |a| && j in Members(a[i].outSet) && Feeds(f, a, i, k);
      assert Feeds(f, b, i, k);
    }
  }

  lemma GrewOuts(a: seq<DfaSet>, b: seq<DfaSet>)
    requires GrewAll(a, b)
    ensures OutsBelow(a, b)
  {
  }

  lemma GrewTransitive(a: seq<DfaSet>, b: seq<DfaSet>, c: seq<DfaSet>)
    requires GrewAll(a, b) && GrewAll(b, c)
    ensures GrewAll(a, c)
  {
    forall k | 0 <= k < |a|
      ensures Grew(a[k], c[k])
    {
      assert Grew(a[k], b[k]) && Grew(b[k], c[k]);
    }
  }

  /**
   `cur` lies below every solution that lies above `dfa0`: no bit ever enters
   an IN or OUT set unless every solution that extends `dfa0` holds it.
   */
  ghost predicate LeastSoFar(f: Function, dfa0: seq<DfaSet>, cur: seq<DfaSet>) {
    forall s :: GrewAll(dfa0, s) && IsSolution(f, s) ==> GrewAll(cur, s)
  }

  /**
   The state of one sweep that started from `s0` after the records before
   `index` have been visited: those records only grew and the rest are
   untouched; `changed` says whether some visited OUT grew; if none did, every
   visited record satisfies its equations; and the state lies below every
   solution that extends `dfa0`.
   */
  ghost predicate SweptUpTo(f: Function, dfa0: seq<DfaSet>, s0: seq<DfaSet>, cur: seq<DfaSet>, index: int, changed: bool) {
    && Shaped(f, cur) && GrewAll(s0, cur) && 0 <= index <= |cur|
    && (forall k :: index <= k < |cur| ==> cur[k] == s0[k])
    && (changed <==> exists k :: 0 <= k < index && Members(cur[k].outSet) != Members(s0[k].outSet))
    && (!changed ==> forall k :: 0 <= k < index ==> Solved(f, cur, k))
    && LeastSoFar(f, dfa0, cur)
  }

  lemma SweepStart(f: Function, dfa0: seq<DfaSet>, s0: seq<DfaSet>)
    requires Shaped(f, s0) && LeastSoFar(f, dfa0, s0)
    ensures SweptUpTo(f, dfa0, s0, s0, 0, false)
  {
  }

  /** A visit keeps the state below every solution that extends `dfa0`. */
  lemma VisitLeast(f: Function, dfa0: seq<DfaSet>, cur: seq<DfaSet>, index: nat, rec: DfaSet)
    requires index < |cur| && LeastSoFar(f, dfa0, cur)
    requires Visited(f, cur, index, rec)
    ensures LeastSoFar(f, dfa0, cur[index := rec])
  {
    forall s | GrewAll(dfa0, s) && IsSolution(f, s)
      ensures GrewAll(cur[index := rec], s)
    {
      assert GrewAll(cur, s);
      GrewOuts(cur, s);
      InflowMonotone(f, cur, s, index);
      assert Solved(f, s, index);
      assert Grew(cur[index], s[index]);
      assert Grew(rec, s[index]);
    }
  }

  /** A visit that changes no OUT keeps every visited record solved. */
  lemma VisitSolved(f: Function, cur: seq<DfaSet>, index: nat, rec: DfaSet, cur': seq<DfaSet>)
    requires index < |cur| && cur' == cur[index := rec]
    requires forall k :: 0 <= k < index ==> Solved(f, cur, k)
    requires Visited(f, cur, index, rec)
    requires Members(rec.outSet) == Members(cur[index].outSet)
    ensures forall k :: 0 <= k <= index ==> Solved(f, cur', k)
  {
    assert OutsBelow(cur, cur') && OutsBelow(cur', cur);
    forall k | 0 <= k <= index
      ensures Solved(f, cur', k)
    {
      InflowMonotone(f, cur, cur', k);
      InflowMonotone(f, cur', cur, k);
      if k < index {
        assert Solved(f, cur, k);
      }
    }
  }

  /** Visiting the record at `index` advances the sweep by one record. */
  lemma SweepStep(f: Function, dfa0: seq<DfaSet>, s0: seq<DfaSet>, cur: seq<DfaSet>, index: nat,
                  changed: bool, rec: DfaSet, c: bool)
    requires SweptUpTo(f, dfa0, s0, cur, index, changed) && index < |cur|
    requires Visited(f, cur, index, rec)
    requires c <==> Members(rec.outSet) != Members(cur[index].outSet)
    ensures SweptUpTo(f, dfa0, s0, cur[index := rec], index + 1, changed || c)
  {
    var cur' := cur[index := rec];
    assert Grew(cur[index], rec);
    assert GrewAll(s0, cur');
    assert Fits(|cur|, rec);
    VisitLeast(f, dfa0, cur, index, rec);
    if !(changed || c) {
      VisitSolved(f, cur, index, rec, cur');
    }
    if c {
      assert Members(cur'[index].outSet) != Members(s0[index].outSet);
    }
    if changed {
      var k :| 0 <= k < index && Members(cur[k].outSet) != Members(s0[k].outSet);
      assert Members(cur'[k].outSet) != Members(s0[k].outSet);
    }
  }

  /**
   The instructions of reachable block `b` take the dense indices from
   `index` on, one per position, and the next block starts right after them.
   */
  lemma BlockIndices(f: Function, b: nat, index: nat)
    requires b < |f| && f[b].reachable
    requires index <= |Sites(f)| && Sites(f)[index..] == SitesFrom(f, b)
    ensures index + |f[b].instrs| <= |Sites(f)|
    ensures forall p :: 0 <= p < |f[b].instrs| ==> Sites(f)[index + p] == Site(b, p)
    ensures Sites(f)[index + |f[b].instrs|..] == SitesFrom(f, b + 1)
  {
    var here := BlockSites(b, f[b]);
    assert SitesFrom(f, b) == here + SitesFrom(f, b + 1);
    forall p | 0 <= p < |f[b].instrs|
      ensures Sites(f)[index + p] == Site(b, p)
    {
      assert Sites(f)[index + p] == SitesFrom(f, b)[p] == here[p];
    }
  }

  /**
   The Pass 2 loop over the instructions of reachable block `b`, whose first
   instruction has dense index `index`. Each record is visited and written
   back before the next one is read.
   */
  method SweepBlock(f: Function, ghost dfa0: seq<DfaSet>, ghost s0: seq<DfaSet>, cur: seq<DfaSet>,
                    b: nat, index: nat, changed: bool)
    returns (cur': seq<DfaSet>, index': nat, changed': bool)
    requires b < |f| && f[b].reachable
    requires index <= |Sites(f)| && Sites(f)[index..] == SitesFrom(f, b)
    requires SweptUpTo(f, dfa0, s0, cur, index, changed)
    ensures index' <= |Sites(f)| && Sites(f)[index'..] == SitesFrom(f, b + 1)
    ensures SweptUpTo(f, dfa0, s0, cur', index', changed')
  {
    BlockIndices(f, b, index);
    cur', index', changed' := cur, index, changed;
    var p := 0;
    while p < |f[b].instrs|
      invariant 0 <= p <= |f[b].instrs| && index' == index + p
      invariant SweptUpTo(f, dfa0, s0, cur', index', changed')
    {
      var rec, c := Visit(f, cur', b, p, index');
      SweepStep(f, dfa0, s0, cur', index', changed', rec, c);
      cur' := cur'[index' := rec];
      changed' := changed' || c;
      index' := index' + 1;
      p := p + 1;
    }
  }

  /**
   One pass of the do-while body over every reachable block. At its end the
   records only grew; `changed` holds exactly when some OUT grew; and when
   none did, the records solve the equations.
   */
  method Sweep(f: Function, ghost dfa0: seq<DfaSet>, dfa: seq<DfaSet>) returns (dfa': seq<DfaSet>, changed: bool)
    requires Shaped(f, dfa) && LeastSoFar(f, dfa0, dfa)
    ensures SweptUpTo(f, dfa0, dfa, dfa', |dfa|, changed)
  {
    SweepStart(f, dfa0, dfa);
    dfa', changed := dfa, false;
    var index := 0;
    var b := 0;
    while b < |f|
      invariant 0 <= b <= |f| && index <= |Sites(f)|
      invariant Sites(f)[index..] == SitesFrom(f, b)
      invariant SweptUpTo(f, dfa0, dfa, dfa', index, changed)
    {
      // Skip unreachable code.
      if f[b].reachable {
        dfa', index, changed := SweepBlock(f, dfa0, dfa, dfa', b, index, changed);
      } else {
        assert SitesFrom(f, b) == BlockSites(b, f[b]) + SitesFrom(f, b + 1);
      }
      b := b + 1;
    }
  }

  /** The (record, bit) pairs still absent from OUT: the measure of Pass 2. */
  ghost function Missing(dfa: seq<DfaSet>): set<(int, int)> {
    set k, j | 0 <= k < |dfa| && 0 <= j < |dfa| && !Has(dfa[k].outSet, j) :: (k, j)
  }

  /** A sweep that grew some OUT removed a pair from the measure. */
  lemma MissingShrinks(f: Function, s0: seq<DfaSet>, s1: seq<DfaSet>, k: nat)
    requires GrewAll(s0, s1) && Shaped(f, s1)
    requires k < |s0| && Members(s0[k].outSet) != Members(s1[k].outSet)
    ensures Missing(s1) < Missing(s0)
  {
    assert Grew(s0[k], s1[k]) && Fits(|s1|, s1[k]);
    assert Members(s0[k].outSet) < Members(s1[k].outSet);
    var j :| j in Members(s1[k].outSet) && j !in Members(s0[k].outSet);
    assert (k, j) in Missing(s0) - Missing(s1);
    forall pair | pair in Missing(s1)
      ensures pair in Missing(s0)
    {
      var (k', j') := pair;
      assert Grew(s0[k'], s1[k']);
    }
  }

  /** A sweep that grew no OUT left the measure as it was. */
  lemma MissingSame(s0: seq<DfaSet>, s1: seq<DfaSet>)
    requires |s0| == |s1|
    requires forall k :: 0 <= k < |s0| ==> Members(s0[k].outSet) == Members(s1[k].outSet)
    ensures Missing(s1) == Missing(s0)
  {
    forall k, j | 0 <= k < |s0| && 0 <= j < |s0|
      ensures Has(s0[k].outSet, j) == Has(s1[k].outSet, j)
    {
      assert j in Members(s0[k].outSet) <==> j in Members(s1[k].outSet);
    }
  }

  /**
   The do-while loop of Pass 2: sweeps repeat until one changes no OUT. It
   terminates, since every sweep that reports a change adds a bit below the
   number of records to some OUT. The result only grew from `dfa0`, solves
   the equations, and lies below every solution that extends `dfa0`: it is the
   least solution above `dfa0`.
   */
  method FixedPoint(f: Function, dfa0: seq<DfaSet>) returns (dfa: seq<DfaSet>)
    requires Shaped(f, dfa0)
    ensures Shaped(f, dfa) && GrewAll(dfa0, dfa)
    ensures IsSolution(f, dfa)
    ensures forall s :: GrewAll(dfa0, s) && IsSolution(f, s) ==> GrewAll(dfa, s)
  {
    dfa := dfa0;
    var changed := true;
    while changed
      invariant Shaped(f, dfa) && GrewAll(dfa0, dfa) && LeastSoFar(f, dfa0, dfa)
      invariant !changed ==> IsSolution(f, dfa)
      decreases Missing(dfa), if changed then 1 else 0
    {
      ghost var prev := dfa;
      dfa, changed := Sweep(f, dfa0, dfa);
      GrewTransitive(dfa0, prev, dfa);
      if changed {
        ghost var k :| 0 <= k < |dfa| && Members(dfa[k].outSet) != Members(prev[k].outSet);
        MissingShrinks(f, prev, dfa, k);
      } else {
        MissingSame(prev, dfa);
      }
    }
  }
}
