/**
 CAT::runOnFunction: Pass 1 builds GEN and KILL, Pass 2 iterates IN and OUT
 to a fixed point. The pass only analyses; it reports that it did not modify
 the function.
 */
module Pass {
  import opened BitSets
  import opened Ir
  import opened DfaSets
  import opened GenKill
  import opened InOut

  /** Same instructions, GEN and KILL, whatever IN and OUT hold. */
  ghost predicate SameBase(a: seq<DfaSet>, b: seq<DfaSet>) {
    |a| == |b| &&
    forall k :: 0 <= k < |a| ==>
      a[k].inst == b[k].inst && a[k].genSet == b[k].genSet && a[k].killSet == b[k].killSet
  }

  /** The records Pass 1 leaves have the shape Pass 2 expects, with IN and OUT empty. */
  lemma PassOneShaped(f: Function, dfa: seq<DfaSet>)
    requires GenKillSets(Instrs(f), dfa)
    ensures Shaped(f, dfa)
    ensures forall s :: SameBase(dfa, s) ==> GrewAll(dfa, s)
  {
    forall k | 0 <= k < |dfa|
      ensures Fits(|dfa|, dfa[k]) && dfa[k].inSet == [] && dfa[k].outSet == []
    {
      assert Scanned(Instrs(f), k, dfa[k]);
    }
  }

  lemma GrewSameBase(a: seq<DfaSet>, b: seq<DfaSet>, s: seq<DfaSet>)
    requires GrewAll(a, b) && SameBase(b, s)
    ensures SameBase(a, s)
  {
    forall k | 0 <= k < |a|
      ensures a[k].inst == s[k].inst && a[k].genSet == s[k].genSet && a[k].killSet == s[k].killSet
    {
      assert Grew(a[k], b[k]);
    }
  }

  /**
   The whole analysis of one function. Record k belongs to the reachable
   instruction with dense index k; its GEN and KILL are those of Pass 1; IN
   and OUT satisfy the reaching-definitions equations, and they are the least
   sets that do: every solution with the same GEN and KILL contains them.
   */
  method RunOnFunction(f: Function) returns (dfa: seq<DfaSet>, modified: bool)
    ensures |dfa| == |Sites(f)|
    ensures forall k :: 0 <= k < |dfa| ==> dfa[k].inst == InstrAt(f, Sites(f)[k])
    ensures forall k :: 0 <= k < |dfa| ==>
      Members(dfa[k].genSet) == GenOf(Instrs(f), k) &&
      Members(dfa[k].killSet) == KillsBelow(Instrs(f), k, |dfa|)
    ensures IsSolution(f, dfa)
    ensures forall s :: SameBase(dfa, s) && IsSolution(f, s) ==> GrewAll(dfa, s)
    ensures !modified
  {
    var dfa0 := PassOne(f);
    PassOneShaped(f, dfa0);
    dfa := FixedPoint(f, dfa0);
    forall k | 0 <= k < |dfa|
      ensures dfa[k].inst == InstrAt(f, Sites(f)[k])
      ensures Members(dfa[k].genSet) == GenOf(Instrs(f), k)
      ensures Members(dfa[k].killSet) == KillsBelow(Instrs(f), k, |dfa|)
    {
      assert Grew(dfa0[k], dfa[k]);
      assert Scanned(Instrs(f), k, dfa0[k]);
    }
    forall s | SameBase(dfa, s) && IsSolution(f, s)
      ensures GrewAll(dfa, s)
    {
      GrewSameBase(dfa0, dfa, s);
    }
    modified := false;
  }
}
