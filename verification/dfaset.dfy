/**
 DFA_SET: the GEN, KILL, IN and OUT bit-vectors kept for one instruction, with
 the two `add` operations the analysis uses to grow them.
 */
module DfaSets {
  import opened BitSets
  import opened Ir

  /** The set identifiers DFA_SET::GEN, KILL, IN and OUT. */
  const GEN: int := 0
  const KILL: int := 1
  const IN: int := 2
  const OUT: int := 3

  predicate ValidSetId(which: int) {
    which == GEN || which == KILL || which == IN || which == OUT
  }

  datatype DfaSet = DfaSet(inst: Instr, genSet: Bits, killSet: Bits, inSet: Bits, outSet: Bits)

  /** `new DFA_SET(&I)`: all four vectors start empty. */
  function Fresh(inst: Instr): (r: DfaSet)
    ensures r.inst == inst
    ensures Members(r.genSet) == {} && Members(r.killSet) == {}
    ensures Members(r.inSet) == {} && Members(r.outSet) == {} && Normal(r.outSet)
  {
    DfaSet(inst, [], [], [], [])
  }

  /** The vector a valid set identifier names. */
  function Select(d: DfaSet, which: int): Bits
    requires ValidSetId(which)
  {
    if which == GEN then d.genSet
    else if which == KILL then d.killSet
    else if which == IN then d.inSet
    else d.outSet
  }

  /**
   DFA_SET::add(int i, int set): sets bit `i` of the named vector, growing it
   to length `i + 1` first if it is shorter. An unknown set identifier is
   reported and ignored.
   */
  function Add(d: DfaSet, i: nat, which: int): (r: DfaSet)
    ensures r.inst == d.inst
    ensures !ValidSetId(which) ==> r == d
    ensures ValidSetId(which) ==> |Select(r, which)| == Max(|Select(d, which)|, i + 1)
    ensures ValidSetId(which) ==> Members(Select(r, which)) == Members(Select(d, which)) + {i}
    ensures which != GEN ==> r.genSet == d.genSet
    ensures which != KILL ==> r.killSet == d.killSet
    ensures which != IN ==> r.inSet == d.inSet
    ensures which != OUT ==> r.outSet == d.outSet
    ensures Normal(d.outSet) ==> Normal(r.outSet)
  {
    if which == GEN then d.(genSet := SetBit(d.genSet, i))
    else if which == KILL then d.(killSet := SetBit(d.killSet, i))
    else if which == IN then d.(inSet := SetBit(d.inSet, i))
    else if which == OUT then d.(outSet := SetBit(d.outSet, i))
    else d
  }

  /**
   DFA_SET::add(BitVector* v, int set): adds every set bit of `v` to the named
   vector, lowest position first. The result is the union of the two, and no
   other vector changes.
   */
  method AddVec(d: DfaSet, v: Bits, which: int) returns (r: DfaSet)
    ensures r.inst == d.inst
    ensures ValidSetId(which) ==> Select(r, which) == Union(Select(d, which), v)
    ensures ValidSetId(which) ==>
      Members(Select(r, which)) == Members(Select(d, which)) + Members(v)
    ensures which != GEN ==> r.genSet == d.genSet
    ensures which != KILL ==> r.killSet == d.killSet
    ensures which != IN ==> r.inSet == d.inSet
    ensures which != OUT ==> r.outSet == d.outSet
    ensures Normal(d.outSet) ==> Normal(r.outSet)
  {
    r := d;
    var i := 0;
    while i < |v|
      invariant 0 <= i <= |v|
      invariant r.inst == d.inst
      invariant ValidSetId(which) ==> Select(r, which) == UnionPrefix(Select(d, which), v, i)
      invariant which != GEN ==> r.genSet == d.genSet
      invariant which != KILL ==> r.killSet == d.killSet
      invariant which != IN ==> r.inSet == d.inSet
      invariant which != OUT ==> r.outSet == d.outSet
      invariant Normal(d.outSet) ==> Normal(r.outSet)
    {
      if v[i] {
        r := Add(r, i, which);
      }
      i := i + 1;
    }
  }
}
