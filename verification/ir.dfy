/**
 The abstract control-flow graph the pass runs over, standing in for an LLVM
 Function: blocks in program order, each an ordered list of instructions, a
 predecessor list, and a reachability flag standing in for the dominator-tree
 query `DT.getNode(&B) != NULL`.

 Reachable instructions are numbered densely in program order; that number is
 the bit position an instruction has in every GEN/KILL/IN/OUT vector.
 */
module Ir {

  datatype Option<T> = None | Some(value: T)

  /**
   The only part of an instruction the pass inspects: whether it is a call,
   the name of the callee, and whether argument 0 is itself the result of a
   call instruction. `arg0 == Some(h)` says argument 0 is the call instruction
   whose identity is `h`; `None` covers every other argument (a literal, a
   function parameter, a non-call instruction) and calls without arguments.
   */
  datatype Kind = Call(callee: string, arg0: Option<nat>) | Other

  /** `id` is the instruction's identity (its address in the host IR). */
  datatype Instr = Instr(id: nat, kind: Kind)

  /** `preds` lists the positions in the function of the predecessor blocks. */
  datatype Block = Block(instrs: seq<Instr>, preds: seq<nat>, reachable: bool)

  type Function = seq<Block>

  /** Position `pos` of block `block`. */
  datatype Site = Site(block: nat, pos: nat)

  predicate ValidSite(f: Function, s: Site) {
    s.block < |f| && f[s.block].reachable && s.pos < |f[s.block].instrs|
  }

  /** Program order on positions. */
  predicate Precedes(s: Site, t: Site) {
    s.block < t.block || (s.block == t.block && s.pos < t.pos)
  }

  /** The positions of block `b`, or none when the block is unreachable. */
  function BlockSites(b: nat, blk: Block): (r: seq<Site>)
    ensures |r| == if blk.reachable then |blk.instrs| else 0
    ensures forall k :: 0 <= k < |r| ==> r[k] == Site(b, k)
  {
    if blk.reachable then seq(|blk.instrs|, p requires 0 <= p < |blk.instrs| => Site(b, p)) else []
  }

  /** The reachable positions of blocks `b..`, in program order. */
  function SitesFrom(f: Function, b: nat): (r: seq<Site>)
    requires b <= |f|
    ensures forall k :: 0 <= k < |r| ==> ValidSite(f, r[k]) && b <= r[k].block
    decreases |f| - b
  {
    if b == |f| then [] else BlockSites(b, f[b]) + SitesFrom(f, b + 1)
  }

  /**
   The position of the instruction with dense index `k` is `Sites(f)[k]`: the
   order in which both passes of the analysis enumerate instructions.
   */
  function Sites(f: Function): (r: seq<Site>)
    ensures forall k :: 0 <= k < |r| ==> ValidSite(f, r[k])
  {
    SitesFrom(f, 0)
  }

  function InstrAt(f: Function, s: Site): Instr
    requires ValidSite(f, s)
  {
    f[s.block].instrs[s.pos]
  }

  /** The instructions of a block the analysis visits: none when it is unreachable. */
  function BlockInstrs(blk: Block): seq<Instr> {
    if blk.reachable then blk.instrs else []
  }

  /** The reachable instructions of blocks `b..`, in program order. */
  function InstrsFrom(f: Function, b: nat): seq<Instr>
    requires b <= |f|
    decreases |f| - b
  {
    if b == |f| then [] else BlockInstrs(f[b]) + InstrsFrom(f, b + 1)
  }

  /** The instruction at each enumerated position is the one `InstrsFrom` lists. */
  lemma {:induction false} InstrsFromSites(f: Function, b: nat)
    requires b <= |f|
    ensures |InstrsFrom(f, b)| == |SitesFrom(f, b)|
    ensures forall k :: 0 <= k < |SitesFrom(f, b)| ==>
      InstrsFrom(f, b)[k] == InstrAt(f, SitesFrom(f, b)[k])
    decreases |f| - b
  {
    if b < |f| {
      InstrsFromSites(f, b + 1);
      var here := BlockSites(b, f[b]);
      var sites := SitesFrom(f, b);
      var insts := InstrsFrom(f, b);
      assert sites == here + SitesFrom(f, b + 1);
      assert insts == BlockInstrs(f[b]) + InstrsFrom(f, b + 1);
      forall k | 0 <= k < |sites|
        ensures insts[k] == InstrAt(f, sites[k])
      {
        if k >= |here| {
          assert sites[k] == SitesFrom(f, b + 1)[k - |here|];
        }
      }
    }
  }

  /** The reachable instructions by dense index. */
  function Instrs(f: Function): (r: seq<Instr>)
    ensures |r| == |Sites(f)|
    ensures forall k :: 0 <= k < |r| ==> r[k] == InstrAt(f, Sites(f)[k])
  {
    InstrsFromSites(f, 0);
    InstrsFrom(f, 0)
  }

  /**
   `B->getTerminator()` for the block at position `q`: its last instruction. A
   block without instructions, or a position outside the function, has none.
   The terminator of a reachable block has a dense index, so the search over
   all records finds its record; the terminator of an unreachable block has
   none.
   */
  function Terminator(f: Function, q: nat): (r: Option<Instr>)
    ensures r.Some? ==> q < |f| && |f[q].instrs| > 0
    ensures r.Some? ==>
      (f[q].reachable <==>
       exists k :: 0 <= k < |Sites(f)| && Sites(f)[k] == Site(q, |f[q].instrs| - 1) && Instrs(f)[k] == r.value)
  {
    if q < |f| && |f[q].instrs| > 0 then
      SitesComplete(f, Site(q, |f[q].instrs| - 1));
      Some(f[q].instrs[|f[q].instrs| - 1])
    else None
  }

  /**
   Instruction identities are addresses in the host IR: two positions of the
   function, reachable or not, hold instructions with the same identity only
   when they are the same position.
   */
  ghost predicate DistinctIds(f: Function) {
    forall b: nat, p: nat, c: nat, o: nat ::
      (b < |f| && p < |f[b].instrs| && c < |f| && o < |f[c].instrs| &&
       f[b].instrs[p].id == f[c].instrs[o].id) ==> b == c && p == o
  }

  /**
   With distinct identities, record `k` holds the terminator of block `q`
   exactly when `q` is a reachable, non-empty block and `k` is the index of its
   last position. So the search over all records finds the terminator of every
   reachable predecessor and of no unreachable one.
   */
  lemma TerminatorRecord(f: Function, q: nat, k: nat)
    requires DistinctIds(f)
    requires k < |Instrs(f)|
    ensures Terminator(f, q) == Some(Instrs(f)[k]) <==>
      q < |f| && f[q].reachable && |f[q].instrs| > 0 && Sites(f)[k] == Site(q, |f[q].instrs| - 1)
  {
  }

  /** `inst` is the terminator of one of the blocks listed in `preds`. */
  ghost predicate TerminatesOneOf(f: Function, preds: seq<nat>, inst: Instr) {
    exists q :: q in preds && Terminator(f, q) == Some(inst)
  }

  /**
   A position belongs to the enumeration exactly when its block is reachable
   and the position lies inside the block: unreachable code gets no index.
   */
  lemma {:induction false} SitesFromComplete(f: Function, b: nat, s: Site)
    requires b <= |f|
    ensures s in SitesFrom(f, b) <==> b <= s.block && ValidSite(f, s)
    decreases |f| - b
  {
    if b < |f| {
      SitesFromComplete(f, b + 1, s);
      var here := BlockSites(b, f[b]);
      if s.block == b && ValidSite(f, s) {
        assert here[s.pos] == s;
      }
      assert s in here <==> s.block == b && ValidSite(f, s);
    }
  }

  lemma SitesComplete(f: Function, s: Site)
    ensures s in Sites(f) <==> ValidSite(f, s)
  {
    SitesFromComplete(f, 0, s);
  }

  /** The enumeration follows program order, so every position gets one index. */
  lemma {:induction false} SitesFromOrdered(f: Function, b: nat)
    requires b <= |f|
    ensures forall i, j :: 0 <= i < j < |SitesFrom(f, b)| ==>
      Precedes(SitesFrom(f, b)[i], SitesFrom(f, b)[j])
    decreases |f| - b
  {
    if b < |f| {
      SitesFromOrdered(f, b + 1);
      var here := BlockSites(b, f[b]);
      var rest := SitesFrom(f, b + 1);
      var all := SitesFrom(f, b);
      assert all == here + rest;
      forall i, j | 0 <= i < j < |all|
        ensures Precedes(all[i], all[j])
      {
        if j < |here| {
          assert all[i] == here[i] && all[j] == here[j];
        } else if i < |here| {
          assert all[i] == here[i] && all[j] == rest[j - |here|];
        } else {
          assert all[i] == rest[i - |here|] && all[j] == rest[j - |here|];
        }
      }
    }
  }

  lemma SitesOrdered(f: Function)
    ensures forall i, j :: 0 <= i < j < |Sites(f)| ==> Precedes(Sites(f)[i], Sites(f)[j])
  {
    SitesFromOrdered(f, 0);
  }

  /**
   Within a reachable block, consecutive positions get consecutive indices: a
   position after the first of its block is never index 0, and the index
   before it is the previous position of the same block.
   */
  lemma {:induction false} SitesFromConsecutive(f: Function, b: nat, k: nat)
    requires b <= |f|
    requires k < |SitesFrom(f, b)|
    requires SitesFrom(f, b)[k].pos > 0
    ensures k > 0
    ensures SitesFrom(f, b)[k - 1] == Site(SitesFrom(f, b)[k].block, SitesFrom(f, b)[k].pos - 1)
    decreases |f| - b
  {
    var here := BlockSites(b, f[b]);
    var rest := SitesFrom(f, b + 1);
    assert SitesFrom(f, b) == here + rest;
    if k < |here| {
      assert here[k] == Site(b, k);
    } else if k == |here| && k > 0 {
      assert rest[0].pos > 0;
      var s := rest[0];
      SitesFromComplete(f, b + 1, Site(s.block, 0));
      assert Site(s.block, 0) in rest;
      var k' :| 0 <= k' < |rest| && rest[k'] == Site(s.block, 0);
      SitesFromOrdered(f, b + 1);
      assert false;
    } else {
      SitesFromConsecutive(f, b + 1, k - |here|);
    }
  }

  lemma SitesConsecutive(f: Function, k: nat)
    requires k < |Sites(f)|
    requires Sites(f)[k].pos > 0
    ensures k > 0
    ensures Sites(f)[k - 1] == Site(Sites(f)[k].block, Sites(f)[k].pos - 1)
  {
    SitesFromConsecutive(f, 0, k);
  }
}
