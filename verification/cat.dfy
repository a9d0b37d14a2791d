/**
 The five-function CAT API the pass recognises, and the structural kill
 relation between two instructions (CAT::isKilledBy).
 */
module Cat {
  import opened Ir

  /** CAT_API::API, in its declared order. */
  const Api: seq<string> := ["CAT_add", "CAT_sub", "CAT_new", "CAT_get", "CAT_set"]

  /** The position of CAT_get in the table: the one API call that defines nothing. */
  const GetPosition: nat := 3

  /**
   `std::find` over a name table: the position of the first entry equal to
   `name`, or `|names|` (the end iterator) when there is none.
   */
  function Find(names: seq<string>, name: string): (r: nat)
    ensures r <= |names|
    ensures r < |names| ==> names[r] == name
    ensures forall i :: 0 <= i < r ==> names[i] != name
  {
    if |names| == 0 then 0
    else if names[0] == name then 0
    else 1 + Find(names[1..], name)
  }

  /**
   The instruction is a call to an API function other than the one at
   position 3: a call that (re)defines a CAT variable and so generates a
   definition.
   */
  function IsDefinition(inst: Instr): (b: bool)
    ensures b ==> inst.kind.Call? && inst.kind.callee in Api && inst.kind.callee != "CAT_get"
  {
    inst.kind.Call? &&
    var pos := Find(Api, inst.kind.callee);
    pos != |Api| && pos != GetPosition
  }

  /**
   The four defining calls are exactly CAT_add, CAT_sub, CAT_new and CAT_set;
   CAT_get and every other callee (and every non-call) define nothing.
   */
  lemma DefinitionCallees(inst: Instr)
    ensures IsDefinition(inst) <==>
      inst.kind.Call? && inst.kind.callee in {"CAT_add", "CAT_sub", "CAT_new", "CAT_set"}
  {
    if inst.kind.Call? {
      var name := inst.kind.callee;
      var pos := Find(Api, name);
      assert Api[0] == "CAT_add" && Api[1] == "CAT_sub" && Api[2] == "CAT_new";
      assert Api[3] == "CAT_get" && Api[4] == "CAT_set";
      if name in {"CAT_add", "CAT_sub", "CAT_new", "CAT_set"} {
        assert name in Api;
        assert pos != GetPosition;
      }
      if pos != |Api| && pos != GetPosition {
        assert name == Api[pos];
      }
    }
  }

  /** The handle an instruction's argument 0 names, when that argument is a call. */
  function Operand0(inst: Instr): Option<nat> {
    if inst.kind.Call? then inst.kind.arg0 else None
  }

  /**
   CAT::isKilledBy(L, R): R is a call whose argument 0 is a call instruction h,
   and L either is h itself or is a call whose argument 0 is also h.
   */
  function IsKilledBy(l: Instr, r: Instr): (b: bool)
    ensures b ==> Operand0(r).Some?
    ensures b ==> l.id == Operand0(r).value || Operand0(l) == Operand0(r)
    ensures Operand0(r).Some? && l.id == Operand0(r).value ==> b
    ensures Operand0(r).Some? && Operand0(l) == Operand0(r) ==> b
  {
    match r.kind
    case Call(_, Some(h)) =>
      l.id == h || (l.kind.Call? && l.kind.arg0 == Some(h))
    case _ => false
  }

  /**
   An instruction whose argument 0 is not a call result (such as CAT_new with
   a literal) kills nothing, and neither does a non-call.
   */
  lemma LiteralKillsNothing(l: Instr, r: Instr)
    requires Operand0(r).None?
    ensures !IsKilledBy(l, r)
  {
  }

  /**
   Two calls that both write through a call result, neither of which is the
   other's argument, kill each other exactly when they write the same handle:
   on such pairs the relation is symmetric.
   */
  lemma KillBetweenRedefinitions(l: Instr, r: Instr)
    requires Operand0(l).Some? && Operand0(r).Some?
    requires l.id != Operand0(r).value && r.id != Operand0(l).value
    ensures IsKilledBy(l, r) <==> Operand0(l) == Operand0(r)
    ensures IsKilledBy(l, r) <==> IsKilledBy(r, l)
  {
  }

  /** The handle-producing call is killed by every call writing through it. */
  lemma HandleKilledByWriter(h: Instr, r: Instr)
    requires Operand0(r) == Some(h.id)
    ensures IsKilledBy(h, r)
  {
  }

  /**
   The relation is not irreflexive: every call writing through a call result
   "kills" itself. Pass 1 keeps an instruction out of its own KILL set only
   because it compares each new instruction with strictly earlier ones.
   */
  lemma SelfKill(inst: Instr)
    ensures IsKilledBy(inst, inst) <==> Operand0(inst).Some?
  {
  }
}
