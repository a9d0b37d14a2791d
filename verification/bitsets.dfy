/**
 A model of the growable bit-vector (LLVM's BitVector) that the pass uses for
 its GEN, KILL, IN and OUT sets. A vector is a sequence of booleans; position
 `j` stands for the instruction with dense index `j`. Resizing pads with clear
 bits, as BitVector::resize does.
 */
module BitSets {

  type Bits = seq<bool>

  function Max(a: int, b: int): int {
    if a < b then b else a
  }

  /** Bit `j` is present and set. Reading past the end reads a clear bit. */
  predicate Has(v: Bits, j: int) {
    0 <= j < |v| && v[j]
  }

  /** The positions of the set bits. */
  function Members(v: Bits): (r: set<int>)
    ensures forall j :: j in r <==> Has(v, j)
  {
    set j | 0 <= j < |v| && v[j]
  }

  /** The vector holds exactly the same set bits as `w`. */
  ghost predicate SameBits(v: Bits, w: Bits) {
    forall j :: Has(v, j) <==> Has(w, j)
  }

  /** Every set bit of `v` is set in `w`. */
  ghost predicate SubBits(v: Bits, w: Bits) {
    forall j :: Has(v, j) ==> Has(w, j)
  }

  /**
   A vector grown only by setting single bits is either empty or ends in a set
   bit: it is never longer than its highest set bit requires.
   */
  predicate Normal(v: Bits) {
    |v| == 0 || v[|v| - 1]
  }

  /** BitVector::resize(n) when growing: the new bits are clear. */
  function Grow(v: Bits, n: nat): (r: Bits)
    requires |v| <= n
    ensures |r| == n
    ensures SameBits(r, v)
    ensures r[..|v|] == v
  {
    v + seq(n - |v|, _ => false)
  }

  /**
   One case of DFA_SET::add(int, int): grow to `i + 1` bits when shorter, then
   set bit `i`.
   */
  function SetBit(v: Bits, i: nat): (r: Bits)
    ensures |r| == Max(|v|, i + 1)
    ensures forall j :: Has(r, j) <==> Has(v, j) || j == i
    ensures Members(r) == Members(v) + {i}
    ensures Normal(v) ==> Normal(r)
  {
    var w := if |v| < i + 1 then Grow(v, i + 1) else v;
    w[i := true]
  }

  /**
   The bits of `t` after the set bits of `v[..m]` have been added one at a time,
   lowest position first, as DFA_SET::add(BitVector*, int) does.
   */
  function UnionPrefix(t: Bits, v: Bits, m: nat): (r: Bits)
    requires m <= |v|
    ensures forall j :: Has(r, j) <==> Has(t, j) || (j < m && Has(v, j))
    ensures |t| <= |r| <= Max(|t|, m)
    ensures Normal(t) ==> Normal(r)
  {
    if m == 0 then t
    else
      var u := UnionPrefix(t, v, m - 1);
      if v[m - 1] then SetBit(u, m - 1) else u
  }

  /** `t` with every set bit of `v` added. */
  function Union(t: Bits, v: Bits): (r: Bits)
    ensures forall j :: Has(r, j) <==> Has(t, j) || Has(v, j)
    ensures Members(r) == Members(t) + Members(v)
    ensures |t| <= |r| <= Max(|t|, |v|)
    ensures Normal(t) ==> Normal(r)
  {
    UnionPrefix(t, v, |v|)
  }

  /**
   BitVector::operator^= : the result is as long as the longer operand and
   holds the symmetric difference of the two sets of bits.
   */
  function Xor(a: Bits, b: Bits): (r: Bits)
    ensures |r| == Max(|a|, |b|)
    ensures Members(r) == (Members(a) - Members(b)) + (Members(b) - Members(a))
  {
    seq(Max(|a|, |b|), j => Has(a, j) != Has(b, j))
  }

  /**
   BitVector::operator&= : the result keeps the length of the left operand and
   clears every bit the right operand does not reach: its bits are the
   intersection of the two sets.
   */
  function And(a: Bits, b: Bits): (r: Bits)
    ensures |r| == |a|
    ensures Members(r) == Members(a) * Members(b)
  {
    seq(|a|, j requires 0 <= j < |a| => a[j] && Has(b, j))
  }

  /**
   The pass computes IN - KILL as `(IN ^ KILL) & IN`. For every pair of
   vectors, whatever their lengths and whether or not KILL is contained in IN,
   this is exactly the set difference.
   */
  function Minus(inSet: Bits, kill: Bits): (r: Bits)
    ensures forall j :: Has(r, j) <==> Has(inSet, j) && !Has(kill, j)
    ensures Members(r) == Members(inSet) - Members(kill)
    ensures |r| == Max(|inSet|, |kill|)
  {
    And(Xor(inSet, kill), inSet)
  }

  /** Normal vectors are equal exactly when they hold the same set bits. */
  lemma NormalEqual(v: Bits, w: Bits)
    requires Normal(v) && Normal(w)
    requires SameBits(v, w)
    ensures v == w
  {
    if |v| < |w| {
      assert Has(w, |w| - 1);
      assert false;
    } else if |w| < |v| {
      assert Has(v, |v| - 1);
      assert false;
    } else {
      forall j | 0 <= j < |v|
        ensures v[j] == w[j]
      {
        assert Has(v, j) <==> Has(w, j);
      }
    }
  }

  /**
   A normal vector that changed while only gaining bits has gained a bit: the
   pass's `comp != OUT` test detects exactly the growth of OUT.
   */
  lemma ChangedMeansGained(v: Bits, w: Bits)
    requires Normal(v) && Normal(w)
    requires SubBits(v, w)
    requires v != w
    ensures exists j :: Has(w, j) && !Has(v, j)
  {
    if forall j :: Has(w, j) ==> Has(v, j) {
      NormalEqual(v, w);
    }
  }
}
