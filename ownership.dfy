/** The value of one local_shared_ptr handle (its two fields) and the owner
    counts of the control blocks, as plain values.

    This module holds the observers of a handle (get, local_use_count,
    owner_before, the equality operators, the operator[] precondition), the
    address computations of the pointer casts, and the bookkeeping fact that
    every handle operation must keep: the owner count of a control block is
    the number of live handles that hold it. */
module Ownership {

  /** A machine address; 0 is the null pointer. */
  type Address = nat

  /** The address of a control block (a local_counted_base). */
  type BlockId = nat

  datatype Option<T> = None | Some(value: T)

  /** Position of a control-block pointer in the total order of std::less;
      the null pointer sits below every block. */
  function OwnerKey(pn: Option<BlockId>): nat
  {
    match pn
    case None => 0
    case Some(b) => b + 1
  }

  /** The two fields of a handle: px, the element address, and pn, the
      control block it shares (None for a null pn). */
  datatype Ptr = Ptr(px: Address, pn: Option<BlockId>) {

    /** get(): the element address, whatever the block. */
    function Get(): Address
    {
      px
    }

    /** local_use_count(): the owner count of the block, or 0 without one. */
    function LocalUseCount(counts: map<BlockId, nat>): (n: nat)
      requires pn.Some? ==> pn.value in counts
      ensures pn.None? ==> n == 0
      ensures pn.Some? ==> n == counts[pn.value]
    {
      if pn.Some? then counts[pn.value] else 0
    }

    /** owner_before(r): orders handles by control block only. */
    predicate OwnerBefore(r: Ptr)
    {
      OwnerKey(pn) < OwnerKey(r.pn)
    }

    /** What operator[] asserts: a non-null element address and an index
        inside the array, unless the extent is unknown (0). */
    predicate IndexInBounds(i: int, extent: nat)
    {
      px != 0 && 0 <= i && (extent == 0 || i < extent)
    }

    /** operator[]: the address of element i, counted in elements. */
    function Index(i: int, extent: nat): (a: Address)
      requires IndexInBounds(i, extent)
      ensures a != 0 && px <= a
      ensures extent != 0 ==> a < px + extent
    {
      px + i
    }
  }

  /** The empty handle: px == 0 and pn == 0. */
  const Null := Ptr(0, None)

  /** operator==(a, b): compares get() only. */
  predicate Equal(a: Ptr, b: Ptr)
  {
    a.Get() == b.Get()
  }

  /** operator!=(a, b): compares get() only. */
  predicate NotEqual(a: Ptr, b: Ptr)
  {
    a.Get() != b.Get()
  }

  /** operator==(p, nullptr) and operator==(nullptr, p). */
  predicate IsNull(p: Ptr)
  {
    p.Get() == 0
  }

  // ---------------------------------------------------------------------
  // Pointer casts: the address each one computes from r.get()
  // ---------------------------------------------------------------------

  /** A base/derived pointer adjustment, as static_cast applies it, never
      turns a non-null pointer into null. */
  ghost predicate KeepsNonNull(adjust: Address -> Address)
  {
    forall a: Address :: a != 0 ==> adjust(a) != 0
  }

  /** static_cast<E*>(p): the result is null exactly when p is; a non-null
      address gets the compile-time base/derived adjustment. */
  function StaticCastAddress(p: Address, adjust: Address -> Address): (q: Address)
    requires KeepsNonNull(adjust)
    ensures q == 0 <==> p == 0
    ensures p != 0 ==> q == adjust(p)
  {
    if p == 0 then 0 else adjust(p)
  }

  /** dynamic_pointer_cast on the value of r: dynamic_cast<E*>(r.get()),
      with the run-time type check given as rtti, is null for a null r.get()
      and otherwise whatever the check yields. A successful check gives an
      alias of r's block at that address; a failed one gives the fully empty
      handle, never a null address that still holds a block. */
  function DynamicCast(r: Ptr, rtti: Address -> Address): (h: Ptr)
    ensures h.px == 0 ==> h == Null
    ensures h.px != 0 ==> r.px != 0 && h == Ptr(rtti(r.px), r.pn)
    ensures r.px == 0 || rtti(r.px) == 0 ==> h == Null
  {
    var p := if r.px == 0 then 0 else rtti(r.px);
    if p != 0 then Ptr(p, r.pn) else Null
  }

  /** The result of dynamic_pointer_cast compares equal to nullptr exactly
      when it is the empty handle, and otherwise shares r's ownership:
      neither is owner_before the other. */
  lemma DynamicCastIsAliasOrEmpty(r: Ptr, rtti: Address -> Address)
    ensures IsNull(DynamicCast(r, rtti)) <==> DynamicCast(r, rtti) == Null
    ensures !IsNull(DynamicCast(r, rtti)) ==>
      !DynamicCast(r, rtti).OwnerBefore(r) && !r.OwnerBefore(DynamicCast(r, rtti))
  {
    var h := DynamicCast(r, rtti);
    if !IsNull(h) {
      OwnerBeforeOrdersOwnershipGroups(h, r, r);
    }
  }

  // const_cast and reinterpret_cast leave the address as it is.

  // ---------------------------------------------------------------------
  // Owner counts
  // ---------------------------------------------------------------------

  /** The counts after add_ref() on pn, when pn is not null. */
  function Acquired(counts: map<BlockId, nat>, pn: Option<BlockId>): map<BlockId, nat>
    requires pn.Some? ==> pn.value in counts
  {
    if pn.Some? then counts[pn.value := counts[pn.value] + 1] else counts
  }

  /** The counts after release() on pn, when pn is not null: a block whose
      count reaches zero is destroyed and leaves the table. */
  function Dropped(counts: map<BlockId, nat>, pn: Option<BlockId>): map<BlockId, nat>
    requires pn.Some? ==> pn.value in counts && counts[pn.value] > 0
  {
    match pn
    case None => counts
    case Some(b) =>
      if counts[b] == 1 then counts - {b} else counts[b := counts[b] - 1]
  }

  /** The blocks that release() on pn destroys: the one whose count
      reaches zero, if any. */
  function Freed(counts: map<BlockId, nat>, pn: Option<BlockId>): set<BlockId>
    requires pn.Some? ==> pn.value in counts
  {
    if pn.Some? && counts[pn.value] == 1 then {pn.value} else {}
  }

  /** The live handles (keys of hs) that share block b. */
  ghost function Holders<K>(hs: map<K, Ptr>, b: BlockId): set<K>
  {
    set k | k in hs && hs[k].pn == Some(b)
  }

  /** The reference-counting invariant: every block a live handle holds is
      in the table, and each block's count is the number of live handles
      that hold it (so never zero while it is in the table). */
  ghost predicate Consistent<K>(hs: map<K, Ptr>, counts: map<BlockId, nat>)
  {
    && (forall k :: k in hs && hs[k].pn.Some? ==> hs[k].pn.value in counts)
    && (forall b :: b in counts ==> counts[b] == |Holders(hs, b)| && counts[b] > 0)
  }

  /** Writing v at key k changes the holders of b by k alone. */
  lemma HoldersAfterWrite<K>(hs: map<K, Ptr>, k: K, v: Ptr, b: BlockId)
    ensures Holders(hs[k := v], b) == Holders(hs, b) - {k} + (if v.pn == Some(b) then {k} else {})
  {
  }

  /** Removing key k removes k, and only k, from the holders of b. */
  lemma HoldersAfterRemove<K>(hs: map<K, Ptr>, k: K, b: BlockId)
    ensures Holders(hs - {k}, b) == Holders(hs, b) - {k}
  {
  }

  /** A new handle that shares pn (or holds nothing) and calls add_ref()
      keeps the invariant: copy, converting copy, aliasing, and the empty
      constructors. */
  lemma EnterShared<K>(hs: map<K, Ptr>, counts: map<BlockId, nat>, k: K, v: Ptr)
    requires Consistent(hs, counts) && k !in hs
    requires v.pn.Some? ==> v.pn.value in counts
    ensures Consistent(hs[k := v], Acquired(counts, v.pn))
  {
    var hs', counts' := hs[k := v], Acquired(counts, v.pn);
    forall j | j in hs' && hs'[j].pn.Some?
      ensures hs'[j].pn.value in counts'
    {
      if j != k {
        assert hs'[j] == hs[j];
      }
    }
    forall b | b in counts'
      ensures counts'[b] == |Holders(hs', b)| && counts'[b] > 0
    {
      HoldersAfterWrite(hs, k, v, b);
      var h := Holders(hs, b);
      assert k !in h;
      if v.pn == Some(b) {
        assert Holders(hs', b) == h + {k};
        assert counts'[b] == counts[b] + 1;
      } else {
        assert Holders(hs', b) == h;
        assert counts'[b] == counts[b];
      }
    }
  }

  /** A new handle on a freshly allocated block with count 1 keeps the
      invariant: adoption of a raw pointer, of a shared_ptr, of a unique_ptr. */
  lemma EnterFresh<K>(hs: map<K, Ptr>, counts: map<BlockId, nat>, k: K, p: Address, b: BlockId)
    requires Consistent(hs, counts) && k !in hs && b !in counts
    ensures Consistent(hs[k := Ptr(p, Some(b))], counts[b := 1])
  {
    var hs', counts' := hs[k := Ptr(p, Some(b))], counts[b := 1];
    forall j | j in hs' && hs'[j].pn.Some?
      ensures hs'[j].pn.value in counts'
    {
      if j != k {
        assert hs'[j] == hs[j];
      }
    }
    forall c | c in counts'
      ensures counts'[c] == |Holders(hs', c)| && counts'[c] > 0
    {
      FreshEntryCount(hs, counts, k, p, b, c);
    }
  }

  /** EnterFresh, one block at a time: the new block has the new handle as
      its only holder, and every other block keeps its holders. */
  lemma FreshEntryCount<K>(hs: map<K, Ptr>, counts: map<BlockId, nat>, k: K, p: Address, b: BlockId, c: BlockId)
    requires Consistent(hs, counts) && k !in hs && b !in counts && c in counts[b := 1]
    ensures counts[b := 1][c] == |Holders(hs[k := Ptr(p, Some(b))], c)|
  {
    HoldersAfterWrite(hs, k, Ptr(p, Some(b)), c);
    var h := Holders(hs, c);
    assert k !in h;
    if c == b {
      UntabledBlockHasNoHolders(hs, counts, b);
      assert Holders(hs[k := Ptr(p, Some(b))], c) == {k};
    }
  }

  /** No live handle holds a block the count table does not list. */
  lemma UntabledBlockHasNoHolders<K>(hs: map<K, Ptr>, counts: map<BlockId, nat>, b: BlockId)
    requires Consistent(hs, counts) && b !in counts
    ensures Holders(hs, b) == {}
  {
    forall j | j in hs
      ensures j !in Holders(hs, b)
    {
      assert hs[j].pn.Some? ==> hs[j].pn.value in counts;
    }
  }

  /** A handle that dies and calls release() on its block keeps the
      invariant: the destructor. */
  lemma Leave<K>(hs: map<K, Ptr>, counts: map<BlockId, nat>, k: K)
    requires Consistent(hs, counts) && k in hs
    ensures hs[k].pn.Some? ==> hs[k].pn.value in counts && counts[hs[k].pn.value] > 0
    ensures Consistent(hs - {k}, Dropped(counts, hs[k].pn))
  {
    var pn := hs[k].pn;
    var hs' := hs - {k};
    var counts' := Dropped(counts, pn);
    forall j | j in hs' && hs'[j].pn.Some?
      ensures hs'[j].pn.value in counts'
    {
      var c := hs'[j].pn.value;
      if pn == Some(c) {
        HoldersAfterRemove(hs, k, c);
        assert j in Holders(hs, c) && k in Holders(hs, c) && j != k;
        assert {j, k} <= Holders(hs, c);
        assert |{j, k}| == 2;
        SubsetCardinality({j, k}, Holders(hs, c));
      }
    }
    forall c | c in counts'
      ensures counts'[c] == |Holders(hs', c)| && counts'[c] > 0
    {
      HoldersAfterRemove(hs, k, c);
    }
  }

  /** Cardinality is monotone under inclusion. */
  lemma SubsetCardinality<T>(a: set<T>, b: set<T>)
    requires a <= b
    ensures |a| <= |b|
  {
    assert b == a + (b - a);
  }

  /** A new handle takes over src's block and src becomes empty, with no
      count change, keeps the invariant: move, converting move and
      move-aliasing construction. */
  lemma Transfer<K>(hs: map<K, Ptr>, counts: map<BlockId, nat>, src: K, k: K, p: Address)
    requires Consistent(hs, counts) && src in hs && k !in hs
    ensures Consistent(hs[k := Ptr(p, hs[src].pn)][src := Null], counts)
  {
    var pn := hs[src].pn;
    var v := Ptr(p, pn);
    // the new handle first shares src's block ...
    var hs1 := hs[k := v];
    EnterShared(hs, counts, k, v);
    // ... then src lets go of it ...
    var hs2 := hs1 - {src};
    Leave(hs1, Acquired(counts, pn), src);
    SelfAssignmentKeepsCounts(counts, pn);
    // ... and stays behind, empty
    EnterShared(hs2, counts, src, Null);
    assert hs2[src := Null] == hs[k := v][src := Null];
  }

  /** Exchanging the values of two distinct keys moves a holder of c from
      one key to the other, or changes nothing: the count of holders stays. */
  lemma ExchangeKeepsHolderCount<K>(hs: map<K, Ptr>, a: K, b: K, c: BlockId)
    requires a in hs && b in hs && a != b
    ensures |Holders(hs[a := hs[b]][b := hs[a]], c)| == |Holders(hs, c)|
  {
    var hs1 := hs[a := hs[b]];
    HoldersAfterWrite(hs, a, hs[b], c);
    HoldersAfterWrite(hs1, b, hs[a], c);
    var h := Holders(hs, c);
    assert a in h <==> hs[a].pn == Some(c);
    assert b in h <==> hs[b].pn == Some(c);
  }

  /** Exchanging the values of two live handles keeps the invariant: swap. */
  lemma Exchange<K>(hs: map<K, Ptr>, counts: map<BlockId, nat>, a: K, b: K)
    requires Consistent(hs, counts) && a in hs && b in hs
    ensures Consistent(hs[a := hs[b]][b := hs[a]], counts)
  {
    var hs' := hs[a := hs[b]][b := hs[a]];
    if a != b {
      forall c | c in counts
        ensures counts[c] == |Holders(hs', c)|
      {
        ExchangeKeepsHolderCount(hs, a, b, c);
      }
    } else {
      assert hs' == hs;
    }
  }

  /** The block of a dying handle is destroyed, giving up its shared_ptr,
      exactly when that handle is the block's last holder. */
  lemma ReleasedIffLastHolder<K>(hs: map<K, Ptr>, counts: map<BlockId, nat>, k: K)
    requires Consistent(hs, counts) && k in hs && hs[k].pn.Some?
    ensures hs[k].pn.value in counts
    ensures Freed(counts, hs[k].pn) == {hs[k].pn.value} <==> Holders(hs, hs[k].pn.value) == {k}
    ensures Freed(counts, hs[k].pn) == {} <==> Holders(hs, hs[k].pn.value) != {k}
  {
    var b := hs[k].pn.value;
    var h := Holders(hs, b);
    assert k in h;
    if |h| == 1 {
      assert |h - {k}| == 0;
      assert h - {k} == {};
      assert h == {k};
    }
  }

  /** Assigning a handle to itself: the temporary's add_ref() and its
      release() cancel out and no block is destroyed. */
  lemma SelfAssignmentKeepsCounts(counts: map<BlockId, nat>, pn: Option<BlockId>)
    requires pn.Some? ==> pn.value in counts && counts[pn.value] > 0
    ensures Dropped(Acquired(counts, pn), pn) == counts
    ensures Freed(Acquired(counts, pn), pn) == {}
  {
    if pn.Some? {
      var b := pn.value;
      assert Acquired(counts, pn)[b] > 1;
      assert Dropped(Acquired(counts, pn), pn) == counts[b := counts[b]];
    }
  }

  /** A block that enters the table with count 1 and is released once
      leaves the table as it was, and is the one block destroyed. */
  lemma LastReleaseRestoresTable(counts: map<BlockId, nat>, b: BlockId)
    requires b !in counts
    ensures Dropped(counts[b := 1], Some(b)) == counts
    ensures Freed(counts[b := 1], Some(b)) == {b}
  {
    assert counts[b := 1] - {b} == counts;
  }

  // ---------------------------------------------------------------------
  // Observers
  // ---------------------------------------------------------------------

  /** Under the invariant, local_use_count() of a live handle is the number
      of live handles sharing its block, and 0 for a handle without one. */
  lemma UseCountIsHolderCount<K>(hs: map<K, Ptr>, counts: map<BlockId, nat>, k: K)
    requires Consistent(hs, counts) && k in hs
    ensures hs[k].pn.Some? ==> hs[k].pn.value in counts
    ensures hs[k].pn.None? ==> hs[k].LocalUseCount(counts) == 0
    ensures hs[k].pn.Some? ==> hs[k].LocalUseCount(counts) == |Holders(hs, hs[k].pn.value)| >= 1
  {
  }

  /** owner_before is a strict weak order whose equivalence classes are
      exactly the ownership groups: neither handle is before the other iff
      they share pn. */
  lemma OwnerBeforeOrdersOwnershipGroups(a: Ptr, b: Ptr, c: Ptr)
    ensures !a.OwnerBefore(a)
    ensures a.OwnerBefore(b) && b.OwnerBefore(c) ==> a.OwnerBefore(c)
    ensures (!a.OwnerBefore(b) && !b.OwnerBefore(a)) <==> a.pn == b.pn
  {
    if OwnerKey(a.pn) == OwnerKey(b.pn) {
      match a.pn
      case None =>
      case Some(x) =>
    }
  }

  /** Two aliases over one block with different addresses are unequal, yet
      neither is owner_before the other. */
  lemma AliasesUnequalButOwnerEquivalent(a: Ptr, b: Ptr)
    requires a.pn == b.pn && a.px != b.px
    ensures !Equal(a, b) && NotEqual(a, b)
    ensures !a.OwnerBefore(b) && !b.OwnerBefore(a)
  {
  }

  /** == and != are complements and look at get() only; a handle equals
      nullptr iff get() is 0, whatever its block. */
  lemma EqualityIsByAddress(a: Ptr, b: Ptr)
    ensures Equal(a, b) <==> a.px == b.px
    ensures NotEqual(a, b) <==> !Equal(a, b)
    ensures IsNull(a) <==> Equal(a, Null)
    ensures IsNull(a) <==> a.px == 0
  {
  }
}
