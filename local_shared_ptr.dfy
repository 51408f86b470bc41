/** local_shared_ptr<T>: a handle (px, pn) over a non-atomic control block.

    Registry stands for the heap of control blocks: the owner count of every
    block still alive, the blocks already destroyed, and (as ghost state) the
    handles currently alive. Handle is one local_shared_ptr object. Its
    constructors, destructor, assignments, reset and swap change px, pn and
    the counts in place, in the order the source does. Registry.Valid() is
    the reference-counting invariant of Ownership.Consistent applied to the
    live handles. */
module LocalSharedPtr {
  import opened Ownership

  /** What a handle reads of a shared_ptr it converts from: get() and
      use_count(). */
  datatype SharedPtr = SharedPtr(ptr: Address, useCount: nat)

  class Registry {
    /** local_use_count of every control block that is still alive */
    var counts: map<BlockId, nat>
    /** control blocks whose count reached zero: destroyed, together with
        the shared_ptr they held */
    var released: set<BlockId>
    /** the next address that new local_counted_impl hands out */
    var next: BlockId
    /** the local_shared_ptr objects currently alive */
    ghost var live: set<Handle>

    ghost predicate WellFormed()
      reads this
    {
      && counts.Keys !! released
      && (forall b :: b in counts ==> b < next)
      && (forall b :: b in released ==> b < next)
    }

    /** The value of every live handle. */
    ghost function Snapshot(): map<Handle, Ptr>
      reads this, live
    {
      map h | h in live :: h.Val()
    }

    /** The heap is well formed and every block's count is the number of
        live handles holding it. The last conjunct follows from Consistent
        (HeldBlocksAreAlive proves it); it is spelled out so that a
        precondition about a live handle's block reads it off directly. */
    ghost predicate Valid()
      reads this, live
    {
      && WellFormed()
      && Consistent(Snapshot(), counts)
      && (forall h :: h in live && h.pn.Some? ==> h.pn.value in counts)
    }

    /** Under the counting invariant, every live handle's block is alive. */
    lemma HeldBlocksAreAlive()
      requires Consistent(Snapshot(), counts)
      ensures forall h :: h in live && h.pn.Some? ==> h.pn.value in counts
    {
      forall h | h in live && h.pn.Some?
        ensures h.pn.value in counts
      {
        assert h in Snapshot() && Snapshot()[h] == h.Val();
      }
    }

    constructor ()
      ensures Valid()
      ensures counts == map[] && released == {} && live == {}
    {
      counts := map[];
      released := {};
      next := 0;
      live := {};
    }

    /** new local_counted_impl(...): a block at a fresh address, count 1. */
    method NewBlock() returns (b: BlockId)
      requires WellFormed()
      modifies this`counts, this`next
      ensures WellFormed()
      ensures b !in old(counts) && b !in old(released)
      ensures counts == old(counts)[b := 1]
    {
      b := next;
      counts := counts[b := 1];
      next := next + 1;
    }

    /** pn->add_ref() */
    method AddRef(b: BlockId)
      requires WellFormed() && b in counts
      modifies this`counts
      ensures WellFormed()
      ensures counts == Acquired(old(counts), Some(b))
    {
      counts := counts[b := counts[b] + 1];
    }

    /** pn->release(): at zero the block (and the shared_ptr inside it) is
        destroyed, which can happen only once per block. */
    method Release(b: BlockId)
      requires WellFormed() && b in counts && counts[b] > 0
      modifies this`counts, this`released
      ensures WellFormed()
      ensures counts == Dropped(old(counts), Some(b))
      ensures released == old(released) + Freed(old(counts), Some(b))
      ensures b in released <==> old(counts)[b] == 1
      ensures b !in old(released)
    {
      var n := counts[b] - 1;
      if n == 0 {
        counts := counts - {b};
        released := released + {b};
      } else {
        counts := counts[b := n];
      }
    }

    /** A local_shared_ptr object begins its lifetime. */
    ghost method Enlist(h: Handle)
      modifies this`live
      ensures live == old(live) + {h}
    {
      live := live + {h};
    }

    /** A local_shared_ptr object ends its lifetime. */
    ghost method Retire(h: Handle)
      modifies this`live
      ensures live == old(live) - {h}
    {
      live := live - {h};
    }
  }

  /** A std::unique_ptr, the sole owner of the object at ptr (0 when
      empty); a local_shared_ptr built from it takes that ownership over. */
  class UniquePtr {
    var ptr: Address

    constructor (p: Address)
      ensures ptr == p
    {
      ptr := p;
    }
  }

  class Handle {
    var px: Address
    var pn: Option<BlockId>

    function Val(): Ptr
      reads this
    {
      Ptr(px, pn)
    }

    /** local_use_count(): the number of live handles sharing this
        handle's block, 0 for a handle without one. */
    function LocalUseCount(reg: Registry): (n: nat)
      reads this, reg, reg.live
      requires reg.Valid() && this in reg.live
      ensures pn.None? ==> n == 0
      ensures pn.Some? ==> n == |Holders(reg.Snapshot(), pn.value)| && n >= 1
    {
      UseCountIsHolderCount(reg.Snapshot(), reg.counts, this);
      Val().LocalUseCount(reg.counts)
    }

    // -------------------------------------------------------------------
    // Constructors
    // -------------------------------------------------------------------

    /** local_shared_ptr() and local_shared_ptr(nullptr): px == 0, pn == 0. */
    constructor Empty(reg: Registry)
      requires reg.Valid()
      modifies reg`live
      ensures reg.Valid()
      ensures Val() == Null
      ensures reg.live == old(reg.live) + {this}
    {
      px := 0;
      pn := None;
      new;
      reg.Enlist(this);
      EnterShared(old(reg.Snapshot()), reg.counts, this, Val());
      SnapshotAfterEnlist(reg, this);
      reg.HeldBlocksAreAlive();
    }

    /** local_shared_ptr(p), (p, d), (p, d, a), (nullptr, d), (nullptr, d, a):
        px == p and a fresh block with count 1, even when p is null. */
    constructor FromRaw(reg: Registry, p: Address)
      requires reg.Valid()
      modifies reg`counts, reg`next, reg`live
      ensures reg.Valid()
      ensures px == p && pn.Some? && pn.value !in old(reg.counts) && pn.value !in old(reg.released)
      ensures reg.counts == old(reg.counts)[pn.value := 1]
      ensures reg.live == old(reg.live) + {this}
    {
      var b := reg.NewBlock();
      px := p;
      pn := Some(b);
      new;
      reg.Enlist(this);
      EnterFresh(old(reg.Snapshot()), old(reg.counts), this, p, b);
      SnapshotAfterEnlist(reg, this);
      reg.HeldBlocksAreAlive();
    }

    /** local_shared_ptr(shared_ptr const&) and (shared_ptr&&): px is always
        r.get(); a fresh block only when r.use_count() != 0. */
    constructor FromShared(reg: Registry, r: SharedPtr)
      requires reg.Valid()
      modifies reg`counts, reg`next, reg`live
      ensures reg.Valid()
      ensures px == r.ptr
      ensures r.useCount == 0 ==> pn.None? && reg.counts == old(reg.counts)
      ensures r.useCount != 0 ==> pn.Some? && pn.value !in old(reg.counts) && pn.value !in old(reg.released)
                                  && reg.counts == old(reg.counts)[pn.value := 1]
      ensures reg.live == old(reg.live) + {this}
    {
      px := r.ptr;
      pn := None;
      if r.useCount != 0 {
        var b := reg.NewBlock();
        pn := Some(b);
      }
      new;
      reg.Enlist(this);
      if pn.Some? {
        EnterFresh(old(reg.Snapshot()), old(reg.counts), this, px, pn.value);
      } else {
        EnterShared(old(reg.Snapshot()), reg.counts, this, Val());
      }
      SnapshotAfterEnlist(reg, this);
      reg.HeldBlocksAreAlive();
    }

    /** local_shared_ptr(unique_ptr&&): px is r.get(). When that is not
        null, a fresh block takes over r's ownership and r is left null;
        otherwise pn stays null and r is untouched. */
    constructor FromUnique(reg: Registry, r: UniquePtr)
      requires reg.Valid()
      modifies reg`counts, reg`next, reg`live, r
      ensures reg.Valid()
      ensures px == old(r.ptr) && r.ptr == 0
      ensures old(r.ptr) == 0 ==> pn.None? && reg.counts == old(reg.counts)
      ensures old(r.ptr) != 0 ==> pn.Some? && pn.value !in old(reg.counts) && pn.value !in old(reg.released)
                                  && reg.counts == old(reg.counts)[pn.value := 1]
      ensures reg.live == old(reg.live) + {this}
    {
      var p := r.ptr;
      px := p;
      pn := None;
      if p != 0 {
        var b := reg.NewBlock();
        pn := Some(b);
        r.ptr := 0;
      }
      new;
      reg.Enlist(this);
      if pn.Some? {
        EnterFresh(old(reg.Snapshot()), old(reg.counts), this, px, pn.value);
      } else {
        EnterShared(old(reg.Snapshot()), reg.counts, this, Val());
      }
      SnapshotAfterEnlist(reg, this);
      reg.HeldBlocksAreAlive();
    }

    /** Copy and converting copy: r's fields, and one more owner on r's
        block when it has one; r is unchanged. */
    constructor Copy(reg: Registry, r: Handle)
      requires reg.Valid() && r in reg.live
      modifies reg`counts, reg`live
      ensures reg.Valid()
      ensures Val() == r.Val()
      ensures reg.counts == Acquired(old(reg.counts), r.pn)
      ensures reg.live == old(reg.live) + {this}
    {
      px := r.px;
      pn := r.pn;
      new;
      ghost var before: map<Handle, Ptr> := old(reg.Snapshot());
      reg.Enlist(this);
      EnterShared(before, old(reg.counts), this, Val());
      if pn.Some? {
        reg.AddRef(pn.value);
      }
      SnapshotAfterEnlist(reg, this);
      reg.HeldBlocksAreAlive();
    }

    /** Move and converting move: r's fields move over and r is left with
        px == 0, pn == 0; no count changes. */
    constructor Move(reg: Registry, r: Handle)
      requires reg.Valid() && r in reg.live
      modifies reg`live, r
      ensures reg.Valid()
      ensures Val() == old(r.Val()) && r.Val() == Null
      ensures reg.live == old(reg.live) + {this}
    {
      px := r.px;
      pn := r.pn;
      new;
      reg.Enlist(this);
      SnapshotAfterEnlist(reg, this);
      r.px := 0;
      r.pn := None;
      assert reg.Snapshot() == old(reg.Snapshot())[this := Val()][r := Null];
      Transfer(old(reg.Snapshot()), reg.counts, r, this, px);
      reg.HeldBlocksAreAlive();
    }

    /** Aliasing, copy form: px == p, r's block, one more owner on it. */
    constructor Alias(reg: Registry, r: Handle, p: Address)
      requires reg.Valid() && r in reg.live
      modifies reg`counts, reg`live
      ensures reg.Valid()
      ensures Val() == Ptr(p, r.pn)
      ensures reg.counts == Acquired(old(reg.counts), r.pn)
      ensures reg.live == old(reg.live) + {this}
    {
      px := p;
      pn := r.pn;
      new;
      reg.Enlist(this);
      EnterShared(old(reg.Snapshot()), old(reg.counts), this, Val());
      if pn.Some? {
        reg.AddRef(pn.value);
      }
      SnapshotAfterEnlist(reg, this);
      reg.HeldBlocksAreAlive();
    }

    /** Aliasing, move form: px == p, r's block moves over and r is left
        empty; no count changes. */
    constructor AliasMove(reg: Registry, r: Handle, p: Address)
      requires reg.Valid() && r in reg.live
      modifies reg`live, r
      ensures reg.Valid()
      ensures Val() == Ptr(p, old(r.pn)) && r.Val() == Null
      ensures reg.live == old(reg.live) + {this}
    {
      px := p;
      pn := r.pn;
      new;
      reg.Enlist(this);
      SnapshotAfterEnlist(reg, this);
      r.px := 0;
      r.pn := None;
      assert reg.Snapshot() == old(reg.Snapshot())[this := Val()][r := Null];
      Transfer(old(reg.Snapshot()), reg.counts, r, this, p);
      reg.HeldBlocksAreAlive();
    }

    // -------------------------------------------------------------------
    // Destructor and swap
    // -------------------------------------------------------------------

    /** ~local_shared_ptr(): release() on pn when it is not null. The block
        is destroyed exactly when this was its last live handle. */
    method Destroy(reg: Registry)
      requires reg.Valid() && this in reg.live
      modifies reg`counts, reg`released, reg`live
      ensures reg.Valid()
      ensures reg.live == old(reg.live) - {this}
      ensures reg.counts == Dropped(old(reg.counts), pn)
      ensures reg.released == old(reg.released) + Freed(old(reg.counts), pn)
      ensures pn.Some? ==>
        (pn.value in reg.released <==> old(Holders(reg.Snapshot(), pn.value)) == {this})
    {
      ghost var before: map<Handle, Ptr> := reg.Snapshot();
      Leave(before, reg.counts, this);
      if pn.Some? {
        ReleasedIffLastHolder(before, reg.counts, this);
        reg.Release(pn.value);
      }
      reg.Retire(this);
      assert reg.Snapshot() == before - {this};
      reg.HeldBlocksAreAlive();
    }

    /** swap(r): exchanges px and pn with r; no count changes. */
    method Swap(r: Handle, ghost reg: Registry)
      requires reg.Valid() && this in reg.live && r in reg.live
      modifies this, r
      ensures reg.Valid()
      ensures Val() == old(r.Val()) && r.Val() == old(Val())
    {
      ghost var before: map<Handle, Ptr> := reg.Snapshot();
      var tx := px;
      px := r.px;
      r.px := tx;
      var tn := pn;
      pn := r.pn;
      r.pn := tn;
      Exchange(before, reg.counts, this, r);
      assert reg.Snapshot() == before[this := before[r]][r := before[this]];
      reg.HeldBlocksAreAlive();
    }

    // -------------------------------------------------------------------
    // Assignment and reset: a temporary, then swap, then the temporary dies
    // -------------------------------------------------------------------

    /** operator=(local_shared_ptr const&), same and converting type: the
        target ends with exactly r's fields; r's block gains one owner and
        the target's old block loses one. */
    method AssignCopy(reg: Registry, r: Handle)
      requires reg.Valid() && this in reg.live && r in reg.live
      modifies this, reg`counts, reg`released, reg`live
      ensures reg.Valid()
      ensures Val() == old(r.Val())
      ensures reg.live == old(reg.live)
      ensures reg.counts == Dropped(Acquired(old(reg.counts), old(r.pn)), old(pn))
      ensures reg.released == old(reg.released) + Freed(Acquired(old(reg.counts), old(r.pn)), old(pn))
      ensures r == this ==> reg.counts == old(reg.counts) && reg.released == old(reg.released)
    {
      ghost var live0 := reg.live;
      var tmp := new Handle.Copy(reg, r);
      assert live0 + {tmp} - {tmp} == live0;
      Swap(tmp, reg);
      tmp.Destroy(reg);
      if r == this {
        SelfAssignmentKeepsCounts(old(reg.counts), old(pn));
      }
    }

    /** operator=(local_shared_ptr&&), same and converting type: the target
        ends with r's old fields and r is left empty; only the target's old
        block loses an owner. Moving a handle into itself changes nothing. */
    method AssignMove(reg: Registry, r: Handle)
      requires reg.Valid() && this in reg.live && r in reg.live
      modifies this, r, reg`counts, reg`released, reg`live
      ensures reg.Valid()
      ensures Val() == old(r.Val())
      ensures r != this ==> r.Val() == Null
      ensures reg.live == old(reg.live)
      ensures r != this ==> reg.counts == Dropped(old(reg.counts), old(pn))
                            && reg.released == old(reg.released) + Freed(old(reg.counts), old(pn))
      ensures r == this ==> reg.counts == old(reg.counts) && reg.released == old(reg.released)
    {
      ghost var live0 := reg.live;
      var tmp := new Handle.Move(reg, r);
      assert live0 + {tmp} - {tmp} == live0;
      Swap(tmp, reg);
      tmp.Destroy(reg);
    }

    /** operator=(nullptr): the target ends empty; its old block loses one owner. */
    method AssignNull(reg: Registry)
      requires reg.Valid() && this in reg.live
      modifies this, reg`counts, reg`released, reg`live
      ensures reg.Valid()
      ensures Val() == Null
      ensures reg.live == old(reg.live)
      ensures reg.counts == Dropped(old(reg.counts), old(pn))
      ensures reg.released == old(reg.released) + Freed(old(reg.counts), old(pn))
    {
      ghost var live0 := reg.live;
      var tmp := new Handle.Empty(reg);
      assert live0 + {tmp} - {tmp} == live0;
      Swap(tmp, reg);
      tmp.Destroy(reg);
    }

    /** operator=(unique_ptr&&): the target ends with px == r.get() and a
        fresh block that took r's ownership when that is not null, empty
        otherwise; r is left null and the target's old block loses one
        owner. */
    method AssignUnique(reg: Registry, r: UniquePtr)
      requires reg.Valid() && this in reg.live
      modifies this, r, reg`counts, reg`next, reg`released, reg`live
      ensures reg.Valid()
      ensures px == old(r.ptr) && r.ptr == 0
      ensures reg.live == old(reg.live)
      ensures old(r.ptr) == 0 ==> pn.None? && reg.counts == Dropped(old(reg.counts), old(pn))
      ensures old(r.ptr) != 0 ==> pn.Some? && pn.value !in old(reg.counts) && pn.value !in old(reg.released)
                                  && reg.counts == Dropped(old(reg.counts)[pn.value := 1], old(pn))
      ensures reg.released == old(reg.released) + Freed(old(reg.counts), old(pn))
    {
      ghost var counts0, released0, pn0, live0 := reg.counts, reg.released, pn, reg.live;
      var tmp := new Handle.FromUnique(reg, r);
      assert live0 + {tmp} - {tmp} == live0;
      ghost var counts1, v := reg.counts, tmp.Val();
      if v.pn.Some? {
        ghost var b := v.pn.value;
        assert pn0.Some? ==> pn0.value in counts0 && pn0.value != b;
        assert Freed(counts1, pn0) == Freed(counts0, pn0);
      }
      Swap(tmp, reg);
      assert tmp.pn == pn0 && Val() == v;
      tmp.Destroy(reg);
      assert reg.counts == Dropped(counts1, pn0);
      assert reg.released == released0 + Freed(counts0, pn0);
    }

    /** reset(): the target ends empty; its old block loses one owner. */
    method Reset(reg: Registry)
      requires reg.Valid() && this in reg.live
      modifies this, reg`counts, reg`released, reg`live
      ensures reg.Valid()
      ensures Val() == Null
      ensures reg.live == old(reg.live)
      ensures reg.counts == Dropped(old(reg.counts), old(pn))
      ensures reg.released == old(reg.released) + Freed(old(reg.counts), old(pn))
    {
      ghost var live0 := reg.live;
      var tmp := new Handle.Empty(reg);
      assert live0 + {tmp} - {tmp} == live0;
      Swap(tmp, reg);
      tmp.Destroy(reg);
    }

    /** reset(p), reset(p, d), reset(p, d, a): the target ends with px == p
        on a fresh block; its old block loses one owner. */
    method ResetRaw(reg: Registry, p: Address)
      requires reg.Valid() && this in reg.live
      modifies this, reg`counts, reg`next, reg`released, reg`live
      ensures reg.Valid()
      ensures px == p && pn.Some? && pn.value !in old(reg.counts) && pn.value !in old(reg.released)
      ensures reg.live == old(reg.live)
      ensures reg.counts == Dropped(old(reg.counts)[pn.value := 1], old(pn))
      ensures reg.released == old(reg.released) + Freed(old(reg.counts), old(pn))
    {
      ghost var counts0, pn0, live0 := reg.counts, pn, reg.live;
      var tmp := new Handle.FromRaw(reg, p);
      assert live0 + {tmp} - {tmp} == live0;
      ghost var b := tmp.pn.value;
      assert pn0.Some? ==> pn0.value in counts0 && pn0.value != b;
      ghost var counts1 := counts0[b := 1];
      assert Freed(counts1, pn0) == Freed(counts0, pn0);
      Swap(tmp, reg);
      assert tmp.pn == pn0 && pn == Some(b);
      tmp.Destroy(reg);
    }

    /** reset(r, p), copy form: the target ends with px == p on r's block,
        which gains one owner; the target's old block loses one. */
    method ResetAlias(reg: Registry, r: Handle, p: Address)
      requires reg.Valid() && this in reg.live && r in reg.live
      modifies this, reg`counts, reg`released, reg`live
      ensures reg.Valid()
      ensures Val() == Ptr(p, old(r.pn))
      ensures reg.live == old(reg.live)
      ensures reg.counts == Dropped(Acquired(old(reg.counts), old(r.pn)), old(pn))
      ensures reg.released == old(reg.released) + Freed(Acquired(old(reg.counts), old(r.pn)), old(pn))
    {
      ghost var counts1 := Acquired(reg.counts, r.pn);
      ghost var pn0 := pn;
      ghost var live0 := reg.live;
      var tmp := new Handle.Alias(reg, r, p);
      assert live0 + {tmp} - {tmp} == live0;
      assert reg.counts == counts1;
      Swap(tmp, reg);
      assert tmp.pn == pn0;
      tmp.Destroy(reg);
    }

    /** reset(r, p), move form: the target ends with px == p on r's block
        and r is left empty; only the target's old block loses an owner. */
    method ResetAliasMove(reg: Registry, r: Handle, p: Address)
      requires reg.Valid() && this in reg.live && r in reg.live
      modifies this, r, reg`counts, reg`released, reg`live
      ensures reg.Valid()
      ensures Val() == Ptr(p, old(r.pn))
      ensures r != this ==> r.Val() == Null
      ensures reg.live == old(reg.live)
      ensures r != this ==> reg.counts == Dropped(old(reg.counts), old(pn))
                            && reg.released == old(reg.released) + Freed(old(reg.counts), old(pn))
      ensures r == this ==> reg.counts == old(reg.counts) && reg.released == old(reg.released)
    {
      ghost var live0 := reg.live;
      var tmp := new Handle.AliasMove(reg, r, p);
      assert live0 + {tmp} - {tmp} == live0;
      Swap(tmp, reg);
      tmp.Destroy(reg);
    }
  }

  /** A new handle h joins the live handles while every other one keeps
      its value: the snapshot gains h and nothing else changes. */
  twostate lemma SnapshotAfterEnlist(reg: Registry, new h: Handle)
    requires reg.live == old(reg.live) + {h} && h !in old(reg.live)
    requires forall g :: g in old(reg.live) ==> g.Val() == old(g.Val())
    ensures reg.Snapshot() == old(reg.Snapshot())[h := h.Val()]
  {
  }

  // ---------------------------------------------------------------------
  // Free functions
  // ---------------------------------------------------------------------

  /** swap(a, b) */
  method SwapHandles(a: Handle, b: Handle, ghost reg: Registry)
    requires reg.Valid() && a in reg.live && b in reg.live
    modifies a, b
    ensures reg.Valid()
    ensures a.Val() == old(b.Val()) && b.Val() == old(a.Val())
  {
    a.Swap(b, reg);
  }

  /** static_pointer_cast(r const&): an alias of r's block at the adjusted
      address, with one more owner. */
  method StaticPointerCast(reg: Registry, r: Handle, adjust: Address -> Address) returns (h: Handle)
    requires reg.Valid() && r in reg.live && KeepsNonNull(adjust)
    modifies reg`counts, reg`live
    ensures fresh(h) && reg.Valid()
    ensures h.Val() == Ptr(StaticCastAddress(r.px, adjust), r.pn)
    ensures h.px == 0 <==> r.px == 0
    ensures reg.counts == Acquired(old(reg.counts), r.pn)
    ensures reg.live == old(reg.live) + {h}
  {
    var p := StaticCastAddress(r.Val().Get(), adjust);
    h := new Handle.Alias(reg, r, p);
  }

  /** const_pointer_cast(r const&): an alias of r's block at the same
      address, with one more owner. */
  method ConstPointerCast(reg: Registry, r: Handle) returns (h: Handle)
    requires reg.Valid() && r in reg.live
    modifies reg`counts, reg`live
    ensures fresh(h) && reg.Valid()
    ensures h.Val() == r.Val()
    ensures reg.counts == Acquired(old(reg.counts), r.pn)
    ensures reg.live == old(reg.live) + {h}
  {
    var p := r.Val().Get();
    h := new Handle.Alias(reg, r, p);
  }

  /** dynamic_pointer_cast(r const&): DynamicCast of r's value, with one
      more owner on the result's block; a failed check yields the empty
      handle and no count change. */
  method DynamicPointerCast(reg: Registry, r: Handle, rtti: Address -> Address) returns (h: Handle)
    requires reg.Valid() && r in reg.live
    modifies reg`counts, reg`live
    ensures fresh(h) && reg.Valid()
    ensures h.Val() == DynamicCast(r.Val(), rtti)
    ensures reg.counts == Acquired(old(reg.counts), h.pn)
    ensures reg.live == old(reg.live) + {h}
  {
    var p := DynamicCast(r.Val(), rtti).Get();
    if p != 0 {
      h := new Handle.Alias(reg, r, p);
    } else {
      h := new Handle.Empty(reg);
    }
  }

  /** reinterpret_pointer_cast(r const&): an alias of r's block at the same
      address, with one more owner. */
  method ReinterpretPointerCast(reg: Registry, r: Handle) returns (h: Handle)
    requires reg.Valid() && r in reg.live
    modifies reg`counts, reg`live
    ensures fresh(h) && reg.Valid()
    ensures h.Val() == r.Val()
    ensures reg.counts == Acquired(old(reg.counts), r.pn)
    ensures reg.live == old(reg.live) + {h}
  {
    var p := r.Val().Get();
    h := new Handle.Alias(reg, r, p);
  }

  /** static_pointer_cast(r&&): r's block moves to a handle at the adjusted
      address; r is left empty and no count changes. */
  method StaticPointerCastMove(reg: Registry, r: Handle, adjust: Address -> Address) returns (h: Handle)
    requires reg.Valid() && r in reg.live && KeepsNonNull(adjust)
    modifies reg`live, r
    ensures fresh(h) && reg.Valid()
    ensures h.Val() == Ptr(StaticCastAddress(old(r.px), adjust), old(r.pn)) && r.Val() == Null
    ensures h.px == 0 <==> old(r.px) == 0
    ensures reg.live == old(reg.live) + {h}
  {
    var p := StaticCastAddress(r.Val().Get(), adjust);
    h := new Handle.AliasMove(reg, r, p);
  }

  /** const_pointer_cast(r&&): r's fields move to a new handle; r is left
      empty and no count changes. */
  method ConstPointerCastMove(reg: Registry, r: Handle) returns (h: Handle)
    requires reg.Valid() && r in reg.live
    modifies reg`live, r
    ensures fresh(h) && reg.Valid()
    ensures h.Val() == old(r.Val()) && r.Val() == Null
    ensures reg.live == old(reg.live) + {h}
  {
    var p := r.Val().Get();
    h := new Handle.AliasMove(reg, r, p);
  }

  /** dynamic_pointer_cast(r&&): DynamicCast of r's value. When the check
      succeeds, r's block moves to the result and r is left empty;
      otherwise the result is empty and r keeps its ownership untouched.
      No count changes either way. */
  method DynamicPointerCastMove(reg: Registry, r: Handle, rtti: Address -> Address) returns (h: Handle)
    requires reg.Valid() && r in reg.live
    modifies reg`live, r
    ensures fresh(h) && reg.Valid()
    ensures h.Val() == DynamicCast(old(r.Val()), rtti)
    ensures h.Val() != Null ==> r.Val() == Null
    ensures h.Val() == Null ==> r.Val() == old(r.Val())
    ensures reg.live == old(reg.live) + {h}
  {
    var p := DynamicCast(r.Val(), rtti).Get();
    if p != 0 {
      h := new Handle.AliasMove(reg, r, p);
    } else {
      h := new Handle.Empty(reg);
    }
  }

  /** reinterpret_pointer_cast(r&&): r's fields move to a new handle; r is
      left empty and no count changes. */
  method ReinterpretPointerCastMove(reg: Registry, r: Handle) returns (h: Handle)
    requires reg.Valid() && r in reg.live
    modifies reg`live, r
    ensures fresh(h) && reg.Valid()
    ensures h.Val() == old(r.Val()) && r.Val() == Null
    ensures reg.live == old(reg.live) + {h}
  {
    var p := r.Val().Get();
    h := new Handle.AliasMove(reg, r, p);
  }

  // ---------------------------------------------------------------------
  // Scenarios
  // ---------------------------------------------------------------------

  /** Swapping the same two handles twice restores both, and no count
      changes on the way. */
  method SwapTwice(a: Handle, b: Handle, reg: Registry)
    requires reg.Valid() && a in reg.live && b in reg.live
    modifies a, b
    ensures reg.Valid()
    ensures a.Val() == old(a.Val()) && b.Val() == old(b.Val())
  {
    a.Swap(b, reg);
    a.Swap(b, reg);
  }

  /** Adopting p and aliasing it at q gives two handles over one fresh
      block: unequal as pointers, equivalent under owner_before, each
      seeing a local_use_count of 2. */
  method NewAliasGroup(reg: Registry, p: Address, q: Address) returns (owner: Handle, alias: Handle)
    requires reg.Valid() && p != q
    modifies reg`counts, reg`next, reg`live
    ensures reg.Valid() && fresh(owner) && fresh(alias) && owner != alias
    ensures owner.Val() == Ptr(p, owner.pn) && alias.Val() == Ptr(q, owner.pn) && owner.pn.Some?
    ensures owner.pn.value !in old(reg.counts) && owner.pn.value !in old(reg.released)
    ensures reg.counts == Acquired(old(reg.counts)[owner.pn.value := 1], owner.pn)
    ensures reg.live == old(reg.live) + {owner} + {alias}
    ensures owner.LocalUseCount(reg) == 2 && alias.LocalUseCount(reg) == 2
    ensures NotEqual(owner.Val(), alias.Val())
    ensures !owner.Val().OwnerBefore(alias.Val()) && !alias.Val().OwnerBefore(owner.Val())
  {
    owner := new Handle.FromRaw(reg, p);
    alias := new Handle.Alias(reg, owner, q);
    AliasesUnequalButOwnerEquivalent(owner.Val(), alias.Val());
  }

  /** The alias group above, then both handles die: the block is destroyed
      and the count table is back where it started. */
  method AliasGroupLifetime(reg: Registry, p: Address, q: Address) returns (b: BlockId)
    requires reg.Valid() && p != q
    modifies reg`counts, reg`next, reg`released, reg`live
    ensures reg.Valid()
    ensures b !in old(reg.released) && reg.released == old(reg.released) + {b}
    ensures reg.counts == old(reg.counts) && reg.live == old(reg.live)
  {
    ghost var counts0, released0, live0 := reg.counts, reg.released, reg.live;
    var owner, alias := NewAliasGroup(reg, p, q);
    b := owner.pn.value;
    alias.Destroy(reg);
    SelfAssignmentKeepsCounts(counts0[b := 1], Some(b));
    owner.Destroy(reg);
    LastReleaseRestoresTable(counts0, b);
    assert reg.released == released0 + {} + {b};
    assert live0 + {owner} + {alias} - {alias} == live0 + {owner};
    assert live0 + {owner} - {owner} == live0;
  }
}
