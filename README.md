# local_shared_ptr: handles over a non-atomic owner count

This project models `boost::local_shared_ptr<T>`, the single-threaded smart
pointer of Boost.SmartPtr. A handle is two fields:

- `px`, the element address that `get()` returns;
- `pn`, a pointer to a control block (`local_counted_base`) that holds a
  plain, non-atomic owner count.

Every constructor, the destructor, every assignment, `reset` and `swap` is a
few field writes plus `add_ref()` or `release()` on `pn`. The casts build an
alias of the source's block at a recast address.

The model has two modules.

- `Ownership` (ownership.dfy) works on values. It defines:
  - `Ptr(px, pn)`, the value of one handle, with its observers (`get`,
    `local_use_count`, `owner_before`, `==`, `!=`, comparison with
    `nullptr`, and the `operator[]` precondition);
  - the address a static cast computes, and the whole result of a dynamic
    cast (an alias of the source's block, or the empty handle);
  - the count table after `add_ref` (`Acquired`) and after `release`
    (`Dropped`, `Freed`);
  - the reference-counting invariant `Consistent`: every block's count is
    the number of live handles that hold it.

  Its lemmas show that each kind of handle transition keeps `Consistent`.
  These transitions are: entering with a shared block, entering with a fresh
  block, leaving, transfer and exchange.
- `LocalSharedPtr` (local_shared_ptr.dfy) is the imperative model.
  - `Registry` stands for the heap of control blocks. It holds the counts of
    live blocks, the set of destroyed blocks, the next block address, and
    (as ghost state) the set of live handles.
  - `UniquePtr` is a `std::unique_ptr` reduced to its address; building
    from a non-null one takes its ownership and leaves it null.
  - `Handle` is one `local_shared_ptr` object with fields `px` and `pn`.
    Its constructors, destructor (`Destroy`), assignments and resets change
    the fields and the counts in place, in the source's order. Assignments
    and resets follow the source's pattern: build a temporary, swap, then
    destroy the temporary.
  - Every operation keeps `Registry.Valid()`. That predicate is `Consistent`
    applied to the live handles, so after every operation each block's count
    equals the number of live handles sharing it.

Addresses and block addresses are naturals, with 0 as null. A null `pn` is
`None`.

## Model

| member | source | states |
|---|---|---|
| Ownership.Ptr.LocalUseCount | include/boost/smart_ptr/local_shared_ptr.hpp:358-361 | 0 for a handle without a block; otherwise the block's owner count |
| Ownership.UseCountIsHolderCount | include/boost/smart_ptr/local_shared_ptr.hpp:358-361 | under the invariant, a handle's local_use_count is the number of live handles sharing its block (at least 1), and 0 without a block |
| Ownership.Ptr.Index | include/boost/smart_ptr/local_shared_ptr.hpp:342-348 | requires exactly the two asserted conditions: px not null, and 0 <= i < extent or an unknown extent. Under them, element i's address is non-null, not below px, and inside the array when the extent is known |
| Ownership.StaticCastAddress | include/boost/smart_ptr/local_shared_ptr.hpp:424 | for an adjustment that keeps non-null addresses non-null, the result is null exactly when p is null; a non-null address gets the base/derived adjustment |
| Ownership.DynamicCast | include/boost/smart_ptr/local_shared_ptr.hpp:444-445 | for a null r.get(), or when the run-time check yields null, the result is the fully empty handle. Otherwise it is an alias of r's block at the address the check yields. A null address never keeps a block |
| Ownership.DynamicCastIsAliasOrEmpty | include/boost/smart_ptr/local_shared_ptr.hpp:444-445 | the result of dynamic_pointer_cast equals nullptr exactly when it is the empty handle; otherwise neither it nor r is owner_before the other |
| Ownership.Ptr.Get | include/boost/smart_ptr/local_shared_ptr.hpp:350-353 | get() is px, whatever the block; its properties are stated by EqualityIsByAddress and DynamicCastIsAliasOrEmpty |
| Ownership.Ptr.OwnerBefore | include/boost/smart_ptr/local_shared_ptr.hpp:373-376 | owner_before compares pn alone, in the order of block addresses; OwnerBeforeOrdersOwnershipGroups proves it a strict weak order whose classes are the ownership groups |
| Ownership.Equal | include/boost/smart_ptr/local_shared_ptr.hpp:379-382 | operator== compares get() alone; EqualityIsByAddress states it |
| Ownership.NotEqual | include/boost/smart_ptr/local_shared_ptr.hpp:384-387 | operator!= compares get() alone; EqualityIsByAddress proves it the complement of == |
| Ownership.IsNull | include/boost/smart_ptr/local_shared_ptr.hpp:391-399 | p == nullptr and nullptr == p: get() is 0, whatever the block. The != nullptr forms (lines 401-409) are its negation and are not modelled separately |
| Ownership.EqualityIsByAddress | include/boost/smart_ptr/local_shared_ptr.hpp:379-409 | == holds iff the get() values match (for mixed types, after the implicit pointer conversion, see Left out); != is its complement; a handle equals nullptr iff get() is 0, whatever its block |
| Ownership.OwnerBeforeOrdersOwnershipGroups | include/boost/smart_ptr/local_shared_ptr.hpp:373-376 | owner_before is irreflexive and transitive; two handles are equivalent under it iff they share pn |
| Ownership.AliasesUnequalButOwnerEquivalent | include/boost/smart_ptr/local_shared_ptr.hpp:373-387 | two aliases of one block with different addresses compare unequal, yet neither is owner_before the other |
| Ownership.EnterShared | include/boost/smart_ptr/local_shared_ptr.hpp:167-173 | a new handle that shares an existing block and add_refs it (or holds no block) keeps every count equal to its number of holders |
| Ownership.EnterFresh | include/boost/smart_ptr/local_shared_ptr.hpp:75-79 | a new handle on a new block with count 1 keeps the invariant |
| Ownership.Leave | include/boost/smart_ptr/local_shared_ptr.hpp:53-59 | a dying handle's block is live with a positive count; removing the handle and releasing its block keeps the invariant |
| Ownership.ReleasedIffLastHolder | include/boost/smart_ptr/local_shared_ptr.hpp:55-58 | release() destroys the block iff the dying handle is its only holder, and destroys nothing otherwise |
| Ownership.Transfer | include/boost/smart_ptr/local_shared_ptr.hpp:179-183 | moving a handle's block to a new handle and emptying the source keeps the invariant, with no count change |
| Ownership.Exchange | include/boost/smart_ptr/local_shared_ptr.hpp:365-369 | exchanging the values of two live handles keeps the invariant, with no count change |
| Ownership.SelfAssignmentKeepsCounts | include/boost/smart_ptr/local_shared_ptr.hpp:241-245 | add_ref then release on one block leaves the table as it was and destroys no block |
| Ownership.LastReleaseRestoresTable | include/boost/smart_ptr/local_shared_ptr.hpp:55-58 | a block that entered with count 1 and is released once leaves the table as it was before the block existed; it is the one block destroyed |
| LocalSharedPtr.Registry.NewBlock | include/boost/smart_ptr/local_shared_ptr.hpp:76-77 | new local_counted_impl yields a block address never used before, with count 1; no other count changes |
| LocalSharedPtr.Registry.AddRef | include/boost/smart_ptr/local_shared_ptr.hpp:169-172 | add_ref adds one to the block's count |
| LocalSharedPtr.Registry.Release | include/boost/smart_ptr/local_shared_ptr.hpp:55-58 | release subtracts one; the block is destroyed iff its count was 1; it was not destroyed before |
| LocalSharedPtr.Handle.LocalUseCount | include/boost/smart_ptr/local_shared_ptr.hpp:358-361 | on a live handle: 0 without a block; otherwise the number of live handles sharing the block, which is at least 1 |
| LocalSharedPtr.Handle.Empty | include/boost/smart_ptr/local_shared_ptr.hpp:63-71 | default and nullptr construction give px == 0 and pn null, with no count change; the invariant holds |
| LocalSharedPtr.Handle.FromRaw | include/boost/smart_ptr/local_shared_ptr.hpp:75-105 | px == p and a fresh block with count 1, even when p is null (the nullptr-with-deleter forms); the invariant holds |
| LocalSharedPtr.Handle.FromShared | include/boost/smart_ptr/local_shared_ptr.hpp:111-135 | px is always r.get(); a fresh block with count 1 iff r.use_count() != 0, and otherwise pn is null and no count changes |
| LocalSharedPtr.Handle.FromUnique | include/boost/smart_ptr/local_shared_ptr.hpp:143-154 | px is r.get(). When that is not null, a fresh block with count 1 takes over and r is left null. Otherwise pn is null, no count changes and r stays null |
| LocalSharedPtr.Handle.Copy | include/boost/smart_ptr/local_shared_ptr.hpp:167-173 | copy and converting copy (also lines 189-199): the source's px (converted as the identity, see Left out) and pn; the source's block gains exactly one count iff pn is non-null; the invariant holds |
| LocalSharedPtr.Handle.Move | include/boost/smart_ptr/local_shared_ptr.hpp:179-183 | move and converting move (also lines 205-213): the source's old px (converted as the identity, see Left out) and pn, with the source left as (0, null) and no count change |
| LocalSharedPtr.Handle.Alias | include/boost/smart_ptr/local_shared_ptr.hpp:219-226 | px == p and pn == r.pn; that block gains one count when non-null |
| LocalSharedPtr.Handle.AliasMove | include/boost/smart_ptr/local_shared_ptr.hpp:230-235 | px == p and r's old block, with r left as (0, null) and no count change |
| LocalSharedPtr.Handle.Destroy | include/boost/smart_ptr/local_shared_ptr.hpp:53-59 | release on pn only when non-null. The block is destroyed iff this was its last live holder. The handle leaves the live set and the invariant holds for the rest |
| LocalSharedPtr.Handle.Swap | include/boost/smart_ptr/local_shared_ptr.hpp:365-369 | exchanges both fields with r, changes nothing else, and keeps the invariant |
| LocalSharedPtr.Handle.AssignCopy | include/boost/smart_ptr/local_shared_ptr.hpp:241-251 | the target ends with exactly r's fields. r's block gains one count and the target's old block loses one, and is destroyed at zero. Self-assignment leaves every count and the destroyed set unchanged |
| LocalSharedPtr.Handle.AssignMove | include/boost/smart_ptr/local_shared_ptr.hpp:255-266 | the target ends with r's old fields and r is left empty; only the target's old block loses a count. Moving a handle into itself changes no count |
| LocalSharedPtr.Handle.AssignNull | include/boost/smart_ptr/local_shared_ptr.hpp:272-276 | the target ends as (0, null); its old block loses one count |
| LocalSharedPtr.Handle.AssignUnique | include/boost/smart_ptr/local_shared_ptr.hpp:282-287 | the target ends with px == r.get() and r is left null. The target gets a fresh block iff that address is not null. Its old block loses one count and is destroyed exactly when that count reaches zero |
| LocalSharedPtr.Handle.Reset | include/boost/smart_ptr/local_shared_ptr.hpp:296-299 | the target ends as (0, null); its old block loses one count |
| LocalSharedPtr.Handle.ResetRaw | include/boost/smart_ptr/local_shared_ptr.hpp:301-314 | the target ends with px == p on a fresh block of count 1; its old block loses one count |
| LocalSharedPtr.Handle.ResetAlias | include/boost/smart_ptr/local_shared_ptr.hpp:316-319 | the target ends with px == p on r's block, which gains one count; the target's old block loses one |
| LocalSharedPtr.Handle.ResetAliasMove | include/boost/smart_ptr/local_shared_ptr.hpp:323-326 | the target ends with px == p on r's old block and r is left empty; only the target's old block loses a count |
| LocalSharedPtr.SwapHandles | include/boost/smart_ptr/local_shared_ptr.hpp:413-416 | free swap(a, b) exchanges both fields of a and b and keeps the invariant |
| LocalSharedPtr.SwapTwice | include/boost/smart_ptr/local_shared_ptr.hpp:365-369 | swapping the same two handles twice restores both and keeps the invariant |
| LocalSharedPtr.StaticPointerCast | include/boost/smart_ptr/local_shared_ptr.hpp:418-426 | an alias of r's block at the adjusted address, non-null exactly when r.get() is; one more count on that block |
| LocalSharedPtr.ConstPointerCast | include/boost/smart_ptr/local_shared_ptr.hpp:428-436 | an alias of r's block at r's address; one more count on that block |
| LocalSharedPtr.DynamicPointerCast | include/boost/smart_ptr/local_shared_ptr.hpp:438-446 | the result is DynamicCast of r, with one more count on its block. A failed check gives the empty handle and no count change |
| LocalSharedPtr.ReinterpretPointerCast | include/boost/smart_ptr/local_shared_ptr.hpp:448-456 | an alias of r's block at r's address; one more count on that block |
| LocalSharedPtr.StaticPointerCastMove | include/boost/smart_ptr/local_shared_ptr.hpp:460-468 | r's block moves to a handle at the adjusted address, non-null exactly when r.get() was; r is left empty and no count changes |
| LocalSharedPtr.ConstPointerCastMove | include/boost/smart_ptr/local_shared_ptr.hpp:470-478 | r's fields move to the new handle; r is left empty and no count changes |
| LocalSharedPtr.DynamicPointerCastMove | include/boost/smart_ptr/local_shared_ptr.hpp:480-488 | the result is DynamicCast of r's old value. On success r is left empty. On failure the result is empty and r keeps its fields. No count changes |
| LocalSharedPtr.ReinterpretPointerCastMove | include/boost/smart_ptr/local_shared_ptr.hpp:490-498 | r's fields move to the new handle; r is left empty and no count changes |
| LocalSharedPtr.NewAliasGroup | include/boost/smart_ptr/local_shared_ptr.hpp:219-226 | adopting p and aliasing it at q gives two handles on one fresh block. They are unequal, equivalent under owner_before, and each sees local_use_count 2 |
| LocalSharedPtr.AliasGroupLifetime | include/boost/smart_ptr/local_shared_ptr.hpp:53-59 | after both handles of an alias group die, their block is destroyed and the count table and live set are as before |

## Left out

- Control-block internals: `local_counted_base` and `local_counted_impl` live in `detail/local_counted_base.hpp`, which is not part of this model. A block is an address with an owner count. `add_ref`, `release` and `local_use_count` act on that count. A block whose count reaches zero is destroyed once.
- The shared_ptr each block holds, with its deleter and allocator, is foreign library code. Destroying a block stands for dropping that reference. Whether the pointee itself is then freed depends on other shared_ptr owners, which are outside the model.
- Deleters and allocators: the `(p, d)`, `(p, d, a)`, `(nullptr, d)` and `(nullptr, d, a)` constructors and resets all become `Handle.FromRaw` and `Handle.ResetRaw`. They differ only in what the embedded shared_ptr does at cleanup. A `UniquePtr` is its address alone: the deleter it hands over with its ownership is not modelled.
- LocalSharedPtr.Handle.FromShared: the copy form (line 111) and the move form (line 125) become one constructor that reads only `get()` and `use_count()` of the source. The effect on the source shared_ptr's own count, and the moved-from state of the source, are not modelled.
- Allocation failure and exceptions from `new local_counted_impl(...)` are not modelled: every allocation succeeds.
- Compile-time checks (`sp_enable_if_convertible`, `sp_assert_convertible`) are type-level only. So are the cast well-formedness probes such as `(void) static_cast<T*>(static_cast<U*>(0))`.
- LocalSharedPtr.Handle.Copy, LocalSharedPtr.Handle.Move, LocalSharedPtr.Handle.AssignCopy, LocalSharedPtr.Handle.AssignMove, LocalSharedPtr.Handle.FromRaw, LocalSharedPtr.Handle.FromShared, LocalSharedPtr.Handle.FromUnique, Ownership.Equal, Ownership.NotEqual, Ownership.EqualityIsByAddress: the model has no element types. So the implicit `Y*` to `T*` conversion is treated as the identity on addresses. That conversion happens in the converting copy and move constructors (lines 191 and 207), in the converting assignments built on them (lines 247-251 and 261-266), in adoption of a raw, shared_ptr or unique_ptr address (lines 76, 113, 127 and 146), and in mixed-type `==` and `!=` (lines 381 and 386). C++ adjusts the address there as `static_cast` does when `T` is a non-primary or virtual base of `Y`. So a converted handle can differ in `px` from the model, and two mixed-type handles the model calls unequal can compare equal. The ownership protocol (pn and every count) does not depend on this.
- Ownership.StaticCastAddress: the base/derived pointer adjustment is a parameter (`adjust`). The const and reinterpret casts keep the address unchanged.
- Ownership.DynamicCast: the run-time type check is a parameter (`rtti`), a function from address to address-or-null.
- `operator*` and `operator->` (raw dereference), `get_pointer`, `operator<<` (iostream) and `hash_value` are thin glue over `get()` and are not modelled.
- The `boost::movelib::unique_ptr` constructor and assignment (lines 159 and 292) are declared but never defined, so there is nothing to model.
- The conversion to bool comes from `detail/operator_bool.hpp`, which is not part of this model.
- Thread safety is out of scope: the type is single-threaded by contract.
- Ownership.OwnerBeforeOrdersOwnershipGroups: `std::less` over block addresses is modelled as the order of block ids, with the null block below every block. The source fixes only that the order is total, not where null falls.
- LocalSharedPtr.Registry.NewBlock: block addresses are never reused after a block is destroyed. This lets the destroyed set tell blocks apart, but a real heap may hand out the same address again.
- Ownership.Ptr.Index: models only the address that `px[i]` reads, in units of elements, not the element access itself.
