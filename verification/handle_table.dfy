/** The handle table: host values live in an array of slots and the guest
    holds their indices. Free slots form an intrusive LIFO list: each free
    slot holds the index of the next free slot, `next` is the head, and the
    list ends at the table's length. Indices below `Reserved` hold fixed
    constants and are never handed out or released. */
module HandleTable {
  import opened JsValue

  /** 32 `undefined` slots, then `undefined`, `null`, `true`, `false`. */
  const Reserved: nat := 36

  datatype Slot = Held(value: Value) | Free(next: nat)

  /** `slots` is the host array `heap`, `next` is `heap_next`. */
  datatype Heap = Heap(slots: seq<Slot>, next: nat)

  /** The table after an allocation, and the index handed out. */
  datatype Added = Added(heap: Heap, idx: nat)

  /** The table after `takeObject`, and the value taken. */
  datatype Taken = Taken(heap: Heap, value: Value)

  function ReservedSlots(): seq<Slot> {
    seq(32, _ => Held(Undefined)) + [Held(Undefined), Held(Null), Held(Bool(true)), Held(Bool(false))]
  }

  /** The table as the module initialises it: the reserved slots only, and
      an empty free list. */
  function Initial(): Heap {
    Heap(ReservedSlots(), |ReservedSlots()|)
  }

  /** `getObject`: an unchecked read. A free slot yields the link number it
      stores and an index past the end yields `undefined`, as the host array
      would. */
  function GetObject(h: Heap, idx: nat): Value {
    if idx < |h.slots| then
      match h.slots[idx]
      case Held(v) => v
      case Free(n) => Number(n as real)
    else
      Undefined
  }

  /** A slot the guest currently owns a handle to. */
  predicate IsLive(h: Heap, idx: nat) {
    Reserved <= idx < |h.slots| && h.slots[idx].Held?
  }

  /** What `addHeapObject` relies on: the head is past the reserved range and
      is either the table's length or a free slot. Allocations and releases
      of reserved or live handles keep the table in this state (see
      `AddKeepsValid` and `DropKeepsValid`); releasing a handle that is
      already free can leave it. */
  predicate NextOk(h: Heap) {
    && Reserved <= h.next <= |h.slots|
    && (h.next < |h.slots| ==> h.slots[h.next].Free?)
  }

  /** `addHeapObject`: pop the head of the free list, appending a fresh slot
      first when the list is empty, and store `v` there. */
  function AddHeapObject(h: Heap, v: Value): (r: Added)
    requires NextOk(h)
    ensures Reserved <= r.idx && r.idx == h.next
    ensures GetObject(r.heap, r.idx) == v
    ensures |r.heap.slots| == if h.next == |h.slots| then |h.slots| + 1 else |h.slots|
    ensures forall i :: 0 <= i < |h.slots| && i != r.idx ==> r.heap.slots[i] == h.slots[i]
    ensures h.next < |h.slots| ==> r.heap.next == h.slots[h.next].next
    ensures h.next == |h.slots| ==> r.heap.next == |r.heap.slots|
  {
    var slots := if h.next == |h.slots| then h.slots + [Free(|h.slots| + 1)] else h.slots;
    var idx := h.next;
    Added(Heap(slots[idx := Held(v)], slots[idx].next), idx)
  }

  /** `dropObject`: ignore reserved indices, otherwise make `idx` the head of
      the free list. Like the host array, a store past the end extends the
      table with `undefined` holes. */
  function DropObject(h: Heap, idx: nat): (r: Heap)
    ensures idx < Reserved ==> r == h
    ensures Reserved <= idx ==> |r.slots| == if idx < |h.slots| then |h.slots| else idx + 1
    ensures Reserved <= idx ==> r.next == idx && r.slots[idx] == Free(h.next)
    ensures forall i :: 0 <= i < |h.slots| && i != idx ==> r.slots[i] == h.slots[i]
  {
    if idx < Reserved then h
    else if idx < |h.slots| then Heap(h.slots[idx := Free(h.next)], idx)
    else Heap(h.slots + seq(idx - |h.slots|, _ => Held(Undefined)) + [Free(h.next)], idx)
  }

  /** `takeObject`: read the slot, then release it. */
  function TakeObject(h: Heap, idx: nat): (r: Taken)
    ensures r.heap == DropObject(h, idx)
    ensures IsLive(h, idx) ==> r.value == h.slots[idx].value
  {
    Taken(DropObject(h, idx), GetObject(h, idx))
  }

  /** `__wbindgen_object_clone_ref`: a second, independent handle to the
      value `idx` resolves to. */
  function CloneRef(h: Heap, idx: nat): (r: Added)
    requires NextOk(h)
    ensures GetObject(r.heap, r.idx) == GetObject(h, idx)
    ensures IsLive(h, idx) ==> r.idx != idx && GetObject(r.heap, idx) == GetObject(h, idx)
  {
    AddHeapObject(h, GetObject(h, idx))
  }

  /** The shims' `isLikeNone(val) ? 0 : addHeapObject(val)`: handle 0 means
      "none", which only works because allocation never yields it. */
  function ReturnOptional(h: Heap, v: Value): (r: Added)
    requires NextOk(h)
    ensures r.idx == 0 <==> IsLikeNone(v)
    ensures IsLikeNone(v) ==> r.heap == h
    ensures !IsLikeNone(v) ==> GetObject(r.heap, r.idx) == v
  {
    if IsLikeNone(v) then Added(h, 0) else AddHeapObject(h, v)
  }

  /** Releasing a slot and allocating again hands the same slot back. */
  lemma LifoReuse(h: Heap, idx: nat, v: Value)
    requires Reserved <= idx
    ensures NextOk(DropObject(h, idx))
    ensures AddHeapObject(DropObject(h, idx), v).idx == idx
  {
  }

  /** Allocating and then taking the handle back returns the stored value and
      restores the table, except that an allocation that had to grow the
      table leaves the new slot behind on the free list. */
  lemma TakeAfterAdd(h: Heap, v: Value)
    requires NextOk(h)
    ensures var a := AddHeapObject(h, v);
      TakeObject(a.heap, a.idx)
      == Taken(if h.next < |h.slots| then h else Heap(h.slots + [Free(|h.slots| + 1)], h.next), v)
  {
    var a := AddHeapObject(h, v);
    var t := TakeObject(a.heap, a.idx);
    if h.next < |h.slots| {
      assert t.heap.slots == h.slots;
    } else {
      assert t.heap.slots == h.slots + [Free(|h.slots| + 1)];
    }
  }

  /** Releasing a handle twice puts its slot on the free list twice: the
      next allocation leaves the head on the slot it has just filled, so
      the table is outside `NextOk` and another allocation would overwrite
      the live value. */
  lemma ReleaseTwiceBreaks(v: Value)
    ensures var a := AddHeapObject(Initial(), v);
      var h := DropObject(DropObject(a.heap, a.idx), a.idx);
      && NextOk(h)
      && var b := AddHeapObject(h, v);
      && b.idx == a.idx && b.heap.next == b.idx && IsLive(b.heap, b.idx)
      && !NextOk(b.heap)
  {
    var a := AddHeapObject(Initial(), v);
    assert a.idx == Reserved && |a.heap.slots| == Reserved + 1;
  }

  /** Releasing a clone leaves the original handle resolving as before. */
  lemma CloneIndependent(h: Heap, idx: nat)
    requires NextOk(h) && IsLive(h, idx)
    ensures var c := CloneRef(h, idx);
      GetObject(DropObject(c.heap, c.idx), idx) == GetObject(h, idx)
  {
  }

  // ---------------------------------------------------------------------
  // The free-list invariant

  /** `c` lists the free chain that starts at `from`: every element is a free
      slot outside the reserved range whose link is the next element, and the
      last link is the table's length. */
  ghost predicate IsChain(slots: seq<Slot>, from: nat, c: seq<nat>)
    decreases |c|
  {
    if c == [] then
      from == |slots|
    else
      && c[0] == from
      && Reserved <= from < |slots|
      && slots[from].Free?
      && IsChain(slots, slots[from].next, c[1..])
  }

  /** The table's invariant, with its free chain `c` as witness: the reserved
      slots hold their constants, the chain from `next` is duplicate-free and
      ends at the length, and it lists every free slot. So every index at or
      above `Reserved` is either live or on the chain exactly once. */
  ghost predicate ValidWith(h: Heap, c: seq<nat>) {
    && |h.slots| >= Reserved
    && h.slots[..Reserved] == ReservedSlots()
    && IsChain(h.slots, h.next, c)
    && (forall i, j :: 0 <= i < j < |c| ==> c[i] != c[j])
    && (forall i :: Reserved <= i < |h.slots| && h.slots[i].Free? ==> i in c)
  }

  ghost predicate Valid(h: Heap) {
    exists c :: ValidWith(h, c)
  }

  lemma {:induction false} ChainMembers(slots: seq<Slot>, from: nat, c: seq<nat>)
    requires IsChain(slots, from, c)
    ensures forall k :: 0 <= k < |c| ==> Reserved <= c[k] < |slots| && slots[c[k]].Free?
    decreases |c|
  {
    if c != [] {
      ChainMembers(slots, slots[from].next, c[1..]);
      forall k | 0 <= k < |c|
        ensures Reserved <= c[k] < |slots| && slots[c[k]].Free?
      {
        if k > 0 {
          assert c[k] == c[1..][k - 1];
        }
      }
    }
  }

  /** A chain survives a change to slots it does not visit. */
  lemma {:induction false} ChainFrame(slots: seq<Slot>, slots': seq<Slot>, from: nat, c: seq<nat>, x: nat)
    requires IsChain(slots, from, c)
    requires |slots'| == |slots| && x !in c
    requires forall i :: 0 <= i < |slots| && i != x ==> slots'[i] == slots[i]
    ensures IsChain(slots', from, c)
    decreases |c|
  {
    if c != [] {
      assert forall y :: y in c[1..] ==> y in c;
      ChainFrame(slots, slots', slots[from].next, c[1..], x);
    }
  }

  lemma InitialValid()
    ensures ValidWith(Initial(), [])
    ensures NextOk(Initial())
    ensures GetObject(Initial(), 32) == Undefined && GetObject(Initial(), 33) == Null
    ensures GetObject(Initial(), 34) == Bool(true) && GetObject(Initial(), 35) == Bool(false)
  {
    assert Initial().slots[..Reserved] == ReservedSlots();
  }

  /** The invariant gives `addHeapObject` what it relies on. */
  lemma ValidNextOk(h: Heap, c: seq<nat>)
    requires ValidWith(h, c)
    ensures NextOk(h)
  {
    if c != [] {
      ChainMembers(h.slots, h.next, c);
    }
  }

  /** Allocation pops the chain's head (or grows the table when the chain is
      empty) and keeps the invariant. */
  lemma AddKeepsValid(h: Heap, c: seq<nat>, v: Value)
    requires ValidWith(h, c)
    ensures NextOk(h)
    ensures ValidWith(AddHeapObject(h, v).heap, if c == [] then [] else c[1..])
  {
    ValidNextOk(h, c);
    var r := AddHeapObject(h, v).heap;
    ChainMembers(h.slots, h.next, c);
    if c == [] {
      assert r.next == |r.slots|;
      assert r.slots[..Reserved] == h.slots[..Reserved];
      forall i | Reserved <= i < |r.slots| && r.slots[i].Free?
        ensures i in []
      {
        assert i < |h.slots|;
        assert h.slots[i].Free?;
        assert i in c;
      }
    } else {
      var x := c[0];
      assert x !in c[1..] by {
        forall k | 0 <= k < |c[1..]|
          ensures c[1..][k] != x
        {
          assert c[1..][k] == c[k + 1];
        }
      }
      ChainFrame(h.slots, r.slots, h.slots[x].next, c[1..], x);
      assert r.slots[..Reserved] == h.slots[..Reserved];
      forall i | Reserved <= i < |r.slots| && r.slots[i].Free?
        ensures i in c[1..]
      {
        assert i != x;
        assert h.slots[i].Free?;
        assert i in c;
        var k :| 0 <= k < |c| && c[k] == i;
        assert k != 0;
        assert c[1..][k - 1] == i;
      }
    }
  }

  /** Releasing a reserved index or a live handle keeps the invariant; the
      released slot becomes the chain's head. */
  lemma DropKeepsValid(h: Heap, c: seq<nat>, idx: nat)
    requires ValidWith(h, c)
    requires idx < Reserved || IsLive(h, idx)
    ensures ValidWith(DropObject(h, idx), if idx < Reserved then c else [idx] + c)
  {
    if Reserved <= idx {
      var r := DropObject(h, idx);
      ChainMembers(h.slots, h.next, c);
      assert idx !in c;
      ChainFrame(h.slots, r.slots, h.next, c, idx);
      var c' := [idx] + c;
      assert c'[1..] == c;
      assert IsChain(r.slots, r.next, c');
      assert r.slots[..Reserved] == h.slots[..Reserved];
      forall i, j | 0 <= i < j < |c'|
        ensures c'[i] != c'[j]
      {
        if i > 0 {
          assert c'[i] == c[i - 1] && c'[j] == c[j - 1];
        } else {
          assert c'[j] == c[j - 1];
        }
      }
      forall i | Reserved <= i < |r.slots| && r.slots[i].Free?
        ensures i in c'
      {
        if i != idx {
          assert h.slots[i].Free?;
        }
      }
    }
  }

  // ---------------------------------------------------------------------
  // Traces of allocations and releases

  datatype Op = Alloc(v: Value) | Release(idx: nat)

  /** The table together with its free chain. */
  datatype Tracked = Tracked(heap: Heap, chain: seq<nat>)

  /** A trace whose every release names a reserved index or a live handle. */
  ghost predicate LiveReleases(h: Heap, c: seq<nat>, ops: seq<Op>)
    requires ValidWith(h, c)
    decreases |ops|
  {
    if ops == [] then true
    else match ops[0]
      case Alloc(v) =>
        AddKeepsValid(h, c, v);
        LiveReleases(AddHeapObject(h, v).heap, if c == [] then [] else c[1..], ops[1..])
      case Release(i) =>
        && (i < Reserved || IsLive(h, i))
        && (DropKeepsValid(h, c, i);
            LiveReleases(DropObject(h, i), if i < Reserved then c else [i] + c, ops[1..]))
  }

  /** The table after running the trace. */
  ghost function Run(h: Heap, c: seq<nat>, ops: seq<Op>): (r: Tracked)
    requires ValidWith(h, c) && LiveReleases(h, c, ops)
    decreases |ops|
  {
    if ops == [] then Tracked(h, c)
    else match ops[0]
      case Alloc(v) =>
        AddKeepsValid(h, c, v);
        Run(AddHeapObject(h, v).heap, if c == [] then [] else c[1..], ops[1..])
      case Release(i) =>
        DropKeepsValid(h, c, i);
        Run(DropObject(h, i), if i < Reserved then c else [i] + c, ops[1..])
  }

  /** Releasing only live handles keeps the free chain well formed through any
      trace, and a handle that the trace never releases keeps resolving to
      its value. */
  lemma {:induction false} TraceKeepsValid(h: Heap, c: seq<nat>, ops: seq<Op>, idx: nat)
    requires ValidWith(h, c) && LiveReleases(h, c, ops)
    requires IsLive(h, idx) && Release(idx) !in ops
    ensures ValidWith(Run(h, c, ops).heap, Run(h, c, ops).chain)
    ensures IsLive(Run(h, c, ops).heap, idx)
    ensures GetObject(Run(h, c, ops).heap, idx) == GetObject(h, idx)
    decreases |ops|
  {
    if ops != [] {
      assert Release(idx) !in ops[1..] by {
        forall k | 0 <= k < |ops[1..]|
          ensures ops[1..][k] != Release(idx)
        {
          assert ops[1..][k] == ops[k + 1];
        }
      }
      match ops[0]
      case Alloc(v) =>
        AddKeepsValid(h, c, v);
        ChainMembers(h.slots, h.next, c);
        TraceKeepsValid(AddHeapObject(h, v).heap, if c == [] then [] else c[1..], ops[1..], idx);
      case Release(i) =>
        DropKeepsValid(h, c, i);
        TraceKeepsValid(DropObject(h, i), if i < Reserved then c else [i] + c, ops[1..], idx);
    }
  }
}
