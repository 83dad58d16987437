/** The imports the guest calls, as far as their shape matters to the
    bridge: handle arguments, "none" returned as handle 0, exceptions turned
    into a two-word store, results returned through an out-pointer, closure
    wrappers and their release. */
module Bridge {
  import opened Wrappers
  import opened Numeric
  import opened JsValue
  import opened HandleTable
  import opened GuestMemory
  import opened Utf8
  import opened Marshal
  import opened DebugFormat
  import Closures = ClosureAdapter

  /** The host's side of the bridge: the handle table, the guest's memory
      with the view caches, the `WASM_VECTOR_LEN` side channel, and the
      record of every closure wrapper made so far (the wrapper's `original`
      is an index into it). */
  datatype Host = Host(heap: Heap, guest: Guest, vectorLen: nat, closures: seq<Closures.Rec>)

  /** A shim's result for the guest, and the host after the call. */
  datatype Reply = Reply(host: Host, ret: nat)

  // ---------------------------------------------------------------------
  // Exceptions

  /** `handleError(exnptr, e)`: through a freshly fetched `Uint32Array`,
      store 1 in the word at `exnptr` and a new handle for `e` in the word
      after it. An unaligned `exnptr` makes both stores fractional property
      writes, which change nothing. */
  function HandleError(b: Host, exnptr: nat, e: Value): (r: Host)
    requires NextOk(b.heap)
    ensures |r.heap.slots| >= |b.heap.slots|
    ensures r.guest.mem.buffer == b.guest.mem.buffer && |r.guest.mem.data| == |b.guest.mem.data|
    ensures !IsLive(b.heap, b.heap.next) && Reserved <= b.heap.next
    ensures GetObject(r.heap, b.heap.next) == e
    ensures forall i :: 0 <= i < |b.heap.slots| && i != b.heap.next ==> r.heap.slots[i] == b.heap.slots[i]
    ensures exnptr % 4 == 0 && exnptr + 8 <= |b.guest.mem.data| ==>
      && LoadWord(r.guest.mem.data, exnptr) == 1
      && LoadWord(r.guest.mem.data, exnptr + 4) == b.heap.next % WordModulus
    ensures forall i :: 0 <= i < |b.guest.mem.data| && !(exnptr <= i < exnptr + 8) ==>
      r.guest.mem.data[i] == b.guest.mem.data[i]
    ensures r.guest.views.u32 == Some(View(b.guest.mem.buffer)) && r.guest.views.u8 == b.guest.views.u8
    ensures r.vectorLen == b.vectorLen && r.closures == b.closures
  {
    var f := GetUint32Memory(b.guest.views, b.guest.mem);
    var added := AddHeapObject(b.heap, e);
    Host(added.heap, Guest(SetWordPair(b.guest.mem, f.view, exnptr, 1, added.idx), f.cache), b.vectorLen, b.closures)
  }

  /** What the host operation inside a shim's `try` does. */
  datatype Outcome = Returned(v: Value) | Threw(e: Value)

  /** The `try`/`catch` of a shim that returns an optional object (the
      shape of `__widl_f_get_context_HTMLCanvasElement`): a result goes back
      as a handle, or 0 for "none", without touching memory; an exception
      goes through `handleError` and the shim returns `undefined`, which the
      guest reads as 0. */
  function Guarded(b: Host, exnptr: nat, out: Outcome): (r: Reply)
    requires NextOk(b.heap)
    ensures |r.host.guest.mem.data| == |b.guest.mem.data|
    ensures out.Returned? ==> r.host.guest == b.guest && (r.ret == 0 <==> IsLikeNone(out.v))
    ensures out.Returned? && r.ret != 0 ==> GetObject(r.host.heap, r.ret) == out.v
    ensures out.Returned? && IsLikeNone(out.v) ==> r.host == b
    ensures out.Threw? ==> r.ret == 0
    ensures out.Threw? && exnptr % 4 == 0 && exnptr + 8 <= |b.guest.mem.data| && |b.heap.slots| < WordModulus ==>
      && LoadWord(r.host.guest.mem.data, exnptr) == 1
      && GetObject(r.host.heap, LoadWord(r.host.guest.mem.data, exnptr + 4)) == out.e
    ensures r.host.closures == b.closures && r.host.vectorLen == b.vectorLen
  {
    match out
    case Returned(v) =>
      var added := ReturnOptional(b.heap, v);
      Reply(b.(heap := added.heap), added.idx)
    case Threw(e) =>
      Reply(HandleError(b, exnptr, e), 0)
  }

  /** `__widl_f_get_context_HTMLCanvasElement(arg0, arg1, arg2, exnptr)`:
      decode the context name before the `try`, then call `getContext` on
      the object handle `arg0` (the host operation `op`). */
  function GetContext(b: Host, arg0: nat, arg1: nat, arg2: nat, exnptr: nat, op: (Value, JsString) -> Outcome): (r: Reply)
    requires NextOk(b.heap)
    ensures |r.host.guest.mem.data| == |b.guest.mem.data|
    ensures var out := op(GetObject(b.heap, arg0), GetStringFromWasm(b.guest, arg1, arg2).text);
      && (out.Returned? ==>
            && r.host.guest.mem == b.guest.mem
            && (r.ret == 0 <==> IsLikeNone(out.v))
            && (r.ret != 0 ==> GetObject(r.host.heap, r.ret) == out.v))
      && (out.Threw? ==> r.ret == 0)
      && (out.Threw? && exnptr % 4 == 0 && exnptr + 8 <= |b.guest.mem.data| && |b.heap.slots| < WordModulus ==>
            && LoadWord(r.host.guest.mem.data, exnptr) == 1
            && GetObject(r.host.heap, LoadWord(r.host.guest.mem.data, exnptr + 4)) == out.e)
    ensures r.host.guest.views.u8 == Some(View(b.guest.mem.buffer))
  {
    var name := GetStringFromWasm(b.guest, arg1, arg2);
    var b1 := b.(guest := Guest(b.guest.mem, name.views));
    var out := op(GetObject(b.heap, arg0), name.text);
    Guarded(b1, exnptr, out)
  }

  // ---------------------------------------------------------------------
  // Strings from the guest

  /** `__wbindgen_string_new(p, l)`: decode bytes `[p, p + l)` with the
      default decoder and hand out a fresh handle to the string. */
  function StringNew(b: Host, p: nat, l: nat): (r: Reply)
    requires NextOk(b.heap)
    ensures r.ret == b.heap.next && Reserved <= r.ret && !IsLive(b.heap, r.ret) && |r.host.heap.slots| >= |b.heap.slots|
    ensures p + l <= |b.guest.mem.data| ==>
      GetObject(r.host.heap, r.ret) == Str(TextDecode(b.guest.mem.data[p..p + l]))
    ensures forall i :: 0 <= i < |b.heap.slots| && i != r.ret ==> r.host.heap.slots[i] == b.heap.slots[i]
    ensures r.host.guest.mem == b.guest.mem && r.host.guest.views.u8 == Some(View(b.guest.mem.buffer))
    ensures r.host.vectorLen == b.vectorLen && r.host.closures == b.closures
  {
    var d := GetStringFromWasm(b.guest, p, l);
    var added := AddHeapObject(b.heap, Str(d.text));
    Reply(Host(added.heap, Guest(b.guest.mem, d.views), b.vectorLen, b.closures), added.idx)
  }

  /** A string the guest holds in its UTF-8 form comes back as a host
      string equal to it, provided it has no lone surrogates and does not
      start with U+FEFF (which the default decoder drops). */
  lemma StringNewRoundTrip(b: Host, p: nat, l: nat, s: JsString)
    requires NextOk(b.heap)
    requires p + l <= |b.guest.mem.data| && b.guest.mem.data[p..p + l] == Encode(s)
    requires NoLoneSurrogates(s) && (s == [] || s[0] != ByteOrderMark)
    ensures var r := StringNew(b, p, l); GetObject(r.host.heap, r.ret) == Str(s)
  {
    StringRoundTrip(b.guest, p, l, s);
  }

  // ---------------------------------------------------------------------
  // Strings back to the guest

  /** The out-pointer convention of `__wbg_stack_558ba5917b466edd` and of
      the info-log shims when the log is present: pass the string, then
      store its pointer and `WASM_VECTOR_LEN` in the two words at `ret`,
      through a `Uint32Array` fetched after the allocation. */
  method ReturnString(b: Host, al: Allocator, ret: nat, s: JsString) returns (r: Host, ptr: nat)
    requires Sound(al)
    ensures r.vectorLen == |Encode(s)| && r.heap == b.heap && r.closures == b.closures
    ensures ret % 4 == 0 && ret + 8 <= |r.guest.mem.data| ==>
      && LoadWord(r.guest.mem.data, ret) == ptr % WordModulus
      && LoadWord(r.guest.mem.data, ret + 4) == r.vectorLen % WordModulus
    ensures ptr + r.vectorLen <= |r.guest.mem.data|
    ensures ret + 8 <= ptr || ptr + r.vectorLen <= ret ==>
      && r.guest.mem.data[ptr..ptr + r.vectorLen] == Encode(s)
      && (NoLoneSurrogates(s) ==> GetStringKeepingBom(r.guest, ptr, r.vectorLen).text == s)
      && (NoLoneSurrogates(s) && (s == [] || s[0] != ByteOrderMark) ==>
            GetStringFromWasm(r.guest, ptr, r.vectorLen).text == s)
  {
    var g1, p, len, size, rounds := PassStringToWasm(b.guest, al, s);
    var f := GetUint32Memory(g1.views, g1.mem);
    var m := SetWordPair(g1.mem, f.view, ret, p, len);
    r := Host(b.heap, Guest(m, f.cache), len, b.closures);
    ptr := p;
    if ret + 8 <= ptr || ptr + len <= ret {
      assert m.data[ptr..ptr + len] == g1.mem.data[ptr..ptr + len];
      ReadsBack(r.guest, ptr, len, s);
    }
  }

  /** The tail of `__wbindgen_debug_string`: pass the text, store
      `WASM_VECTOR_LEN` in the one word at `lenPtr` through a `Uint32Array`
      fetched after the allocation, and return the pointer. */
  method ReturnLength(b: Host, al: Allocator, lenPtr: nat, s: JsString) returns (r: Host, ptr: nat)
    requires Sound(al)
    ensures r.vectorLen == |Encode(s)| && r.heap == b.heap && r.closures == b.closures
    ensures ptr + r.vectorLen <= |r.guest.mem.data|
    ensures lenPtr % 4 == 0 && lenPtr + 4 <= |r.guest.mem.data| ==>
      LoadWord(r.guest.mem.data, lenPtr) == r.vectorLen % WordModulus
    ensures lenPtr + 4 <= ptr || ptr + r.vectorLen <= lenPtr ==>
      r.guest.mem.data[ptr..ptr + r.vectorLen] == Encode(s)
  {
    var g1, p, len, size, rounds := PassStringToWasm(b.guest, al, s);
    var f := GetUint32Memory(g1.views, g1.mem);
    var m := SetWord(g1.mem, f.view, lenPtr, len);
    r := Host(b.heap, Guest(m, f.cache), len, b.closures);
    ptr := p;
    if lenPtr + 4 <= ptr || ptr + len <= lenPtr {
      assert m.data[ptr..ptr + len] == g1.mem.data[ptr..ptr + len];
    }
  }

  /** `__wbindgen_debug_string(i, len_ptr)`: render the value handle `i`
      resolves to and return it as `ReturnLength` does. When rendering
      throws, nothing changes and the exception reaches the guest. */
  method DebugString(b: Host, al: Allocator, lib: HostLib, i: nat, lenPtr: nat) returns (r: Host, ptr: nat, threw: bool)
    requires Sound(al)
    ensures threw <==> DebugStr(lib, GetObject(b.heap, i)).None?
    ensures threw ==> r == b
    ensures !threw ==>
      var text := DebugStr(lib, GetObject(b.heap, i)).value;
      && r.vectorLen == |Encode(text)| && r.heap == b.heap
      && ptr + r.vectorLen <= |r.guest.mem.data|
      && (lenPtr % 4 == 0 && lenPtr + 4 <= |r.guest.mem.data| ==>
            LoadWord(r.guest.mem.data, lenPtr) == r.vectorLen % WordModulus)
      && (lenPtr + 4 <= ptr || ptr + r.vectorLen <= lenPtr ==>
            r.guest.mem.data[ptr..ptr + r.vectorLen] == Encode(text))
  {
    var shown := DebugStr(lib, GetObject(b.heap, i));
    if shown.None? {
      return b, 0, true;
    }
    r, ptr := ReturnLength(b, al, lenPtr, shown.value);
    threw := false;
  }

  // ---------------------------------------------------------------------
  // Booleans

  /** `__wbindgen_boolean_get(i)`: 1 for `true`, 0 for `false`, 2 for
      anything that is not a boolean. */
  function BooleanGet(h: Heap, i: nat): (r: int)
    ensures r == 1 <==> GetObject(h, i) == Bool(true)
    ensures r == 0 <==> GetObject(h, i) == Bool(false)
    ensures r == 2 <==> !GetObject(h, i).Bool?
  {
    match GetObject(h, i)
    case Bool(v) => if v then 1 else 0
    case _ => 2
  }

  /** On a table that keeps its invariant the reserved handles 34 and 35
      read as `true` and `false`, and 32 (`undefined`) and 33 (`null`) as
      neither. */
  lemma ReservedBooleans(h: Heap, c: seq<nat>)
    requires ValidWith(h, c)
    ensures BooleanGet(h, 34) == 1 && BooleanGet(h, 35) == 0
    ensures BooleanGet(h, 32) == 2 && BooleanGet(h, 33) == 2
  {
    assert h.slots[32] == h.slots[..Reserved][32];
    assert h.slots[33] == h.slots[..Reserved][33];
    assert h.slots[34] == h.slots[..Reserved][34];
    assert h.slots[35] == h.slots[..Reserved][35];
  }

  // ---------------------------------------------------------------------
  // Closures

  /** The name a bound function reports: `cb.bind(cb)` is named "bound cb". */
  const BoundName: JsString := Lit("bound cb")

  /** `__wbindgen_closure_wrapper75(a, b, _)`: make the wrapper with
      `a` and a count of 1, bind it, point the bound function's `original`
      at it and hand out a handle to the bound function. */
  function ClosureWrapper(b: Host, a: int): (r: Reply)
    requires NextOk(b.heap)
    ensures |r.host.closures| == |b.closures| + 1 && r.host.closures[..|b.closures|] == b.closures
    ensures r.host.closures[|b.closures|] == Closures.Created(a)
    ensures Reserved <= r.ret && GetObject(r.host.heap, r.ret) == Function(Some(BoundName), Some(|b.closures|))
    ensures r.ret == b.heap.next && !IsLive(b.heap, r.ret) && |r.host.heap.slots| >= |b.heap.slots|
    ensures forall i :: 0 <= i < |b.heap.slots| && i != r.ret ==> r.host.heap.slots[i] == b.heap.slots[i]
    ensures r.host.guest == b.guest && r.host.vectorLen == b.vectorLen
  {
    var id := |b.closures|;
    var added := AddHeapObject(b.heap, Function(Some(BoundName), Some(id)));
    Reply(Host(added.heap, b.guest, b.vectorLen, b.closures + [Closures.Created(a)]), added.idx)
  }

  /** The wrapper a handle's value points at through `original`, if any. */
  function Original(b: Host, i: nat): (r: Option<nat>)
    ensures r.Some? ==> r.value < |b.closures|
  {
    match GetObject(b.heap, i)
    case Function(_, Some(id)) => if id < |b.closures| then Some(id) else None
    case _ => None
  }

  /** `__wbindgen_cb_drop(i)`'s result: `None` when it throws. */
  datatype Dropped = Dropped(host: Host, ret: Option<int>)

  /** `__wbindgen_cb_drop(i)`: take the handle (releasing it), then
      decrement the wrapper's count; return 1, zeroing `a`, exactly when the
      handle held the last reference. A value without a wrapper behind it
      makes `obj.cnt` a read off `undefined`, which throws after the handle
      has been released. */
  function CbDrop(b: Host, i: nat): (r: Dropped)
    ensures r.host.heap == DropObject(b.heap, i) && r.host.guest == b.guest && r.host.vectorLen == b.vectorLen
    ensures r.ret.Some? <==> Original(b, i).Some?
    ensures Original(b, i).None? ==> r.host.closures == b.closures
    ensures Original(b, i).Some? ==>
      var id := Original(b, i).value;
      && |r.host.closures| == |b.closures|
      && (forall k :: 0 <= k < |b.closures| && k != id ==> r.host.closures[k] == b.closures[k])
      && r.host.closures[id].cnt == b.closures[id].cnt - 1
      && (r.ret == Some(1) <==> b.closures[id].cnt == 1)
      && (r.ret == Some(0) <==> b.closures[id].cnt != 1)
      && r.host.closures[id].a == (if b.closures[id].cnt == 1 then 0 else b.closures[id].a)
  {
    var taken := TakeObject(b.heap, i);
    var b1 := b.(heap := taken.heap);
    match Original(b, i)
    case None => Dropped(b1, None)
    case Some(id) =>
      var (rec, ret) := Closures.DropRec(b.closures[id]);
      Dropped(b1.(closures := b.closures[id := rec]), Some(ret))
  }

  /** A wrapper made and then dropped with no call in flight is finalised
      by the drop: `__wbindgen_cb_drop` returns 1 and releases the handle. */
  lemma WrapThenDrop(b: Host, a: int)
    requires NextOk(b.heap)
    ensures var w := ClosureWrapper(b, a);
      var d := CbDrop(w.host, w.ret);
      && d.ret == Some(1)
      && d.host.closures[|b.closures|] == Closures.Rec(0, 0)
      && !IsLive(d.host.heap, w.ret)
  {
    var w := ClosureWrapper(b, a);
    assert Original(w.host, w.ret) == Some(|b.closures|);
  }
}
