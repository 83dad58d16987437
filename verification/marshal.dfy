/** Passing strings across the boundary. Host to guest: allocate guest
    memory, encode into it, and report the byte length through the
    `WASM_VECTOR_LEN` side channel. Guest to host: decode a byte range of
    guest memory. */
module Marshal {
  import opened Wrappers
  import opened Numeric
  import opened GuestMemory
  import opened Utf8

  /** A block the guest allocator handed out, with memory after the call. */
  datatype Block = Block(mem: Memory, ptr: nat)

  /** The guest's exported `__wbindgen_malloc(size)` and
      `__wbindgen_realloc(ptr, oldSize, newSize)`. Either may grow memory,
      which replaces its buffer. */
  datatype Allocator = Allocator(malloc: (Memory, nat) -> Block, realloc: (Memory, nat, nat, nat) -> Block)

  /** `malloc` returns a block of the requested size inside memory. */
  ghost predicate MallocOk(size: nat, b: Block) {
    b.ptr + size <= |b.mem.data|
  }

  /** `realloc` returns a block of the new size, possibly elsewhere, whose
      first `oldSize` bytes are those of the old block. */
  ghost predicate ReallocOk(m: Memory, ptr: nat, oldSize: nat, newSize: nat, b: Block)
    requires ptr + oldSize <= |m.data| && oldSize <= newSize
  {
    && b.ptr + newSize <= |b.mem.data|
    && b.mem.data[b.ptr..b.ptr + oldSize] == m.data[ptr..ptr + oldSize]
  }

  /** The contract the bridge relies on from the guest allocator. */
  ghost predicate Sound(al: Allocator) {
    && (forall m: Memory, n: nat :: MallocOk(n, al.malloc(m, n)))
    && (forall m: Memory, p: nat, o: nat, n: nat :: p + o <= |m.data| && o <= n ==> ReallocOk(m, p, o, n, al.realloc(m, p, o, n)))
  }

  lemma MallocFits(al: Allocator, m: Memory, n: nat)
    requires Sound(al)
    ensures MallocOk(n, al.malloc(m, n))
  {
  }

  lemma ReallocFits(al: Allocator, m: Memory, p: nat, o: nat, n: nat)
    requires Sound(al) && p + o <= |m.data| && o <= n
    ensures ReallocOk(m, p, o, n, al.realloc(m, p, o, n))
  {
  }

  /** A string passed to the guest: where it is and its length in bytes
      (the value left in `WASM_VECTOR_LEN`). */
  datatype Passed = Passed(guest: Guest, ptr: nat, len: nat)

  /** A string read from the guest, and the view cache after the read. */
  datatype Decoded = Decoded(text: seq<Unit>, views: ViewCache)

  /** One pass of the encode loop's body: fetch the byte view afresh, take
      the subarray from `ptr + writeOffset` to `ptr + size` and
      `encodeInto` it. */
  datatype Round = Round(guest: Guest, progress: Progress)

  function EncodeRound(g: Guest, ptr: nat, size: nat, writeOffset: nat, arg: seq<Unit>): (r: Round)
    requires ptr + size <= |g.mem.data| && writeOffset <= size
    ensures r.progress == EncodeInto(arg, size - writeOffset)
    ensures EncodedPrefix(arg, size - writeOffset, r.progress)
    ensures r.guest.mem.buffer == g.mem.buffer && |r.guest.mem.data| == |g.mem.data|
    ensures r.guest.mem.data[ptr + writeOffset..ptr + writeOffset + r.progress.written] == r.progress.bytes
    ensures forall i :: 0 <= i < |g.mem.data| && !(ptr + writeOffset <= i < ptr + size) ==>
      r.guest.mem.data[i] == g.mem.data[i]
    ensures r.guest.views.u8 == Some(View(g.mem.buffer)) && r.guest.views.u32 == g.views.u32
  {
    var f := GetUint8Memory(g.views, g.mem);
    var w := Subarray(g.mem, f.view, ptr + writeOffset, ptr + size);
    var p := EncodeInto(arg, w.len);
    Round(Guest(SetBytes(g.mem, f.view, w.start, p.bytes), f.cache), p)
  }

  /** The state of `passStringToWasm`'s loop: the block at `ptr` of `size`
      bytes, of which the first `written` are filled, and the part of the
      string not yet encoded. */
  datatype Pass = Pass(guest: Guest, ptr: nat, size: nat, written: nat, rest: seq<Unit>)

  /** The filled bytes followed by the encoding of what is left make up the
      encoding of `s`. */
  ghost predicate Resumable(st: Pass, s: seq<Unit>) {
    && st.ptr + st.size <= |st.guest.mem.data| && st.written <= st.size
    && st.guest.mem.data[st.ptr..st.ptr + st.written] + Encode(st.rest) == Encode(s)
  }

  /** One trip round the loop: encode into the free part of the block; if
      the string did not fit, grow the block by three bytes per code unit
      still unread. The trip finishes the string exactly when the rest's
      encoding fits in the free part. */
  method ResumePass(st: Pass, al: Allocator, ghost s: seq<Unit>) returns (st': Pass, done: bool)
    requires Sound(al) && Resumable(st, s)
    ensures Resumable(st', s)
    ensures done <==> |Encode(st.rest)| <= st.size - st.written
    ensures done ==> st'.rest == [] && st'.ptr == st.ptr && st'.size == st.size
    ensures done ==> st'.guest.views.u8 == Some(View(st'.guest.mem.buffer))
    ensures !done ==> |Encode(st'.rest)| <= st'.size - st'.written
    ensures st'.guest.views.u32 == st.guest.views.u32
  {
    var r := EncodeRound(st.guest, st.ptr, st.size, st.written, st.rest);
    var p := r.progress;
    var cap := st.size - st.written;
    EncodeIntoDone(st.rest, cap);
    RoundExtends(st.guest.mem.data, r.guest.mem.data, st.ptr, st.ptr + st.written, cap, p, st.rest, s);
    var written := st.written + p.written;
    if p.read == |st.rest| {
      assert st.rest[p.read..] == [];
      st' := Pass(r.guest, st.ptr, st.size, written, []);
      done := true;
      return;
    }
    var rest := st.rest[p.read..];
    var size := st.size + |rest| * 3;
    EncodeBound(rest);
    var nb := al.realloc(r.guest.mem, st.ptr, st.size, size);
    ReallocFits(al, r.guest.mem, st.ptr, st.size, size);
    st' := Pass(Guest(nb.mem, r.guest.views), nb.ptr, size, written, rest);
    GrowKeepsResumable(r.guest.mem, st.ptr, st.size, written, rest, s, nb, st');
    done := false;
  }

  /** `passStringToWasm` where `TextEncoder.encodeInto` exists. It allocates
      one byte per code unit and encodes; when that is not enough it grows
      the block and resumes where it stopped. Besides the block it returns
      the allocated `size` and the number of `encodeInto` calls. */
  method PassStringToWasm(g: Guest, al: Allocator, s: seq<Unit>)
    returns (g': Guest, ptr: nat, len: nat, size: nat, rounds: nat)
    requires Sound(al)
    ensures ptr + size <= |g'.mem.data| && len <= size
    ensures len == |Encode(s)| && g'.mem.data[ptr..ptr + len] == Encode(s)
    ensures rounds == 1 || rounds == 2
    ensures rounds == 1 <==> |Encode(s)| <= |s|
    ensures IsAscii(s) ==> rounds == 1 && size == |s|
    ensures g'.views.u8 == Some(View(g'.mem.buffer)) && g'.views.u32 == g.views.u32
    ensures NoLoneSurrogates(s) ==> GetStringKeepingBom(g', ptr, len).text == s
    ensures NoLoneSurrogates(s) && (s == [] || s[0] != ByteOrderMark) ==> GetStringFromWasm(g', ptr, len).text == s
  {
    var blk := al.malloc(g.mem, |s|);
    MallocFits(al, g.mem, |s|);
    var st := Pass(Guest(blk.mem, g.views), blk.ptr, |s|, 0, s);
    assert st.guest.mem.data[st.ptr..st.ptr] == [];
    rounds := 0;
    var done := false;
    while true
      invariant Resumable(st, s) && rounds <= 1
      invariant rounds == 0 ==> st.rest == s && st.written == 0 && st.size == |s|
      invariant rounds == 1 ==> |Encode(st.rest)| <= st.size - st.written && |Encode(s)| > |s|
      invariant st.guest.views.u32 == g.views.u32
      decreases 2 - rounds
    {
      st, done := ResumePass(st, al, s);
      rounds := rounds + 1;
      if done {
        break;
      }
    }
    if IsAscii(s) {
      EncodeAscii(s);
    }
    g', ptr, len, size := st.guest, st.ptr, st.written, st.size;
    ReadsBack(g', ptr, len, s);
  }

  /** After a round that wrote `p.bytes` at `at` and nothing outside
      `[at, at + cap)`, the bytes written so far followed by the encoding of
      what is still unread make up the whole encoding. */
  lemma RoundExtends(d: seq<Byte>, d': seq<Byte>, ptr: nat, at: nat, cap: nat, p: Progress, arg: seq<Unit>, s: seq<Unit>)
    requires ptr <= at && at + cap <= |d| == |d'|
    requires forall i :: 0 <= i < |d| && !(at <= i < at + cap) ==> d'[i] == d[i]
    requires EncodedPrefix(arg, cap, p) && d'[at..at + p.written] == p.bytes
    requires d[ptr..at] + Encode(arg) == Encode(s)
    ensures d'[ptr..at + p.written] + Encode(arg[p.read..]) == Encode(s)
  {
    var a := d[ptr..at];
    assert d'[ptr..at] == a by {
      forall i | ptr <= i < at
        ensures d'[i] == d[i]
      {
      }
    }
    assert d'[ptr..at + p.written] == d'[ptr..at] + d'[at..at + p.written];
    var rest := Encode(arg[p.read..]);
    calc {
      d'[ptr..at + p.written] + rest;
      (a + p.bytes) + rest;
      a + (p.bytes + rest);
      a + Encode(arg);
    }
  }

  /** `realloc` keeps the bytes written so far at the start of the block. */
  lemma ReallocKeepsPrefix(m: Memory, ptr: nat, oldSize: nat, newSize: nat, b: Block, k: nat)
    requires ptr + oldSize <= |m.data| && oldSize <= newSize && k <= oldSize
    requires ReallocOk(m, ptr, oldSize, newSize, b)
    ensures b.ptr + newSize <= |b.mem.data|
    ensures b.mem.data[b.ptr..b.ptr + k] == m.data[ptr..ptr + k]
  {
    assert b.mem.data[b.ptr..b.ptr + k] == b.mem.data[b.ptr..b.ptr + oldSize][..k];
    assert m.data[ptr..ptr + k] == m.data[ptr..ptr + oldSize][..k];
  }

  /** Moving the block with `realloc` keeps the loop's state resumable. */
  lemma GrowKeepsResumable(m: Memory, ptr: nat, size: nat, written: nat, rest: seq<Unit>, s: seq<Unit>, b: Block, st: Pass)
    requires ptr + size <= |m.data| && written <= size <= st.size
    requires m.data[ptr..ptr + written] + Encode(rest) == Encode(s)
    requires ReallocOk(m, ptr, size, st.size, b)
    requires st.guest.mem == b.mem && st.ptr == b.ptr && st.written == written && st.rest == rest
    ensures Resumable(st, s)
  {
    ReallocKeepsPrefix(m, ptr, size, st.size, b, written);
  }

  /** `passStringToWasm` where `encodeInto` does not exist: encode the whole
      string, allocate exactly that much and copy it in. It leaves the same
      bytes and length as `PassStringToWasm`. */
  function PassStringFallback(g: Guest, al: Allocator, s: seq<Unit>): (r: Passed)
    requires Sound(al)
    ensures r.ptr + r.len <= |r.guest.mem.data|
    ensures r.len == |Encode(s)| && r.guest.mem.data[r.ptr..r.ptr + r.len] == Encode(s)
    ensures r.guest.views.u8 == Some(View(r.guest.mem.buffer)) && r.guest.views.u32 == g.views.u32
    ensures NoLoneSurrogates(s) ==> GetStringKeepingBom(r.guest, r.ptr, r.len).text == s
    ensures NoLoneSurrogates(s) && (s == [] || s[0] != ByteOrderMark) ==> GetStringFromWasm(r.guest, r.ptr, r.len).text == s
  {
    var buf := Encode(s);
    var blk := al.malloc(g.mem, |buf|);
    var f := GetUint8Memory(g.views, blk.mem);
    var r := Passed(Guest(SetBytes(blk.mem, f.view, blk.ptr, buf), f.cache), blk.ptr, |buf|);
    ReadsBack(r.guest, r.ptr, r.len, s);
    r
  }

  /** `getStringFromWasm`: decode bytes `[ptr, ptr + len)` through a byte
      view fetched afresh, with `new TextDecoder('utf-8')`. */
  function GetStringFromWasm(g: Guest, ptr: nat, len: nat): (r: Decoded)
    ensures ptr + len <= |g.mem.data| ==> r.text == TextDecode(g.mem.data[ptr..ptr + len])
    ensures r.views.u8 == Some(View(g.mem.buffer)) && r.views.u32 == g.views.u32
  {
    var f := GetUint8Memory(g.views, g.mem);
    var w := Subarray(g.mem, f.view, ptr, ptr + len);
    Decoded(TextDecode(Visible(g.mem, f.view)[w.start..w.start + w.len]), f.cache)
  }

  /** `getStringFromWasm` with a decoder that keeps a leading byte order
      mark (`new TextDecoder('utf-8', { ignoreBOM: true })`). */
  function GetStringKeepingBom(g: Guest, ptr: nat, len: nat): (r: Decoded)
    ensures ptr + len <= |g.mem.data| ==> r.text == DecodeKeepingBom(g.mem.data[ptr..ptr + len])
    ensures r.views.u8 == Some(View(g.mem.buffer)) && r.views.u32 == g.views.u32
  {
    var f := GetUint8Memory(g.views, g.mem);
    var w := Subarray(g.mem, f.view, ptr, ptr + len);
    Decoded(DecodeKeepingBom(Visible(g.mem, f.view)[w.start..w.start + w.len]), f.cache)
  }

  /** Reading back what was passed gives the string (lone surrogates
      replaced) unless it starts with U+FEFF. */
  lemma StringRoundTrip(g: Guest, ptr: nat, len: nat, s: seq<Unit>)
    requires ptr + len <= |g.mem.data| && g.mem.data[ptr..ptr + len] == Encode(s)
    requires s == [] || s[0] != ByteOrderMark
    ensures GetStringFromWasm(g, ptr, len).text == Sanitize(s)
    ensures NoLoneSurrogates(s) ==> GetStringFromWasm(g, ptr, len).text == s
  {
    TextDecodeEncode(s);
    SanitizeIdentity(s);
  }

  /** A string that starts with U+FEFF does not survive the round trip: the
      decoder drops the mark. */
  lemma BomRoundTripFails(g: Guest, ptr: nat)
    requires ptr + 4 <= |g.mem.data| && g.mem.data[ptr..ptr + 4] == Encode([0xFEFF, 0x41])
    ensures GetStringFromWasm(g, ptr, 4).text == [0x41]
    ensures GetStringFromWasm(g, ptr, 4).text != [0xFEFF, 0x41]
  {
    TextDecodeEncode([0xFEFF, 0x41]);
    SanitizeIdentity([0x41]);
    assert [0xFEFF, 0x41][1..] == [0x41];
  }

  /** With the byte order mark kept, every string survives the round trip
      up to lone surrogates, and one without them survives exactly. */
  lemma StringRoundTripKeepingBom(g: Guest, ptr: nat, len: nat, s: seq<Unit>)
    requires ptr + len <= |g.mem.data| && g.mem.data[ptr..ptr + len] == Encode(s)
    ensures GetStringKeepingBom(g, ptr, len).text == Sanitize(s)
    ensures NoLoneSurrogates(s) ==> GetStringKeepingBom(g, ptr, len).text == s
  {
    DecodeEncode(s);
    SanitizeIdentity(s);
  }

  /** What both ways of passing a string promise about reading it back. */
  lemma ReadsBack(g: Guest, ptr: nat, len: nat, s: seq<Unit>)
    requires ptr + len <= |g.mem.data| && g.mem.data[ptr..ptr + len] == Encode(s)
    ensures NoLoneSurrogates(s) ==> GetStringKeepingBom(g, ptr, len).text == s
    ensures NoLoneSurrogates(s) && (s == [] || s[0] != ByteOrderMark) ==> GetStringFromWasm(g, ptr, len).text == s
  {
    StringRoundTripKeepingBom(g, ptr, len, s);
    if s == [] || s[0] != ByteOrderMark {
      StringRoundTrip(g, ptr, len, s);
    }
  }
}
