/** The guest's linear memory and the host's cached typed-array views of it.
    Growing the memory replaces its backing `ArrayBuffer` and detaches the
    old one, so every view remembers the buffer it was built over and a view
    of a replaced buffer sees nothing. */
module GuestMemory {
  import opened Wrappers
  import opened Numeric

  /** `data` is the memory's bytes; `buffer` identifies the `ArrayBuffer`
      currently backing them (a generation counter bumped by growth). */
  datatype Memory = Memory(data: seq<Byte>, buffer: nat)

  /** A `Uint8Array` or `Uint32Array`, by the buffer it was built over. */
  datatype View = View(buffer: nat)

  /** `cachegetUint8Memory` and `cachegetUint32Memory`. */
  datatype ViewCache = ViewCache(u8: Option<View>, u32: Option<View>)

  /** The guest side of the bridge: its memory and the host's view caches. */
  datatype Guest = Guest(mem: Memory, views: ViewCache)

  /** A view handed out, the cache after the request, and whether the view
      had to be built anew. */
  datatype Fetched = Fetched(view: View, cache: ViewCache, rebuilt: bool)

  /** Both caches start out `null`. */
  const EmptyCache: ViewCache := ViewCache(None, None)

  /** The bytes a view can reach: all of memory if it is over the current
      buffer, none if its buffer has been detached. */
  function Visible(m: Memory, v: View): seq<Byte> {
    if v.buffer == m.buffer then m.data else []
  }

  /** The check both getters share: keep the cached view if it is over the
      current buffer, else build a new one. */
  function Refresh(cached: Option<View>, m: Memory): (View, bool) {
    if cached.None? || cached.value.buffer != m.buffer then (View(m.buffer), true)
    else (cached.value, false)
  }

  /** `getUint8Memory`. */
  function GetUint8Memory(c: ViewCache, m: Memory): (r: Fetched)
    ensures r.view.buffer == m.buffer && Visible(m, r.view) == m.data
    ensures r.cache.u8 == Some(r.view) && r.cache.u32 == c.u32
    ensures r.rebuilt <==> c.u8.None? || c.u8.value.buffer != m.buffer
    ensures !r.rebuilt ==> r.cache == c
  {
    var (v, rebuilt) := Refresh(c.u8, m);
    Fetched(v, c.(u8 := Some(v)), rebuilt)
  }

  /** `getUint32Memory`. */
  function GetUint32Memory(c: ViewCache, m: Memory): (r: Fetched)
    ensures r.view.buffer == m.buffer && Visible(m, r.view) == m.data
    ensures r.cache.u32 == Some(r.view) && r.cache.u8 == c.u8
    ensures r.rebuilt <==> c.u32.None? || c.u32.value.buffer != m.buffer
    ensures !r.rebuilt ==> r.cache == c
  {
    var (v, rebuilt) := Refresh(c.u32, m);
    Fetched(v, c.(u32 := Some(v)), rebuilt)
  }

  /** A view obtained before memory grew sees nothing afterwards, while the
      next request of either getter is rebuilt over the new buffer and sees
      all of it. */
  lemma ViewAfterGrowth(c: ViewCache, m: Memory, m': Memory)
    requires m'.buffer != m.buffer
    ensures var old8 := GetUint8Memory(c, m);
      && Visible(m', old8.view) == []
      && GetUint8Memory(old8.cache, m').rebuilt
      && Visible(m', GetUint8Memory(old8.cache, m').view) == m'.data
    ensures var old32 := GetUint32Memory(c, m);
      && Visible(m', old32.view) == []
      && GetUint32Memory(old32.cache, m').rebuilt
      && Visible(m', GetUint32Memory(old32.cache, m').view) == m'.data
  {
  }

  /** Asking again with the same buffer reuses the cached view. */
  lemma ViewReused(c: ViewCache, m: Memory)
    ensures var f := GetUint8Memory(c, m); !GetUint8Memory(f.cache, m).rebuilt
    ensures var f := GetUint32Memory(c, m); !GetUint32Memory(f.cache, m).rebuilt
  {
  }

  // ---------------------------------------------------------------------
  // Subarrays and stores

  /** A range of a view: first byte and length. */
  datatype Window = Window(start: nat, len: nat)

  /** `view.subarray(begin, end)`: both ends are clamped to the view's
      length, and an inverted range is empty. Callers pass only views over
      the current buffer (`EncodeRound` and `GetStringFromWasm` fetch one
      afresh); on a detached view the host would throw a `TypeError`
      instead of returning the empty window given here. */
  function Subarray(m: Memory, v: View, begin: nat, end: nat): (w: Window)
    ensures w.start + w.len <= |Visible(m, v)|
    ensures v.buffer == m.buffer && begin <= end <= |m.data| ==> w == Window(begin, end - begin)
  {
    var n := |Visible(m, v)|;
    var s := if begin < n then begin else n;
    var e := if end < n then end else n;
    Window(s, if s <= e then e - s else 0)
  }

  /** Writes `bytes` into memory from `at` through a current view (the
      writes of `encodeInto` and of `typedArray.set`). */
  function SetBytes(m: Memory, v: View, at: nat, bytes: seq<Byte>): (r: Memory)
    requires v.buffer == m.buffer && at + |bytes| <= |m.data|
    ensures r.buffer == m.buffer && |r.data| == |m.data|
    ensures r.data[at..at + |bytes|] == bytes
    ensures forall i :: 0 <= i < |m.data| && !(at <= i < at + |bytes|) ==> r.data[i] == m.data[i]
  {
    Memory(m.data[..at] + bytes + m.data[at + |bytes|..], m.buffer)
  }

  /** The little-endian 32-bit word at byte `p`. */
  function LoadWord(data: seq<Byte>, p: nat): (r: int)
    requires p + 4 <= |data|
  {
    data[p] as int + 0x100 * data[p + 1] as int + 0x1_0000 * data[p + 2] as int + 0x100_0000 * data[p + 3] as int
  }

  /** The four little-endian bytes a `Uint32Array` stores for `x`. */
  function WordBytes(x: int): (r: seq<Byte>)
    ensures |r| == 4
    ensures LoadWord(r, 0) == x % WordModulus
  {
    var y := x % WordModulus;
    var y1 := y / 0x100;
    var y2 := y1 / 0x100;
    [y % 0x100, y1 % 0x100, y2 % 0x100, y2 / 0x100]
  }

  /** A `Uint32Array` store `view[p / 4] = x` changes memory only when `p`
      names a whole element of a current view: an unaligned `p` makes
      `p / 4` a fractional property name, and out-of-range or detached
      stores are ignored. */
  predicate WordWritable(m: Memory, v: View, p: nat) {
    v.buffer == m.buffer && p % 4 == 0 && p + 4 <= |m.data|
  }

  /** `view[p / 4] = x` on a `Uint32Array`. */
  function SetWord(m: Memory, v: View, p: nat, x: int): (r: Memory)
    ensures r.buffer == m.buffer && |r.data| == |m.data|
    ensures WordWritable(m, v, p) ==> LoadWord(r.data, p) == x % WordModulus
    ensures forall i :: 0 <= i < |m.data| && !(p <= i < p + 4) ==> r.data[i] == m.data[i]
    ensures !WordWritable(m, v, p) ==> r == m
  {
    if WordWritable(m, v, p) then
      var r := SetBytes(m, v, p, WordBytes(x));
      assert r.data[p..p + 4] == WordBytes(x);
      assert LoadWord(r.data, p) == LoadWord(WordBytes(x), 0) by {
        assert r.data[p] == WordBytes(x)[0] && r.data[p + 1] == WordBytes(x)[1];
        assert r.data[p + 2] == WordBytes(x)[2] && r.data[p + 3] == WordBytes(x)[3];
      }
      r
    else
      m
  }

  /** The shims' two-word store `view[p / 4] = x; view[p / 4 + 1] = y`:
      exactly the eight bytes from `p` change, and they read back as `x`
      and `y`. */
  function SetWordPair(m: Memory, v: View, p: nat, x: int, y: int): (r: Memory)
    ensures r.buffer == m.buffer && |r.data| == |m.data|
    ensures WordWritable(m, v, p) && p + 8 <= |m.data| ==>
      LoadWord(r.data, p) == x % WordModulus && LoadWord(r.data, p + 4) == y % WordModulus
    ensures forall i :: 0 <= i < |m.data| && !(p <= i < p + 8) ==> r.data[i] == m.data[i]
  {
    SetWord(SetWord(m, v, p, x), v, p + 4, y)
  }
}
