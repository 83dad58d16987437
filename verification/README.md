# wasm-bindgen host glue, modelled in Dafny

This project models the JavaScript glue that `wasm-bindgen` generated for the
`wasm_test` crate (`pkg/wasm_test.js`). The glue is everything the host does
on the WebAssembly guest's behalf:

- **Handle table.** Host values live in an array. The guest holds indices
  into it. Free slots form an intrusive LIFO list headed by `heap_next`.
  Indices 0 to 35 are reserved.
- **View caches.** The host caches `Uint8Array` and `Uint32Array` views of
  guest memory. A cached view is rebuilt when memory growth replaces the
  backing buffer.
- **String marshalling.** Strings go to the guest through `encodeInto` with
  at most one regrow, or through an exact-size fallback. The byte length
  comes back in `WASM_VECTOR_LEN`. Strings come from the guest through
  `TextDecoder`.
- **Exception bridge.** `handleError` writes a flag word and an exception
  handle into guest memory. The shims return strings through a two-word
  out-pointer.
- **Closure adapter.** Its state is a count `cnt` and a payload `a` that is
  zeroed while a call is in flight. `__wbindgen_cb_drop` releases it.
- **Shims.** The model covers the `debug_str` formatter and
  `__wbindgen_boolean_get`.

| file | module | contents |
|---|---|---|
| `wrappers.dfy` | `Wrappers` | `Option` |
| `numeric.dfy` | `Numeric` | bytes, UTF-16 code units, the 2^32 word modulus |
| `js_value.dfy` | `JsValue` | the host values as a closed datatype |
| `handle_table.dfy` | `HandleTable` | the handle table and its free-chain invariant |
| `guest_memory.dfy` | `GuestMemory` | guest memory, buffer identity, view caches, byte and word stores |
| `utf8.dfy` | `Utf8` | UTF-16 code points, UTF-8 (section 3 of RFC 3629), the WHATWG Encoding Standard's decoder and `encodeInto` |
| `marshal.dfy` | `Marshal` | `passStringToWasm`, both paths, and `getStringFromWasm` |
| `closure_adapter.dfy` | `ClosureAdapter` | the `(a, cnt)` state machine and nested call traces |
| `debug_format.dfy` | `DebugFormat` | `debug_str` |
| `bridge.dfy` | `Bridge` | `handleError`, the guarded shims, out-pointer returns, closure wrapper and `cb_drop` |

## How the model represents the host

- **Memory.** Guest memory is a byte sequence plus a buffer generation. A
  view is remembered by the generation it was built over. A view over a
  replaced buffer sees no bytes, the way a detached `ArrayBuffer` does.
- **Allocator.** The guest's `__wbindgen_malloc` and `__wbindgen_realloc` are
  parameters, constrained by `Marshal.Sound`:
  - `malloc` returns a block of the requested size inside memory;
  - `realloc` returns one of the new size;
  - `realloc` keeps the old block's bytes at the start of the new block;
  - either may grow memory.

  The contract is looser than real linear memory: it lets an allocator
  change memory's length without replacing the buffer, or shrink memory.
  Nothing proved here depends on that looseness.
- **Exceptions.** A `try`/`catch` becomes an `Outcome` (`Returned` or `Threw`)
  that the host operation produces.
- **Host library.** Number-to-text and `JSON.stringify` are supplied as
  functions (`DebugFormat.HostLib`).
- **Closure traces.** The host's reentrant behaviour during a closure call is
  a tree of acts: nested `Invoke`s and `Release`s. This makes well-nesting
  hold by construction.
- **Reserved handles.** The code reserves 36 indices: 32 `undefined`
  slots, then `undefined`, `null`, `true`, `false` at 32 to 35
  (`pkg/wasm_test.js:51-55`). `dropObject` ignores every index below 36.
- **Error rendering.** `debug_str` renders an `Error` with a line break
  followed by eight spaces before the stack: the indentation inside the
  template literal (`pkg/wasm_test.js:454-455`, `DebugFormat.ErrorIndent`).

## Model

| member | source | states |
|---|---|---|
| HandleTable.GetObject | pkg/wasm_test.js:57 | no contract; an unchecked read, characterised by `AddHeapObject`, `TakeObject` and `TakeAfterAdd` |
| HandleTable.AddHeapObject | pkg/wasm_test.js:59-68 | allocation returns the free-list head, which is at least 36 and resolves to the stored value; every other slot is unchanged; the table grows by exactly one slot when the list is empty and not otherwise; the new head is the old head's link, or the new length |
| HandleTable.DropObject | pkg/wasm_test.js:471-475 | an index below 36 changes nothing; any other index (below 2^31, see "Left out") becomes the list head, linking to the old head; no other slot changes |
| HandleTable.TakeObject | pkg/wasm_test.js:477-481 | returns the value the live slot held before the release, and leaves the table as `dropObject` does |
| HandleTable.CloneRef | pkg/wasm_test.js:534-538 | the clone resolves to the same value; cloning a live handle yields a different index and leaves the original resolving as before |
| JsValue.IsLikeNone | pkg/wasm_test.js:70-72 | no contract; characterised by `HandleTable.ReturnOptional`, which hands out 0 exactly for the values it accepts |
| HandleTable.ReturnOptional | pkg/wasm_test.js:70-80 | the handle is 0 exactly when the value is `undefined` or `null`; in that case the table is unchanged, otherwise the handle resolves to the value |
| HandleTable.LifoReuse | pkg/wasm_test.js:471-475 | after releasing a non-reserved index, the next allocation returns that index |
| HandleTable.TakeAfterAdd | pkg/wasm_test.js:477-481 | taking a just-allocated handle returns the value and restores the table, except for a slot that allocation appended, which stays on the free list |
| HandleTable.ReleaseTwiceBreaks | pkg/wasm_test.js:61-68 | releasing a handle twice and allocating again leaves the list head on the live slot just filled, outside the state allocation relies on |
| HandleTable.CloneIndependent | pkg/wasm_test.js:534-541 | releasing a clone leaves the original handle resolving to its value |
| HandleTable.InitialValid | pkg/wasm_test.js:51-59 | the initial table satisfies the free-chain invariant with an empty chain; 32 to 35 hold `undefined`, `null`, `true` and `false` |
| HandleTable.ValidNextOk | pkg/wasm_test.js:61-64 | under the invariant, the head is at least 36 and is either the length or a free slot, which is what allocation relies on |
| HandleTable.AddKeepsValid | pkg/wasm_test.js:61-68 | allocation keeps the invariant and pops the chain's head: the chain stays duplicate-free, avoids live and reserved slots, ends at the length and lists every free slot |
| HandleTable.DropKeepsValid | pkg/wasm_test.js:471-475 | releasing a reserved index or a live handle keeps the invariant and pushes the released index on the chain |
| HandleTable.TraceKeepsValid | pkg/wasm_test.js:534-541 | over any trace of allocations and live-only releases the invariant holds, and a handle the trace never releases stays live with its value |
| GuestMemory.GetUint8Memory | pkg/wasm_test.js:8-13 | the view returned is over the current buffer and sees all of memory; it is rebuilt exactly when the cache is null or over a replaced buffer, else the cache is returned unchanged; the 32-bit cache is untouched |
| GuestMemory.GetUint32Memory | pkg/wasm_test.js:88-94 | the same for the 32-bit cache, leaving the byte cache untouched |
| GuestMemory.ViewAfterGrowth | pkg/wasm_test.js:8-13 | after the buffer is replaced, a view obtained before sees nothing, and the next request rebuilds a view that sees the new memory |
| GuestMemory.ViewReused | pkg/wasm_test.js:88-94 | asking again with the same buffer does not rebuild |
| GuestMemory.Subarray | pkg/wasm_test.js:207 | the window lies inside what the view sees; over a current view with an in-range pair it is exactly `[begin, end)` |
| GuestMemory.SetBytes | pkg/wasm_test.js:224 | the bytes land at the offset, memory length and buffer are kept, and nothing outside the written range changes |
| GuestMemory.WordBytes | pkg/wasm_test.js:98-99 | a 32-bit store writes four little-endian bytes that read back as the value modulo 2^32 |
| GuestMemory.SetWord | pkg/wasm_test.js:98 | an aligned, in-range store through a current view reads back as the value modulo 2^32 and changes only its four bytes; any other store changes nothing |
| GuestMemory.SetWordPair | pkg/wasm_test.js:234-236 | the two-word out-pointer store changes only the eight bytes from the pointer, and both words read back |
| Utf8.Encode | pkg/wasm_test.js:222 | no contract; `TextEncoder.encode`: the UTF-8 form (section 3 of RFC 3629) of the string's code points, lone surrogates read as U+FFFD; characterised by `EncodeBound`, `EncodeAscii`, `DecodeUtf8` and `DecodeEncode` |
| Utf8.DecodeStep | pkg/wasm_test.js:16 | one step of the WHATWG Encoding Standard's UTF-8 decoder; it consumes at least one and at most all remaining bytes; characterised by `DecodeUtf8` |
| Utf8.DecodeKeepingBom | pkg/wasm_test.js:16 | no contract; the WHATWG UTF-8 decode with `ignoreBOM` set, so a leading U+FEFF is kept; characterised by `DecodeEncode` |
| Utf8.TextDecode | pkg/wasm_test.js:5-16 | no contract; `new TextDecoder('utf-8').decode`: the same decode, dropping a leading U+FEFF; characterised by `TextDecodeEncode` |
| Utf8.EncodeInto | pkg/wasm_test.js:208 | `encodeInto` writes a prefix of the UTF-8 encoding that fits the capacity; the written bytes plus the encoding of the unread rest are the whole encoding; it stops only at a code point that does not fit |
| Utf8.EncodeIntoDone | pkg/wasm_test.js:208-212 | `encodeInto` reads the whole string exactly when its encoding fits |
| Utf8.EncodeIntoFits | pkg/wasm_test.js:208-212 | when the encoding fits, `encodeInto` writes all of it |
| Utf8.EncodeBound | pkg/wasm_test.js:214 | the encoding takes at most three bytes per UTF-16 code unit, which is why one regrow by `3 × remaining` suffices |
| Utf8.EncodeAscii | pkg/wasm_test.js:203-204 | an ASCII string encodes to one byte per unit, equal to the unit |
| Utf8.DecodeUtf8 | pkg/wasm_test.js:16 | the WHATWG UTF-8 decoder inverts the RFC 3629 encoder on any sequence of scalar values |
| Utf8.CodePointsUtf16 | pkg/wasm_test.js:208 | reading code points from a UTF-16 encoding gives the scalar values back |
| Utf8.SanitizeIdentity | pkg/wasm_test.js:208 | replacing lone surrogates by U+FFFD leaves a string unchanged exactly when it has none |
| Utf8.DecodeEncode | pkg/wasm_test.js:16 | decoding (keeping a byte order mark) the encoding of a string gives the string with lone surrogates replaced |
| Utf8.TextDecodeEncode | pkg/wasm_test.js:5 | the default decoder gives the same unless the string starts with U+FEFF, which it drops |
| Marshal.EncodeRound | pkg/wasm_test.js:207-209 | one pass of the loop writes only inside `[ptr + writeOffset, ptr + size)`, fetches the byte view afresh and leaves the encoded prefix there |
| Marshal.ResumePass | pkg/wasm_test.js:206-215 | a trip round the loop keeps "written bytes + encoding of the rest = encoding of the string"; it finishes exactly when the rest's encoding fits the free space; otherwise after the regrow it does fit |
| Marshal.PassStringToWasm | pkg/wasm_test.js:201-218 | the length left in `WASM_VECTOR_LEN` is the UTF-8 length, and the bytes at the pointer are the encoding, inside the allocated block; there are one or two `encodeInto` calls, and one exactly when one byte per unit suffices; ASCII input never reallocates; a string without lone surrogates reads back as itself with a decoder that keeps a byte order mark, and with the default decoder when it also does not start with U+FEFF |
| Marshal.PassStringFallback | pkg/wasm_test.js:220-227 | the fallback path leaves the same length and bytes as the `encodeInto` path, and reads back the same way |
| Marshal.GetStringFromWasm | pkg/wasm_test.js:15-17 | decodes exactly the bytes `[ptr, ptr + len)` through a fresh byte view with the default decoder |
| Marshal.StringRoundTrip | pkg/wasm_test.js:15-17 | bytes holding the encoding of a string that does not start with U+FEFF read back as the string with lone surrogates replaced, and as the string itself when it has none |
| Marshal.BomRoundTripFails | pkg/wasm_test.js:5 | the string U+FEFF `A` does not survive the round trip: it reads back as `A` |
| Marshal.GetStringKeepingBom | pkg/wasm_test.js:15-17 | decodes the same bytes with a decoder that keeps a leading byte order mark |
| Marshal.StringRoundTripKeepingBom | pkg/wasm_test.js:15-17 | with that decoder every string reads back, up to lone surrogates |
| Marshal.ReadsBack | pkg/wasm_test.js:216-225 | what both passing paths guarantee about reading back the bytes they leave |
| ClosureAdapter.RunCall | pkg/wasm_test.js:511-522 | no contract; one call of the wrapper, characterised by `CallRestores`, `CallPayloads`, `CallWithRelease` and `AnyTrace` |
| ClosureAdapter.DropRec | pkg/wasm_test.js:483-490 | the drop decrements the count; it returns 1 and zeroes `a` exactly when the count was 1, else returns 0 and keeps `a` |
| ClosureAdapter.CallRestores | pkg/wasm_test.js:511-522 | a call during which the handle is not dropped, nested calls included, leaves `(a, cnt)` as before and finalises nothing; the outcome of `f` plays no part |
| ClosureAdapter.CallPayloads | pkg/wasm_test.js:512-516 | a call hands `f` the current `a`, and every call nested inside it receives 0 |
| ClosureAdapter.CallWithRelease | pkg/wasm_test.js:518-520 | a call inside which the handle is dropped once ends with the count one lower; its `finally` runs `d` with its own payload exactly when it was the outermost call |
| ClosureAdapter.ExactlyOnce | pkg/wasm_test.js:483-530 | from a fresh wrapper, any well-nested trace that drops once, with no call begun after the drop took effect, finalises exactly once with the original payload: by the drop returning 1 when no call is in flight, otherwise by the outermost call's `finally` |
| ClosureAdapter.AnyTrace | pkg/wasm_test.js:483-530 | from a fresh wrapper, any trace that drops once, calls after the drop included, finalises the closure's pointer exactly once: the first finalisation carries it, every later one runs `d` on 0, and the wrapper ends as `(0, 0)` |
| ClosureAdapter.NeverFinalised | pkg/wasm_test.js:511-522 | without a drop nothing is finalised and the wrapper is as created |
| ClosureAdapter.CallAfterDrop | pkg/wasm_test.js:511-520 | a call after the drop hands `f` a zeroed pointer and runs `d` a second time, which is why the trace must exclude it |
| DebugFormat.ClassName | pkg/wasm_test.js:434-441 | the class name is the tag up to its first `]`; the pattern matches exactly when the tag is non-empty and does not start with `]` |
| DebugFormat.DebugStr | pkg/wasm_test.js:394-459 | no contract; the formatter, characterised by `ArrayRendering`, `ObjectFreeRenders`, `Samples` and `ArraySample` |
| DebugFormat.DebugElems | pkg/wasm_test.js:421-432 | no contract; the array loop, characterised by `DebugElemsJoin` |
| DebugFormat.ArrayRendering | pkg/wasm_test.js:421-432 | an array renders as its elements' renderings joined by ", " in brackets, and throws exactly when an element does |
| DebugFormat.DebugElemsJoin | pkg/wasm_test.js:424-429 | the loop's accumulator after each element is the prefix joined by ", " |
| DebugFormat.ObjectFreeRenders | pkg/wasm_test.js:393-459 | only the class-name pattern can throw: a value without objects always renders |
| DebugFormat.Samples | pkg/wasm_test.js:398-458 | strings are quoted without escaping; a symbol without a description is `Symbol`; a function with an empty name is `Function`; a plain object is `Object(json)`, or `Object` when `JSON.stringify` throws; another class shows its name; an empty tag throws |
| DebugFormat.ArraySample | pkg/wasm_test.js:421-432 | `[true, "x"]` renders as `[true, "x"]` |
| Bridge.HandleError | pkg/wasm_test.js:96-100 | for an aligned, in-range pointer the word there becomes 1 and the next word a handle that was not live and now resolves to the exception; no other byte changes; no other slot changes |
| Bridge.Guarded | pkg/wasm_test.js:102-112 | on success the handle or 0 goes back and memory is untouched; on an exception the shim returns 0 and the two words read 1 and a handle resolving to the exception |
| Bridge.GetContext | pkg/wasm_test.js:102-112 | the same for the whole shim, with the context name decoded from guest memory first |
| Bridge.StringNew | pkg/wasm_test.js:382 | the handle handed out is the free-list head, was not live before, and resolves to the host string the default decoder makes of bytes `[p, p + l)`; no other slot and no memory byte changes |
| Bridge.StringNewRoundTrip | pkg/wasm_test.js:382 | bytes holding the UTF-8 form of a string without lone surrogates and not starting with U+FEFF come back as a handle to that very string |
| Bridge.ReturnString | pkg/wasm_test.js:370-378 | the two words at `ret` read back as the string's pointer and its UTF-8 length; `WASM_VECTOR_LEN` is that length; when the out-pointer does not overlap the string, its bytes are the encoding; a string without lone surrogates then reads back as itself with a decoder that keeps a byte order mark, and with the default decoder (`getStringFromWasm`) when it also does not start with U+FEFF |
| Bridge.ReturnLength | pkg/wasm_test.js:462-466 | the word at `len_ptr` reads back as the UTF-8 length, and the bytes at the returned pointer are the encoding when the word does not overlap them |
| Bridge.DebugString | pkg/wasm_test.js:393-466 | the shim throws exactly when rendering does, changing nothing; otherwise it returns the rendering as `ReturnLength` states |
| Bridge.BooleanGet | pkg/wasm_test.js:386-389 | 1 exactly for `true`, 0 exactly for `false`, 2 exactly for non-booleans |
| Bridge.ReservedBooleans | pkg/wasm_test.js:51-55 | under the invariant, handles 34 and 35 read as `true` and `false`, and 32 and 33 as neither |
| Bridge.ClosureWrapper | pkg/wasm_test.js:508-530 | a new wrapper with the payload and a count of 1 is recorded; the handle handed out is the free-list head, was not live before, and resolves to the bound function, whose `original` is that wrapper; no other slot changes |
| Bridge.Original | pkg/wasm_test.js:484 | the wrapper a handle's `original` points at, always an existing one |
| Bridge.CbDrop | pkg/wasm_test.js:483-490 | the handle is released whatever happens; for a wrapper, only its record changes, by `DropRec`; for any other value the shim throws |
| Bridge.WrapThenDrop | pkg/wasm_test.js:483-530 | creating a wrapper and dropping it at once returns 1, zeroes the record and releases the handle |

## Left out

- `init` (`pkg/wasm_test.js:544-580`): fetching and instantiating the module is I/O.
- The DOM and WebGL shims are left out. They are one-line calls into host APIs. Their shape is kept: handle arguments (`GetContext`), "none" as 0 (`ReturnOptional`), the guarded `try` (`Guarded`) and the out-pointer stores (`ReturnString`).
  - `__widl_f_request_animation_frame_Window` returns a host number rather than a handle. Only its `catch` path, `HandleError`, is modelled.
- The `None` branch of the info-log shims (`pkg/wasm_test.js:232`, `250`): the code stores an array literal as the pointer and a stale `WASM_VECTOR_LEN`. It promises nothing, so nothing is claimed for it.
- These are host exception raising and evaluation of host code:
  - `__wbindgen_throw`;
  - `__wbindgen_rethrow`, apart from the `takeObject` it performs;
  - `new Function`.
- `__wbindgen_memory` (`pkg/wasm_test.js:494`) hands out a handle to the guest's memory object. The host values here have no constructor for that object. As a handle operation it is `AddHeapObject`.
- Number-to-text and `JSON.stringify` are host library behaviour. They are parameters, not definitions.
- HandleTable.AddHeapObject: requires the list head to be the length or a free slot. Releasing a handle that is already free breaks that (`HandleTable.ReleaseTwiceBreaks`). In the code `heap_next` then becomes a stored value and a later allocation overwrites a live slot. States after such a release are not modelled, and neither is anything built on `AddHeapObject` from them.
- ClosureAdapter.ExactlyOnce: excludes calls that begin after the finalisation. The host can still make such a call, for instance a callback registered before the drop firing later. Then `f` gets a zero pointer and `d` runs again on a zero pointer. `ClosureAdapter.AnyTrace` states this for every trace. Whether the guest's `f` and `d` treat a zero pointer as "already dropped" is guest code, which is not part of this model.
- HandleTable.DropObject: handle indices (`idx` here, `i` in `Bridge.CbDrop`) are `nat` and are assumed below 2^31, like addresses. The guest passes them as signed 32-bit values with no `>>> 0`. From 2^31 up `dropObject` would see a negative index and return at `idx < 36`, leaving the table alone. In `__wbindgen_cb_drop` the call would then throw with the table unchanged. A handle handed out from 2^31 up would likewise read as negative in the guest. The model instead pushes such an index on the free list.
- Guest addresses (`ptr`, `exnptr`, `ret`, `len_ptr`) are `nat` and are assumed below 2^31. They cross the boundary as signed 32-bit values. From 2^31 up the host would see them negative: `subarray` would count from the end of the view, and a `Uint32Array` store at a negative key would change nothing.
- DebugFormat.ClassName: a tag that starts with `]` but contains the text `[object ` further on could still match later in the string. The model treats every tag starting with `]` as no match.
- Cyclic arrays cannot be represented in a datatype of finite values, so `debug_str` on one (which overflows the host stack) is not modelled.
- DebugFormat.DebugStr: `val instanceof Error` is keyed to the `Error` constructor of the datatype. Objects whose `toString` tag differs from their prototype chain are not modelled.
- Bridge.HandleError: the handle is stored modulo 2^32. `Bridge.Guarded` claims that it resolves only while the table has fewer than 2^32 slots.
- The guest's `f`, `d`, `malloc` and `realloc` are not modelled. They come from `src/lib.rs` and the Rust runtime. The allocator is constrained only by `Marshal.Sound`.
- `src/lib.rs` is not part of this model: WebGL setup, animation, and floating-point rotation. Its `add` wrapper's `>>> 0` is a one-line host reinterpretation.
- `pkg/test.js` is not part of this model. It reads a file and instantiates the module.

## Findings

| source | as written | input that shows it | evidently intended | confidence | as-written member | corrected member |
|---|---|---|---|---|---|---|
| pkg/wasm_test.js:5 | `new TextDecoder('utf-8')` strips a leading byte order mark, so a string passed to the guest and read back loses a leading U+FEFF | the string U+FEFF `A` is passed to the guest and read back as `A` | strings survive the round trip, as with `new TextDecoder('utf-8', { ignoreBOM: true })` | not executed; follows from the WHATWG Encoding Standard's decode with BOM sniffing | Marshal.BomRoundTripFails | Marshal.StringRoundTripKeepingBom |

The shims in this model return strings to the guest but do not read them
back. Reading back appears only in the round-trip statements, so those
statements are where the corrected decoder (`Marshal.GetStringKeepingBom`)
is used. `Marshal.PassStringToWasm`, `Marshal.PassStringFallback` and
`Bridge.ReturnString` state the read back for both decoders: with the
corrected one for every string without lone surrogates, with the default
one only when the string also does not start with U+FEFF.
