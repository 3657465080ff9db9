# ovrly: the blitting IPC codec and the event primitives, in Dafny

ovrly moves device records between processes of the same executable on the
same machine with a "blitting" codec: values are copied into a byte buffer
as they lie in memory, with length prefixes for the parts that live on the
heap. It also has two small observer primitives: `Event`, which calls every
attached function, and `FilterChain`, which calls attached filters until one
handles the event.

This project models both and proves their laws.

- `bytes.dfy` (module `Bytes`): bytes, and the little-endian image of a
  `size_t` (8 bytes) or a character code unit.
- `format.dfy` (module `Format`): the byte grammar as pure functions.
  - `Encode` is what the `serialize` overloads append.
  - `Decode` is what the `deserialize` overloads read.
  - The C++ static type that picks an overload is a `Kind`:
    `std::basic_string<T>`, `vr::TrackedDevice`, or `std::vector<T>` of any
    of these, nested.
  - It proves the layout of each encoding, the round trip, that decoding
    depends only on the bytes it consumes, and that no strict prefix of an
    encoding decodes.
- `streams.dfy` (module `Streams`): the two streams as classes.
  - `OutMemStream` appends bytes to a growing buffer.
  - `InMemStream` is a read position over a caller's buffer, with the
    bound check on each `read` and `pos_ptr`.
- `serralize.dfy` (module `Serralize`): the `serialize`/`deserialize`
  overloads as methods over the streams.
  - Each `serialize` is proved to append exactly `Encode` of its value.
  - Each `deserialize` is proved to return exactly `Decode` of the unread
    bytes and to leave the stream right after what it read.
  - The vector loops are `for`/`while` loops with invariants.
- `events.dfy` (module `Events`): `Event` and `FilterChain` as classes over
  a sequence of attached handlers.
  - Each operator returns the log of the calls it made.
  - Each operator is proved equal to a recursive specification function.
  - Lemmas give the order, exactly-once, first-hit and if-and-only-if
    properties.

## Model

| member | source | states |
|---|---|---|
| Bytes.SizeBytes | src/serralize.hpp:84-85 | the image `write(&l, sizeof(size_t))` copies is 8 bytes that read back as `l` |
| Bytes.SizeOf | src/serralize.hpp:91-92 | the `size_t` that `read(&l, sizeof(size_t))` fills in is the one whose image is exactly those 8 bytes |
| Bytes.LittleEndianRoundTrip | src/serralize.hpp:84-92 | reading back the in-memory image of an unsigned value gives the value |
| Bytes.FromLittleEndianRoundTrip | src/serralize.hpp:136-137 | any bytes are the image of the value they read as, so every 8 bytes are some `size_t` |
| Format.UnitsBytes | src/serralize.hpp:86 | the bytes `s.c_str()` points to are `length() * sizeof(T)` long |
| Format.UnitsOfLength | src/serralize.hpp:94 | `UnitsOf`, the string `basic_string<T>(p, l / sizeof(T))` builds from a window of `l` bytes, has `l / sizeof(T)` characters, each fitting in a `T` |
| Format.UnitsRoundTrip | src/serralize.hpp:86-94 | `UnitsOf` applied to `UnitsBytes`, the characters rebuilt from the bytes `c_str()` points to, gives back the original characters |
| Format.EncodeString | src/serralize.hpp:83-87 | `serialize` of a string writes one `size_t` and then `length() * sizeof(T)` bytes |
| Format.EncodeDevice | src/serralize.hpp:97-105 | `serialize` of a device writes `sizeof(vr::TrackedDevice)` bytes, three length fields and the three strings' characters |
| Format.Encode | src/serralize.hpp:82-131 | every overload of `serialize` writes at least one `size_t`-sized field |
| Format.EncodeElems | src/serralize.hpp:129-130 | the element loop writes at least one `size_t` per element |
| Format.StringLayout | src/serralize.hpp:83-87 | a string is its byte length `length() * sizeof(T)` as a `size_t`, then exactly that many bytes holding its characters |
| Format.DeviceLayout | src/serralize.hpp:97-105 | a device is its `sizeof(vr::TrackedDevice)` raw bytes first, then the manufacturer, model and serial strings, each encoded as a string at the offset where the one before it ends, of the total length that implies |
| Format.VectorLayout | src/serralize.hpp:122-131 | a vector starts with its element count; it is the count alone if and only if the vector is empty |
| Format.EncodeElemsAppend | src/serralize.hpp:128-130 | encoding one element more appends exactly that element's encoding after the others |
| Format.EncodeElemsPrefixStep | src/serralize.hpp:129-130 | the bytes written for the first `n + 1` elements are those for the first `n`, then element `n` |
| Format.Take | src/serralize.hpp:62-74 | `n` bytes can be taken if and only if `n` are left; they are the next `n` and the rest follows them |
| Format.DecodeSize | src/serralize.hpp:136-137 | a count is read if and only if 8 bytes are left, and exactly 8 are consumed |
| Format.DecodeString | src/serralize.hpp:89-95 | a string that decodes consumes at least its `size_t` length field |
| Format.DecodeDevice | src/serralize.hpp:107-120 | a device that decodes has exactly `sizeof(vr::TrackedDevice)` raw bytes, and consumes them and at least its three length fields |
| Format.DecodeStringShape | src/serralize.hpp:89-95 | a string fails to decode if and only if the length field or the `l` bytes it announces are missing; otherwise it has `l / sizeof(T)` characters and decoding resumes right after the `l` bytes |
| Format.DecodeElems | src/serralize.hpp:144-147 | a successful vector body has exactly `count` elements, and what is left is never longer than the input |
| Format.Decode | src/serralize.hpp:89-148 | every successful decode consumes at least one `size_t` field |
| Format.SizeRoundTrip | src/serralize.hpp:84-92 | the length field reads back as the value written, leaving what follows |
| Format.StringRoundTrip | src/serralize.hpp:83-95 | a string reads back as itself and consumes exactly its encoding |
| Format.DeviceRoundTrip | src/serralize.hpp:97-120 | a device reads back as itself, strings in the order written, and consumes exactly its encoding |
| Format.RoundTrip | src/serralize.hpp:82-148 | for every type, `deserialize` after `serialize` gives back the value and leaves exactly the bytes that followed |
| Format.ElemsRoundTrip | src/serralize.hpp:129-147 | the elements of a vector read back in order, exactly `|xs|` of them |
| Format.ElemsRoundTripVia | src/serralize.hpp:129-147 | the same, by induction on the elements, with the encoders and decoders passed under other names |
| Format.TakeExtends | src/serralize.hpp:62-74 | a read that succeeds still succeeds, with the same bytes, when more input follows |
| Format.StringExtends | src/serralize.hpp:89-95 | decoding a string depends only on the bytes it consumes |
| Format.DeviceExtends | src/serralize.hpp:107-120 | decoding a device depends only on the bytes it consumes |
| Format.DecodeExtends | src/serralize.hpp:89-148 | decoding any type depends only on the bytes it consumes |
| Format.ElemsExtend | src/serralize.hpp:144-147 | decoding the elements of a vector depends only on the bytes they consume |
| Format.ElemsExtendVia | src/serralize.hpp:144-147 | the same, by induction on the count, with the decoders passed under other names |
| Format.PrefixOfExact | src/serralize.hpp:62-74 | when a whole input decodes with nothing left over, no strict prefix of it decodes |
| Format.StrictPrefixTruncated | src/serralize.hpp:62-74 | decoding any strict prefix of an encoding fails on a read bound check, for every type |
| Format.DecodeAsWritten | src/serralize.hpp:89-148 | `deserialize` with the loop count of line 144 at every vector level, element vectors included: a success consumes at least one `size_t` and never holds a vector of 2^31 or more elements at any depth |
| Format.DecodeElemsAsWritten | src/serralize.hpp:144-147 | the element loop as written yields exactly the number of elements it ran for, each with every vector inside it below 2^31 elements |
| Format.AsWrittenAgrees | src/serralize.hpp:89-148 | whatever `Decode` reads with every vector, at every depth, below 2^31 elements, the decoder as written reads the same way and leaves the same bytes |
| Format.ElemsAgree | src/serralize.hpp:144-147 | the same for the elements of a vector |
| Format.ElemsAgreeVia | src/serralize.hpp:144-147 | the same, by induction on the count, with the decoders passed under other names |
| Format.LoopCountAsWritten | src/serralize.hpp:144 | the element loop as written runs fewer than 2^31 times, and exactly `sz` times when `sz < 2^31` |
| Format.AsWrittenRoundTripBelowIntMax | src/serralize.hpp:89-148 | when every vector in the value, at every depth, has fewer than 2^31 elements, the loop as written still round-trips |
| Format.AsWrittenDropsElements | src/serralize.hpp:144 | a vector of 2^31 strings decodes as an empty vector under the loop as written, leaving every element unread, while the count read says 2^31; for the program this also needs `v->reserve(2^31)` at line 141 to succeed (48 to 64 GiB of `std::string` objects), which otherwise throws `std::bad_alloc` before the loop |
| Format.AsWrittenSkipsElements | src/serralize.hpp:133-148 | a vector whose loop as written runs no times decodes as an empty vector and leaves all its element bytes unread |
| Format.SingletonEncoding | src/serralize.hpp:122-131 | a vector of one element is the count 1, then that element's encoding |
| Format.SingletonAsWritten | src/serralize.hpp:133-148 | a count of 1 followed by one element decodes, as written, as a vector of that element |
| Format.AsWrittenDropsNestedElements | src/serralize.hpp:144-146 | the element call at line 146 runs the same truncated loop for an element vector: a vector holding one vector whose loop as written runs no times (2^31 strings, say) decodes as a vector holding one empty vector, the inner elements unread, while `Decode` gives the value back |
| Streams.OutMemStream.constructor | src/serralize.hpp:38-40 | a new output stream is empty |
| Streams.OutMemStream.Write | src/serralize.hpp:41-44 | `write(p, size)` appends exactly the first `size` bytes at `p`, and the earlier bytes are unchanged |
| Streams.ReadFitsAsWritten | src/serralize.hpp:63 | the bound check as written, with the sum wrapping modulo 2^64; when the sum does not wrap it admits exactly the reads ending at or before `size_` |
| Streams.ReadFits | src/serralize.hpp:63 | the intended bound check: `n` more bytes fit if and only if `pos + n <= size` |
| Streams.AsWrittenAgreesWithoutWrap | src/serralize.hpp:63 | when `pos_ + size` does not wrap, the check as written is the intended one |
| Streams.AsWrittenAdmitsOverrun | src/serralize.hpp:63 | once anything has been read, the check as written lets a read of 2^64 - 1 bytes through, past the end of the buffer; in this file such a size can only reach `pos_ptr(l)` at line 94, where the string constructor then throws `std::length_error` |
| Streams.InMemStream.constructor | src/serralize.hpp:59 | a new input stream is at position 0, with the first `size` bytes of the buffer unread |
| Streams.InMemStream.Read | src/serralize.hpp:62-66 | `read` succeeds if and only if `pos + n <= size`; it then returns the bytes at `[pos, pos + n)` and advances `pos` by `n`; on failure `pos` is unchanged; the position never passes `size` and the buffer is never written |
| Streams.InMemStream.PosPtr | src/serralize.hpp:69-74 | `pos_ptr` returns the old position as the start of an `n`-byte window inside the bound and advances past it, under the same bound check as `read` |
| Serralize.SerializeString | src/serralize.hpp:83-87 | appends exactly the string's encoding |
| Serralize.DeserializeString | src/serralize.hpp:89-95 | returns exactly the string decoding of the unread bytes and leaves the stream right after them |
| Serralize.SerializeDevice | src/serralize.hpp:97-105 | appends exactly the device's encoding |
| Serralize.DeserializeDevice | src/serralize.hpp:107-120 | returns exactly the device decoding of the unread bytes and leaves the stream right after them |
| Serralize.Serialize | src/serralize.hpp:82-131 | the overload for the static type appends exactly the encoding of the value |
| Serralize.SerializeVector | src/serralize.hpp:122-131 | appends the count, then each element, which together are the vector's encoding |
| Serralize.SerializeElems | src/serralize.hpp:129-130 | the element loop appends the elements' encodings in order |
| Serralize.SerializeNext | src/serralize.hpp:130 | one turn of the loop appends the next element's encoding |
| Serralize.Deserialize | src/serralize.hpp:89-148 | the overload for the static type returns exactly the decoding of the unread bytes and leaves the stream right after them |
| Serralize.DeserializeVector | src/serralize.hpp:133-148 | reads the count, then that many elements, equal to the vector decoding of the unread bytes |
| Serralize.DeserializeElems | src/serralize.hpp:144-147 | the element loop yields the `count` elements in stream order, or fails where a read bound check fails |
| Serralize.DeserializeNext | src/serralize.hpp:145-146 | one turn of the loop decodes the next element; a failure fails the whole vector |
| Events.Deliveries | src/events.h:27-31 | firing calls as many observers as are attached |
| Events.DeliveriesInOrder | src/events.h:27-31 | observer `i` is the `i`-th call, with the event's arguments; each observer is called exactly once |
| Events.DeliveriesAttach | src/events.h:23-31 | an observer attached last is called last, after all earlier ones |
| Events.Event.constructor | src/events.h:34 | a new event has no observers |
| Events.Event.Attach | src/events.h:23-25 | `attach` appends the function and leaves the earlier observers unchanged |
| Events.Event.Fire | src/events.h:27-31 | `operator()` makes exactly the calls `Deliveries` gives, and changes nothing |
| Events.RunChain | src/events.h:52-59 | a run calls at most the attached filters |
| Events.RunChainHandledIff | src/events.h:37-59 | a chain reports the event handled if and only if some filter accepts it |
| Events.RunChainStopsAtFirst | src/events.h:53-56 | when filter `j` is the first to accept, the run returns true having called exactly filters `0..j`, in order |
| Events.RunChainAllDecline | src/events.h:52-59 | when every filter declines, or there are none, the run calls each once in order and returns false |
| Events.RunChainAttach | src/events.h:48-59 | a filter attached last runs only when every earlier one declines, and then decides the outcome |
| Events.FilterChain.constructor | src/events.h:62 | a new chain has no filters |
| Events.FilterChain.Attach | src/events.h:48-50 | `attach` appends the filter and leaves the earlier ones unchanged |
| Events.FilterChain.Fire | src/events.h:52-59 | `operator()` returns exactly what `RunChain` gives, with exactly its calls, and changes nothing |

## Left out

- Caller-provided storage: `deserialize` constructs into memory it is handed, with placement `new` and explicit destructor calls. The model returns the decoded value instead.
- Pointers and struct layout: `memcpy`, `static_cast` to `char*`, and the raw blit of `vr::TrackedDevice` are not modelled as memory.
  - The struct's bytes are an opaque block of `sizeof(vr::TrackedDevice)` bytes.
  - That size is a parameter of the `DeviceK` type, because the struct's definition is not part of this model.
  - The `std::string` objects that the blit copies are part of that block.
  - In the model, the three strings are decoded separately, after that block.
- `reserve`, in the `OutMemStream` constructor and in `deserialize` for vectors, is a performance hint. The allocation failures or `length_error` it can raise for huge counts are not modelled.
- `assert` in `read` and `pos_ptr`: a failed check is an explicit `Truncated` outcome that leaves the position unchanged. The model does not cover builds with `NDEBUG`, where the check is compiled out and the read runs past the buffer.
- Serialize preconditions: a string's byte length and a vector's element count must fit in a `size_t`. This is always true of objects in memory, and the source does not check it.
- Host: `size_t` is 8 bytes, and integers lie in memory little-endian. `std::string` characters are 1 byte.
- `OutMemStream::getBuf` has no member of its own: it is the field `buf`. The model does not cover the mutable reference it returns, through which a caller could change the buffer.
- `InMemStream::pos_ptr` returns an offset into `buf` rather than a pointer.
- Streams.InMemStream.Read, Streams.InMemStream.PosPtr: use the intended bound check `ReadFits`, which does not wrap. The check as written is `ReadFitsAsWritten` (see Findings).
- Format.Decode, Serralize.DeserializeVector: run the element loop exactly `count` times. The loop as written, which runs `static_cast<int>(sz)` times at every vector level, is `DecodeAsWritten` (see Findings).
- `ranges.hpp` is not part of this model. `Range::range(n)` is taken to yield `0, 1, …, n - 1`, and nothing when `n` is negative.
- Handlers: an attached `std::function` is an opaque value.
  - What a handler does when called (side effects, exceptions, re-entrant `attach`) is not modelled.
  - The model records each call in a log that the operators return.
  - A filter's result comes from a `verdict` oracle on the filter and the arguments. So a filter whose answer depends on hidden state is modelled by the answer it gives in that call.
- The rest of the repository (browser and process plumbing, graphics, OpenVR set-up, overlay layout, logging) is outside this model.

## Findings

| source | as written | input that shows it | evidently intended | confidence | as-written member | corrected member |
|---|---|---|---|---|---|---|
| src/serralize.hpp:63 | the bound check `pos_ + size <= size_` adds in `size_t`, so the sum wraps modulo 2^64 (the same check is at line 70). In this file the only size taken from the stream is the `l` passed to `pos_ptr(l)` at line 94; for any `l` that wraps, `l / sizeof(T)` exceeds the string's `max_size()`, so the constructor throws `std::length_error` before copying, and the visible effect is `pos_` moving backwards and a `length_error` where the assertion should have fired | `pos_ = 1`, `size_ = 1`, a read of `2^64 - 1` bytes: the sum wraps to 0 and the check passes | reject any read that runs past `size_`, e.g. `size <= size_ - pos_` | high, not executed | Streams.AsWrittenAdmitsOverrun | Streams.ReadFits |
| src/serralize.hpp:144 | the element loop runs `static_cast<int>(sz)` times, truncating the 64-bit count to a 32-bit `int` | a vector of 2^31 empty strings: the count 2^31 becomes a negative `int`, the loop runs zero times, and an empty vector comes back with every element unread; the same happens to an element vector, at any depth, since the call at line 146 enters the same template | read exactly `sz` elements | medium (depends on `Range::range` of a negative bound being empty, and on `v->reserve(2^31)` at line 141 succeeding (48 to 64 GiB of `std::string` objects); otherwise line 141 throws `std::bad_alloc` before the loop), not executed | Format.AsWrittenDropsElements | Format.RoundTrip |
