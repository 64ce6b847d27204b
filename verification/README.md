# Holographic kernel associative memory in Dafny

This project models the associative-memory payload of the holokernel
bare-metal kernel (`holographic_kernel.c`) and proves properties of it. The
modelled parts are:

- the FNV-1a fingerprint hasher `hash_data`;
- the vector encoder `create_holographic_vector`;
- the 64-slot memory table, with `initialize_holographic_memory`,
  `store_holographic_memory` and `retrieve_holographic_memory`;
- the four entities, with `initialize_entities` and `process_entity_task`;
- the hex printer `print_hex`;
- the built-in self-test `run_holographic_tests`.

The C global state at a fixed address becomes an explicit `GlobalState`
value. Every operation returns the new state. Text that the kernel writes to
the screen is returned as a string.

Modules, one per file:

- `Fnv` (fnv.dfy): 32-bit FNV-1a over bytes as a left fold. The comment at
  line 144 calls the offset basis a "prime"; it is the FNV-1a offset basis.
- `Uint` (uint.dfy): `uint8_t`, `uint16_t` and `uint32_t` as integer
  newtypes, the wrapping increment and subtraction, and division facts.
- `Encoder` (encoder.dfy): `HolographicVector`, and the dense encoder that
  derives all 512 components from the fingerprint. A component is kept as the
  raw `uint32_t` value of `(seed % 2000) - 1000`, before the conversion to
  `float`.
- `CStrings` (cstrings.dfy): how the inputs lie in memory. String literals are
  ASCII with a NUL; an `int` is four bytes, least significant first.
- `Hex` (hex.dfy): `print_hex` as a function, its buffer loop, and a parser
  that reads the text back.
- `Entities` (entities.dfy): `EntityType`, `Task`, `Entity`, the four
  initial entities, and task processing.
- `Kernel` (kernel.dfy): `MemoryEntry`, `GlobalState`, the table operations,
  the table invariant, retrieval, and the start-up steps of `kmain`.
- `SelfTest` (selftest.dfy): `run_holographic_tests` and its outcome after
  start-up.
- `Options` (options.dfy): the optional value that stands for a null pointer.

Facts about the code that the model follows closely:

- The encoder is dense. Every component comes from `hash ^ (i * 0x9E3779B9)`,
  and `active_dimensions` is always 512 (lines 160 and 165).
- A store into a full table returns without storing (line 179). The cursor
  is not reset, so the pair is dropped and nothing changes.
- `initialize_holographic_memory` leaves `global_timestamp` alone (lines
  172-175). Only `kmain` zeroes it (line 312).
- The knowledge vector of entity `i` is encoded from the four bytes of the
  loop index `i` (line 234). The position vector is encoded from the first
  three bytes of the name (line 233), so "FS" is hashed together with its
  NUL.

## Model

| member | source | states |
|---|---|---|
| `Fnv.HashData` | holographic_kernel.c:142-152 | The empty span fingerprints to the offset basis 0x811C9DC5. A span with a last byte fingerprints to the previous fingerprint XOR that byte, times 0x01000193 modulo 2^32. |
| `Fnv.HashDataLoop` | holographic_kernel.c:142-152 | The loop that mixes the bytes in from first to last returns exactly `HashData` of the span. |
| `Fnv.FoldAppend` | holographic_kernel.c:146-149 | Running the byte loop over `a + b` from any state equals running it over `a`, then over `b` from the state reached. |
| `Fnv.HashAppend` | holographic_kernel.c:142-152 | The fingerprint of `a + b` continues the FNV-1a state `HashData(a)` over `b`, so fingerprints can be computed incrementally. |
| `Fnv.CommonPrefix` | holographic_kernel.c:142-152 | Two spans with a common prefix have equal fingerprints if and only if the states reached over their suffixes agree. |
| `Uint.Inc32` | holographic_kernel.c:184-187 | `uint32_t` `++`: one more below 2^32 - 1, and 0 at the top. |
| `Uint.Sub32` | holographic_kernel.c:161 | `uint32_t` subtraction: `a - b` when `a >= b`, otherwise `a - b + 2^32`. |
| `Encoder.Component` | holographic_kernel.c:160-161 | Raw component `i` is `(seed % 2000 - 1000) mod 2^32` with `seed = hash ^ (i * 0x9E3779B9)`. It is below 1000 exactly when the remainder is at least 1000; otherwise it lies within 1000 below 2^32. |
| `Encoder.CreateHolographicVector` | holographic_kernel.c:154-169 | The vector carries `HashData(input)` as its signature, 512 active dimensions and `valid = 1`. It has 512 components, and component `i` is `Component(HashData(input), i)`. |
| `Encoder.DeterminedByFingerprint` | holographic_kernel.c:154-169 | Two inputs encode to the same vector if and only if their fingerprints are equal. |
| `Encoder.AsWrittenMilli` | holographic_kernel.c:161 | The integer the source converts to `float` is the unsigned raw value, in `[0, 2^32)`. |
| `Encoder.IntendedMilli` | holographic_kernel.c:161 | The intended component, in thousandths, is the remainder minus 1000, in `[-1000, 1000)`. |
| `Encoder.IntendedIsSignedReading` | holographic_kernel.c:161 | Reading the stored raw component as two's complement gives exactly the intended value. |
| `Encoder.WrappedComponentOutOfRange` | holographic_kernel.c:161 | When the remainder is below 1000, the value converted as written is at least 2^32 - 1000 and differs from the intended value. |
| `Encoder.EmptyInputComponentZero` | holographic_kernel.c:154-169 | For the empty input, component 0 is 0xFFFFFD1D. It is converted as 4294966557, where -739 is intended. |
| `Hex.PrintHex` | holographic_kernel.c:121-133 | The text is 10 characters: "0x", then for `d` in 0..7 the digit of nibble `7 - d` of the value from "0123456789ABCDEF". |
| `Hex.NibbleIsShift` | holographic_kernel.c:127-128 | The low nibble after `k` shifts right by four is `(x / 16^k) % 16`. |
| `Hex.DigitsChars` | holographic_kernel.c:126-129 | Character `j` of the `n` digits is nibble `n - 1 - j`, most significant first. |
| `Hex.FillBuffer` | holographic_kernel.c:123-129 | The loop from position 7 down to 0 leaves nibble `7 - j` at position `j` of the 8-character buffer. |
| `Hex.PrintHexLoop` | holographic_kernel.c:121-133 | Printing "0x" and then the filled buffer gives the text `PrintHex` describes. |
| `Hex.ParsePrintHex` | holographic_kernel.c:121-133 | Parsing the printed text back yields the value. |
| `Hex.PrintHexInjective` | holographic_kernel.c:121-133 | Two values print the same text if and only if they are equal. |
| `CStrings.UntilNul` | holographic_kernel.c:115-119 | `print` walks a string up to its first NUL: the bytes reached are a prefix of the span, none of them is NUL, and the byte right after them, if any, is NUL. |
| `CStrings.UntilNulOfLiteral` | holographic_kernel.c:115-119 | For an ASCII literal with no embedded NUL, the walk over the literal as it lies in memory (its bytes and a terminating NUL) yields exactly the literal's bytes. |
| `CStrings.LittleEndianRoundTrip` | holographic_kernel.c:234 | Reading the four stored bytes of a 32-bit value back gives the value. |
| `CStrings.LittleEndianSmall` | holographic_kernel.c:234 | A value below 256 is stored as itself followed by three zero bytes. |
| `Entities.TypeOfIndex` | holographic_kernel.c:228 | The cast `(EntityType)i` has enumerator value `i`. |
| `Entities.KindOfTag` | holographic_kernel.c:206-219 | A tag names a kind if and only if it is below 4, and that kind's value is the tag. |
| `Entities.InitializeEntities` | holographic_kernel.c:224-236 | Entity `i` of four has kind and id `i` and counter 0. Its position encodes the first three bytes of its name literal, and its knowledge encodes the four little-endian bytes of `i`. |
| `Entities.NameBytesValues` | holographic_kernel.c:225-233 | The position inputs are "CPU", "MEM", "DEV", and "FS" with its NUL. |
| `Entities.IndexBytesValues` | holographic_kernel.c:234 | The knowledge input of entity `i` is the byte `i` followed by three zeros. |
| `Entities.PositionHashes` | holographic_kernel.c:233 | The four position inputs fingerprint to 0x3C2510A9, 0x4F62DD1E, 0x5A0F18DC and 0x59B02C7A. |
| `Entities.InitialPositionHashes` | holographic_kernel.c:232-233 | The freshly built entities carry those four signatures in their position vectors. |
| `Entities.PositionSignaturesDistinct` | holographic_kernel.c:232-233 | No two of the four position vectors share a signature, so the positions are unique, as the comment at line 232 claims. |
| `Entities.ProcessEntityTask` | holographic_kernel.c:203-222 | An invalid task changes nothing and logs nothing. A valid task increments the counter modulo 2^32 whatever the tag and the entity's kind, and changes nothing else. It logs the fixed line for tags 0 to 3; other tags log nothing. |
| `Entities.CounterCountsValidTasks` | holographic_kernel.c:203-222 | After any sequence of tasks, the counter has advanced by the number of valid tasks, modulo 2^32, and no other field has changed. |
| `Kernel.InitializeHolographicMemory` | holographic_kernel.c:171-176 | All 64 slots become invalid, with their other fields kept, and the cursor becomes 0. The global timestamp and the entities are unchanged. |
| `Kernel.StoreHolographicMemory` | holographic_kernel.c:178-188 | A full table (cursor at least 64) changes nothing, not even the timestamp. Otherwise slot `cursor` receives the pair with the old timestamp and `valid = 1`, and the cursor and timestamp each advance by one. Every other slot and the entities are untouched. |
| `Kernel.InitEstablishesInvariant` | holographic_kernel.c:171-176 | After initialization the table invariant holds. The invariant: the cursor is at most 64, every slot below it is valid, and those slots carry consecutive timestamps ending just below the global timestamp. |
| `Kernel.StorePreservesInvariant` | holographic_kernel.c:178-188 | A store, full or not, keeps the table invariant. |
| `Kernel.StoreAllPreservesInvariant` | holographic_kernel.c:172-187 | Any sequence of stores keeps the invariant, and leaves the cursor at the old cursor plus the number of stores, capped at 64. |
| `Kernel.FindFrom` | holographic_kernel.c:191-198 | The scan from slot `i` returns the first slot in `[i, cursor)` that is valid and has the query's signature, or none if no such slot exists. |
| `Kernel.RetrieveSlot` | holographic_kernel.c:190-201 | The slot found is the lowest-indexed valid slot below the cursor whose input has the query's signature. None is found exactly when no slot below the cursor matches. |
| `Kernel.RetrieveHolographicMemory` | holographic_kernel.c:190-201 | The result is the output pattern of the slot `RetrieveSlot` finds, or none (the null pointer) when there is no match. |
| `Kernel.RetrieveLoop` | holographic_kernel.c:190-201 | The `for` loop with its `continue` on invalid slots returns the first matching slot, or none when no slot below the cursor matches. |
| `Kernel.RetrieveAfterInit` | holographic_kernel.c:171-201 | Nothing is retrieved from a freshly initialized table. |
| `Kernel.RetrieveBySignature` | holographic_kernel.c:195 | Retrieval depends on the query only through its signature. |
| `Kernel.FindFromFrame` | holographic_kernel.c:191-198 | The scan gives the same answer on two tables whose slots agree from `i` up to the cursor. |
| `Kernel.StoreRetrieve` | holographic_kernel.c:178-201 | After a store, a full table answers as before. Otherwise an earlier match still wins. Without an earlier match, the new output answers queries with the stored input's signature, and other queries get none. |
| `Kernel.StoreThenRetrieve` | holographic_kernel.c:178-201 | Storing `(k, v)` below capacity when nothing matches `k` makes retrieval by `k` return `v`. |
| `Kernel.StoreDuplicateKeepsEarlier` | holographic_kernel.c:178-201 | Storing a second pair under a signature that already matches leaves retrieval returning the earlier output. |
| `Kernel.ProcessTaskAt` | holographic_kernel.c:298 | Handing a task to entity `k` updates that entity as `ProcessEntityTask` does and returns its line. The other entities, the table and the timestamp are untouched. |
| `Kernel.Boot` | holographic_kernel.c:311-316 | Start-up leaves the timestamp and cursor at 0, the four initial entities in place, and the table invariant holding. |
| `SelfTest.RunTests` | holographic_kernel.c:261-301 | The self-test steps for any two inputs keep the array shapes. The outcome is stated by the lemmas below. |
| `SelfTest.RunHolographicTests` | holographic_kernel.c:261-301 | The self-test on its two literals (23 and 31 bytes, without the NUL) keeps the array shapes. |
| `SelfTest.SelfTestRetrieves` | holographic_kernel.c:276-288 | On an empty table, retrieving by the input vector right after the store returns the stored output vector. It still does after the task is processed. |
| `SelfTest.SelfTestLog` | holographic_kernel.c:262-300 | On an empty table, the printed text reports success. It shows the input's and the output's signatures in hex, then the CPU task line. |
| `SelfTest.SelfTestTable` | holographic_kernel.c:277 | On an empty table, the pair lands in slot 0 with the old timestamp. The cursor becomes 1 and the timestamp advances by one. |
| `SelfTest.SelfTestEntities` | holographic_kernel.c:291-298 | Entity 0's counter advances by one, and the other entities are untouched. |
| `SelfTest.SelfTestAfterBoot` | holographic_kernel.c:261-316 | Right after start-up, for any two inputs, the self-test retrieves the stored output. Slot 0 has timestamp 0, the cursor and timestamp are 1, and entity 0 has processed one task. The text reports success. |
| `SelfTest.RunHolographicTestsAfterBoot` | holographic_kernel.c:261-316 | Right after start-up, the self-test on its two literals retrieves the output vector for the input vector, puts the pair in slot 0 with timestamp 0, sets the cursor and the global timestamp to 1, and counts one task for entity 0. Its text reports success with the fingerprints of both literals. |

## Left out

- The screen driver `print_char` and `clear_screen` (lines 93-113 and 135-140) is left out. These are memory-mapped writes to video memory; printed text is returned as a string instead.
- `detect_hardware` (lines 238-259) is left out. It uses the `cpuid` instruction through inline assembly. With it goes the `hw_info` part of the global state.
- Most of `kmain` (lines 303-348) is left out: the boot messages, the hardware display and the idle loop are I/O. Only its start-up steps (lines 311-316) are modelled, as `Kernel.Boot`.
- The `(float)` conversion and the division by `1000.0f` (line 161) are left out, because floating point is not modelled. Components keep the raw 32-bit integer the conversion receives.
- The fixed physical address of the global state (line 75) is left out, together with the unused `HOLOGRAPHIC_MEMORY_BASE` and `HOLOGRAPHIC_MEMORY_SIZE` and the BSS markers.
- `Task.data` is carried but never read by the source, so no property mentions it.
- kernel_types.h is not part of this model. It holds only type definitions and is not included by the kernel source.
- The pointer `retrieve_holographic_memory` returns is modelled as the slot index (`RetrieveSlot`) and a copy of the output pattern. Later writes through that pointer are not modelled.
- Retrieval and the self-test require the cursor to be at most 64. Above that, the source would read past the end of the table.
- The fingerprints of the two self-test literals (0x1FFABDBF and 0xFE8FB848) are not computed in the proofs. The self-test text is stated with `PrintHex(HashData(...))` of the literals' bytes.
- SelfTest.RunTests: its own contract states only that the array shapes are kept. What the run does is proved in `SelfTestRetrieves`, `SelfTestLog`, `SelfTestTable`, `SelfTestEntities` and `SelfTestAfterBoot`.
- SelfTest.RunHolographicTests: its own contract states only that the array shapes are kept. It is `RunTests` applied to the two literals, and its outcome after start-up is proved in `RunHolographicTestsAfterBoot`.

## Findings

| source | as written | input that shows it | evidently intended | confidence | as-written member | corrected member |
|---|---|---|---|---|---|---|
| holographic_kernel.c:161 | `(seed % 2000) - 1000` is computed in `uint32_t`. When the remainder is below 1000 it wraps to `2^32 - 1000 + remainder`, and `(float)` then yields about 4.29e9, or about 4.29e6 after the division by 1000. | The empty input, component 0: the seed is 0x811C9DC5, the remainder is 261, and the raw value is 0xFFFFFD1D = 4294966557. | The signed difference `remainder - 1000`, so that every component lies in [-1.0, 1.0). Here that is -739, or -0.739. | not executed | `Encoder.WrappedComponentOutOfRange` | `Encoder.IntendedIsSignedReading` |

The as-written half consists of `Encoder.AsWrittenMilli` (the unsigned reading) and `Encoder.WrappedComponentOutOfRange`; `Encoder.EmptyInputComponentZero` gives the concrete input. The corrected half is `Encoder.IntendedMilli`, which is proved to lie in [-1000, 1000). `Encoder.IntendedIsSignedReading` proves that reading the stored raw component as a signed value gives exactly this intended value. The rest of the model stores the raw 32-bit component, which is the same bit pattern under both readings. Only the conversion differs: unsigned as written, signed as intended.
