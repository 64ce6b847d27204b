/** The kernel's global state and its associative memory: a table of 64
    slots filled from the front by `store_holographic_memory`, cleared by
    `initialize_holographic_memory`, and searched by
    `retrieve_holographic_memory`. The structure the source keeps at a
    fixed physical address is an explicit value here, and every operation
    returns the new state. */
module Kernel {
  import opened Uint
  import opened Options
  import opened Encoder
  import opened Entities

  /** `MAX_MEMORY_ENTRIES`. */
  const MaxMemoryEntries: nat := 64

  /** `MemoryEntry`: a stored association, the value of the global
      timestamp when it was stored, and a validity flag. */
  datatype MemoryEntry = MemoryEntry(
    inputPattern: HolographicVector,
    outputPattern: HolographicVector,
    timestamp: u32,
    valid: u8)

  /** `struct GlobalState` without the hardware information. */
  datatype GlobalState = GlobalState(
    entities: seq<Entity>,
    memoryEntries: seq<MemoryEntry>,
    memoryCount: u32,
    globalTimestamp: u32)

  /** The fixed array sizes of the C structure. */
  predicate Shaped(g: GlobalState)
  {
    |g.entities| == EntityCount && |g.memoryEntries| == MaxMemoryEntries
  }

  // ---------------------------------------------------------------------
  // Initialization and storing.

  /** `initialize_holographic_memory`: every slot is marked invalid (its
      other fields keep whatever they held) and the cursor returns to zero.
      The global timestamp and the entities are not touched. */
  function InitializeHolographicMemory(g: GlobalState): (r: GlobalState)
    requires Shaped(g)
    ensures Shaped(r)
    ensures r.memoryCount == 0
    ensures forall i :: 0 <= i < MaxMemoryEntries ==>
      && r.memoryEntries[i].valid == 0
      && r.memoryEntries[i] == g.memoryEntries[i].(valid := 0)
    ensures r.globalTimestamp == g.globalTimestamp && r.entities == g.entities
  {
    var cleared := seq(MaxMemoryEntries, i requires 0 <= i < MaxMemoryEntries => g.memoryEntries[i].(valid := 0));
    g.(memoryEntries := cleared, memoryCount := 0)
  }

  /** `store_holographic_memory`: a full table drops the pair and changes
      nothing at all. Otherwise the pair goes into the slot at the cursor,
      stamped with the current global timestamp and marked valid; the cursor
      and the global timestamp each advance by one; every other slot and the
      entities are untouched. */
  function StoreHolographicMemory(g: GlobalState, input: HolographicVector, output: HolographicVector): (r: GlobalState)
    requires Shaped(g)
    ensures Shaped(r)
    ensures g.memoryCount as int >= MaxMemoryEntries ==> r == g
    ensures g.memoryCount as int < MaxMemoryEntries ==>
      && r.memoryEntries[g.memoryCount] == MemoryEntry(input, output, g.globalTimestamp, 1)
      && (forall i :: 0 <= i < MaxMemoryEntries && i != g.memoryCount as int ==> r.memoryEntries[i] == g.memoryEntries[i])
      && r.memoryCount as int == g.memoryCount as int + 1
      && r.globalTimestamp as int == (g.globalTimestamp as int + 1) % Modulus32
      && r.entities == g.entities
  {
    if g.memoryCount as int >= MaxMemoryEntries then g
    else
      var entry := MemoryEntry(input, output, g.globalTimestamp, 1);
      g.(memoryEntries := g.memoryEntries[g.memoryCount := entry],
         memoryCount := Inc32(g.memoryCount),
         globalTimestamp := Inc32(g.globalTimestamp))
  }

  /** A sequence of stores, in order. */
  function StoreAll(g: GlobalState, pairs: seq<(HolographicVector, HolographicVector)>): (r: GlobalState)
    requires Shaped(g)
    ensures Shaped(r)
    decreases |pairs|
  {
    if |pairs| == 0 then g
    else
      var last := pairs[|pairs| - 1];
      StoreHolographicMemory(StoreAll(g, pairs[..|pairs| - 1]), last.0, last.1)
  }

  // ---------------------------------------------------------------------
  // The table invariant.

  /** What initialization establishes and storing keeps: the cursor is
      within the table, every slot below it holds a valid entry, and those
      entries carry consecutive timestamps ending just below the global
      timestamp (all modulo 2^32). */
  predicate Invariant(g: GlobalState)
  {
    && Shaped(g)
    && g.memoryCount as int <= MaxMemoryEntries
    && (forall i :: 0 <= i < g.memoryCount as int ==> g.memoryEntries[i].valid == 1)
    && (forall i :: 0 <= i < g.memoryCount as int ==>
          g.memoryEntries[i].timestamp as int == (g.globalTimestamp as int - g.memoryCount as int + i) % Modulus32)
  }

  /** Initialization establishes the invariant from any state. */
  lemma InitEstablishesInvariant(g: GlobalState)
    requires Shaped(g)
    ensures Invariant(InitializeHolographicMemory(g))
  {
  }

  /** Shifting the base of a residue by one step. */
  lemma TimestampShift(t: int, c: int, i: int)
    ensures ((t + 1) % Modulus32 - (c + 1) + i) % Modulus32 == (t - c + i) % Modulus32
  {
    var k := (t + 1) / Modulus32;
    assert (t + 1) % Modulus32 == t + 1 - Modulus32 * k;
    assert (t + 1) % Modulus32 - (c + 1) + i == (t - c + i) - Modulus32 * k;
    ModShift(t - c + i, k);
  }

  /** Storing keeps the invariant, whether or not the table is full. */
  lemma StorePreservesInvariant(g: GlobalState, input: HolographicVector, output: HolographicVector)
    requires Invariant(g)
    ensures Invariant(StoreHolographicMemory(g, input, output))
  {
    var r := StoreHolographicMemory(g, input, output);
    if g.memoryCount as int < MaxMemoryEntries {
      forall i | 0 <= i < r.memoryCount as int
        ensures r.memoryEntries[i].timestamp as int == (r.globalTimestamp as int - r.memoryCount as int + i) % Modulus32
      {
        TimestampShift(g.globalTimestamp as int, g.memoryCount as int, i);
        if i == g.memoryCount as int {
          assert (g.globalTimestamp as int - g.memoryCount as int + i) % Modulus32 == g.globalTimestamp as int;
        }
      }
    }
  }

  /** Any sequence of stores keeps the invariant, and the cursor ends at the
      number of stores made, capped at the table size. */
  lemma {:induction false} StoreAllPreservesInvariant(g: GlobalState, pairs: seq<(HolographicVector, HolographicVector)>)
    requires Invariant(g)
    ensures Invariant(StoreAll(g, pairs))
    ensures StoreAll(g, pairs).memoryCount as int ==
      if g.memoryCount as int + |pairs| <= MaxMemoryEntries then g.memoryCount as int + |pairs| else MaxMemoryEntries
    decreases |pairs|
  {
    if |pairs| > 0 {
      var prefix := pairs[..|pairs| - 1];
      StoreAllPreservesInvariant(g, prefix);
      var last := pairs[|pairs| - 1];
      StorePreservesInvariant(StoreAll(g, prefix), last.0, last.1);
    }
  }

  // ---------------------------------------------------------------------
  // Retrieval.

  /** Slot `e` answers query `q`: it is valid and its input pattern has the
      query's fingerprint. */
  predicate Matches(e: MemoryEntry, q: HolographicVector)
  {
    e.valid != 0 && e.inputPattern.hashSignature == q.hashSignature
  }

  /** The scan of `retrieve_holographic_memory` from slot `i` on: the index
      of the first matching slot in `[i, memoryCount)`, if any. */
  function FindFrom(g: GlobalState, q: HolographicVector, i: nat): (r: Option<nat>)
    requires Shaped(g) && g.memoryCount as int <= MaxMemoryEntries
    requires i <= g.memoryCount as int
    ensures r.Some? ==>
      && i <= r.value < g.memoryCount as int
      && Matches(g.memoryEntries[r.value], q)
      && (forall j :: i <= j < r.value ==> !Matches(g.memoryEntries[j], q))
    ensures r.None? ==> forall j :: i <= j < g.memoryCount as int ==> !Matches(g.memoryEntries[j], q)
    decreases g.memoryCount as int - i
  {
    if i == g.memoryCount as int then None
    else if g.memoryEntries[i].valid == 0 then FindFrom(g, q, i + 1)
    else if g.memoryEntries[i].inputPattern.hashSignature == q.hashSignature then Some(i)
    else FindFrom(g, q, i + 1)
  }

  /** The slot whose output pattern `retrieve_holographic_memory` points
      to: the lowest-indexed valid slot below the cursor whose input has the
      query's fingerprint, or `None` (the null pointer) if there is none.
      The source indexes the table up to the cursor, so the cursor must lie
      within the table. */
  function RetrieveSlot(g: GlobalState, q: HolographicVector): (r: Option<nat>)
    requires Shaped(g) && g.memoryCount as int <= MaxMemoryEntries
    ensures r.Some? ==>
      && r.value < g.memoryCount as int
      && Matches(g.memoryEntries[r.value], q)
      && (forall j :: 0 <= j < r.value ==> !Matches(g.memoryEntries[j], q))
    ensures r.None? ==> forall j :: 0 <= j < g.memoryCount as int ==> !Matches(g.memoryEntries[j], q)
  {
    FindFrom(g, q, 0)
  }

  /** `retrieve_holographic_memory`: the output pattern of the slot
      `RetrieveSlot` finds, or `None` when it finds none. */
  function RetrieveHolographicMemory(g: GlobalState, q: HolographicVector): (r: Option<HolographicVector>)
    requires Shaped(g) && g.memoryCount as int <= MaxMemoryEntries
    ensures r.Some? <==> RetrieveSlot(g, q).Some?
    ensures r.Some? ==> r.value == g.memoryEntries[RetrieveSlot(g, q).value].outputPattern
  {
    match RetrieveSlot(g, q)
    case None => None
    case Some(j) => Some(g.memoryEntries[j].outputPattern)
  }

  /** The scan as the source writes it: a loop over the slots below the
      cursor that skips invalid slots and stops at the first fingerprint
      match. It finds exactly the slot `RetrieveSlot` describes. */
  method RetrieveLoop(g: GlobalState, q: HolographicVector) returns (found: Option<nat>)
    requires Shaped(g) && g.memoryCount as int <= MaxMemoryEntries
    ensures found.Some? ==>
      && found.value < g.memoryCount as int
      && Matches(g.memoryEntries[found.value], q)
      && (forall j :: 0 <= j < found.value ==> !Matches(g.memoryEntries[j], q))
    ensures found.None? ==> forall j :: 0 <= j < g.memoryCount as int ==> !Matches(g.memoryEntries[j], q)
  {
    var i: nat := 0;
    while i < g.memoryCount as int
      invariant i <= g.memoryCount as int
      invariant forall j :: 0 <= j < i ==> !Matches(g.memoryEntries[j], q)
    {
      if g.memoryEntries[i].valid == 0 {
        i := i + 1;
        continue;
      }
      if g.memoryEntries[i].inputPattern.hashSignature == q.hashSignature {
        return Some(i);
      }
      i := i + 1;
    }
    return None;
  }

  /** Nothing is found in a freshly initialized table. */
  lemma RetrieveAfterInit(g: GlobalState, q: HolographicVector)
    requires Shaped(g)
    ensures RetrieveHolographicMemory(InitializeHolographicMemory(g), q) == None
  {
  }

  /** The answer depends on the query only through its fingerprint. */
  lemma RetrieveBySignature(g: GlobalState, q1: HolographicVector, q2: HolographicVector)
    requires Shaped(g) && g.memoryCount as int <= MaxMemoryEntries
    requires q1.hashSignature == q2.hashSignature
    ensures RetrieveHolographicMemory(g, q1) == RetrieveHolographicMemory(g, q2)
  {
    var r1 := RetrieveSlot(g, q1);
    var r2 := RetrieveSlot(g, q2);
    if r1.Some? && r2.Some? {
      assert r1.value == r2.value by {
        if r1.value < r2.value {
          assert Matches(g.memoryEntries[r1.value], q2);
        } else if r2.value < r1.value {
          assert Matches(g.memoryEntries[r2.value], q1);
        }
      }
    } else if r1.Some? {
      assert Matches(g.memoryEntries[r1.value], q2);
    } else if r2.Some? {
      assert Matches(g.memoryEntries[r2.value], q1);
    }
  }

  /** Two results of the first-match search agree when the slots they
      search agree. */
  lemma {:induction false} FindFromFrame(g: GlobalState, h: GlobalState, q: HolographicVector, i: nat)
    requires Shaped(g) && g.memoryCount as int <= MaxMemoryEntries
    requires Shaped(h) && h.memoryCount == g.memoryCount
    requires i <= g.memoryCount as int
    requires forall j :: i <= j < g.memoryCount as int ==> h.memoryEntries[j] == g.memoryEntries[j]
    ensures FindFrom(h, q, i) == FindFrom(g, q, i)
    decreases g.memoryCount as int - i
  {
    if i < g.memoryCount as int {
      FindFromFrame(g, h, q, i + 1);
    }
  }

  /** Retrieval after a store: a full table answers as before. Otherwise
      an earlier match still wins; without one, the new pair answers a query
      with its input's fingerprint and nothing answers any other query. */
  lemma StoreRetrieve(g: GlobalState, input: HolographicVector, output: HolographicVector, q: HolographicVector)
    requires Shaped(g) && g.memoryCount as int <= MaxMemoryEntries
    ensures RetrieveHolographicMemory(StoreHolographicMemory(g, input, output), q) ==
      if g.memoryCount as int == MaxMemoryEntries then RetrieveHolographicMemory(g, q)
      else match RetrieveHolographicMemory(g, q)
        case Some(v) => Some(v)
        case None => if input.hashSignature == q.hashSignature then Some(output) else None
  {
    var r := StoreHolographicMemory(g, input, output);
    if g.memoryCount as int < MaxMemoryEntries {
      var c := g.memoryCount as int;
      var old1 := RetrieveSlot(g, q);
      var new1 := RetrieveSlot(r, q);
      assert forall j :: 0 <= j < c ==> r.memoryEntries[j] == g.memoryEntries[j];
      if old1.Some? {
        assert Matches(r.memoryEntries[old1.value], q);
      } else if input.hashSignature == q.hashSignature {
        assert Matches(r.memoryEntries[c], q);
      }
    }
  }

  /** Storing a pair below capacity when no stored input has its
      fingerprint makes retrieval by that input return the new output. */
  lemma StoreThenRetrieve(g: GlobalState, input: HolographicVector, output: HolographicVector)
    requires Shaped(g) && g.memoryCount as int < MaxMemoryEntries
    requires RetrieveHolographicMemory(g, input) == None
    ensures RetrieveHolographicMemory(StoreHolographicMemory(g, input, output), input) == Some(output)
  {
    StoreRetrieve(g, input, output, input);
  }

  /** Storing a second pair under a fingerprint already present does not
      change what retrieval returns: the earlier pair still answers. */
  lemma StoreDuplicateKeepsEarlier(g: GlobalState, input: HolographicVector, output: HolographicVector)
    requires Shaped(g) && g.memoryCount as int <= MaxMemoryEntries
    requires RetrieveHolographicMemory(g, input).Some?
    ensures RetrieveHolographicMemory(StoreHolographicMemory(g, input, output), input) == RetrieveHolographicMemory(g, input)
  {
    StoreRetrieve(g, input, output, input);
  }

  // ---------------------------------------------------------------------
  // Entities in the global state.

  /** `process_entity_task(&g_state->entities[k], task)`: entity `k` is
      updated as `ProcessEntityTask` says and logs its line; the other
      entities and the memory are untouched. */
  function ProcessTaskAt(g: GlobalState, k: nat, t: Task): (r: (GlobalState, string))
    requires Shaped(g) && k < EntityCount
    ensures Shaped(r.0)
    ensures r.0.entities[k] == ProcessEntityTask(g.entities[k], t).0
    ensures r.1 == ProcessEntityTask(g.entities[k], t).1
    ensures forall j :: 0 <= j < EntityCount && j != k ==> r.0.entities[j] == g.entities[j]
    ensures r.0.memoryEntries == g.memoryEntries && r.0.memoryCount == g.memoryCount
    ensures r.0.globalTimestamp == g.globalTimestamp
  {
    var (e, line) := ProcessEntityTask(g.entities[k], t);
    (g.(entities := g.entities[k := e]), line)
  }

  /** The start-up sequence of `kmain`: the global timestamp is zeroed,
      then the entities and the memory are initialized. */
  function Boot(g: GlobalState): (r: GlobalState)
    requires Shaped(g)
    ensures Invariant(r)
    ensures r.memoryCount == 0 && r.globalTimestamp == 0
    ensures r.entities == InitializeEntities()
  {
    InitializeHolographicMemory(g.(globalTimestamp := 0, entities := InitializeEntities()))
  }
}
