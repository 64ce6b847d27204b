/** The kernel's built-in self-test (`run_holographic_tests`) as a
    function from the global state to the new state and the text it prints. */
module SelfTest {
  import opened Fnv
  import opened Uint
  import opened Options
  import opened Hex
  import opened Encoder
  import opened CStrings
  import opened Entities
  import opened Kernel

  const TestInput: string := "Hello Holographic World"
  const TestOutput: string := "Response from holographic space"

  /** The task handed to entity 0: tagged for the CPU, identifier 1, valid. */
  const TestTask: Task := Task(0, 1, [0x1234_5678, 0xABCD_EF00, 0x1111_1111, 0x2222_2222], 1)

  /** The line printed after the retrieval, depending on its outcome. */
  function RetrievalLine(r: Option<HolographicVector>): string
  {
    match r
    case Some(v) => "[TEST] Successfully retrieved vector with hash: " + PrintHex(v.hashSignature) + "\n"
    case None => "[TEST] Failed to retrieve holographic memory\n"
  }

  /** The state after the self-test's steps, once its two vectors are
      encoded: the pair is stored, then the test task is handed to
      entity 0. */
  function SelfTestState(g: GlobalState, inputVector: HolographicVector, outputVector: HolographicVector): (r: GlobalState)
    requires Shaped(g)
    ensures Shaped(r)
  {
    ProcessTaskAt(StoreHolographicMemory(g, inputVector, outputVector), 0, TestTask).0
  }

  /** Everything the self-test prints: the banner, the input's fingerprint,
      the outcome of retrieving by the input vector right after the store,
      the task's line, and the closing line. The source reads the table up
      to the cursor, so the cursor must lie within it. */
  function SelfTestOutput(g: GlobalState, inputVector: HolographicVector, outputVector: HolographicVector): string
    requires Shaped(g) && g.memoryCount as int <= MaxMemoryEntries
  {
    var stored := StoreHolographicMemory(g, inputVector, outputVector);
    "\n[TEST] Running Holographic Memory Tests...\n"
    + "[TEST] Created input vector with hash: " + PrintHex(inputVector.hashSignature) + "\n"
    + "[TEST] Stored holographic memory pair\n"
    + RetrievalLine(RetrieveHolographicMemory(stored, inputVector))
    + ProcessTaskAt(stored, 0, TestTask).1
    + "[TEST] All holographic tests completed!\n"
  }

  /** The self-test for any two inputs: encode both, then run its steps. */
  function RunTests(g: GlobalState, input: seq<byte>, output: seq<byte>): (r: (GlobalState, string))
    requires Shaped(g) && g.memoryCount as int <= MaxMemoryEntries
    ensures Shaped(r.0)
  {
    var inputVector := CreateHolographicVector(input);
    var outputVector := CreateHolographicVector(output);
    (SelfTestState(g, inputVector, outputVector), SelfTestOutput(g, inputVector, outputVector))
  }

  /** `run_holographic_tests`: the two literals are encoded over 23 and 31
      bytes, their lengths without the NUL. */
  function RunHolographicTests(g: GlobalState): (r: (GlobalState, string))
    requires Shaped(g) && g.memoryCount as int <= MaxMemoryEntries
    ensures Shaped(r.0)
  {
    RunTests(g, Bytes(TestInput), Bytes(TestOutput))
  }

  /** The text the self-test prints when the retrieval succeeds. */
  function SuccessLog(inputHash: bv32, outputHash: bv32): string
  {
    "\n[TEST] Running Holographic Memory Tests...\n"
    + "[TEST] Created input vector with hash: " + PrintHex(inputHash) + "\n"
    + "[TEST] Stored holographic memory pair\n"
    + ("[TEST] Successfully retrieved vector with hash: " + PrintHex(outputHash) + "\n")
    + TaskLine(Cpu)
    + "[TEST] All holographic tests completed!\n"
  }

  // ---------------------------------------------------------------------
  // The self-test run on an empty table, for any two vectors.

  /** The retrieval hits: the table answers the input vector with exactly
      the output vector just stored, and still does after the task. */
  lemma SelfTestRetrieves(g: GlobalState, a: HolographicVector, b: HolographicVector)
    requires Shaped(g) && g.memoryCount == 0
    ensures RetrieveHolographicMemory(StoreHolographicMemory(g, a, b), a) == Some(b)
    ensures RetrieveHolographicMemory(SelfTestState(g, a, b), a) == Some(b)
  {
    StoreThenRetrieve(g, a, b);
    var stored := StoreHolographicMemory(g, a, b);
    FindFromFrame(stored, SelfTestState(g, a, b), a, 0);
  }

  /** The printed text reports success, with the fingerprints of both
      vectors, and the CPU line of the task. */
  lemma SelfTestLog(g: GlobalState, a: HolographicVector, b: HolographicVector)
    requires Shaped(g) && g.memoryCount == 0
    ensures SelfTestOutput(g, a, b) == SuccessLog(a.hashSignature, b.hashSignature)
  {
    SelfTestRetrieves(g, a, b);
  }

  /** The pair lands in slot 0, stamped with the old global timestamp; the
      cursor becomes 1 and the global timestamp advances by one. */
  lemma SelfTestTable(g: GlobalState, a: HolographicVector, b: HolographicVector)
    requires Shaped(g) && g.memoryCount == 0
    ensures var r := SelfTestState(g, a, b);
      && r.memoryEntries[0] == MemoryEntry(a, b, g.globalTimestamp, 1)
      && r.memoryCount == 1
      && r.globalTimestamp as int == (g.globalTimestamp as int + 1) % Modulus32
  {
  }

  /** Entity 0 has processed one more task and the other entities are
      untouched. */
  lemma SelfTestEntities(g: GlobalState, a: HolographicVector, b: HolographicVector)
    requires Shaped(g) && g.memoryCount == 0
    ensures var r := SelfTestState(g, a, b);
      && r.entities[0].tasksProcessed as int == (g.entities[0].tasksProcessed as int + 1) % Modulus32
      && (forall j :: 1 <= j < EntityCount ==> r.entities[j] == g.entities[j])
  {
  }

  /** Run right after start-up, the self-test succeeds for any two inputs:
      the retrieval hits, the pair lands in slot 0 with timestamp 0, the
      cursor and the global timestamp become 1, entity 0 has processed
      exactly one task, and the text reports success with the fingerprints
      of both inputs. */
  lemma SelfTestAfterBoot(g: GlobalState, input: seq<byte>, output: seq<byte>)
    requires Shaped(g)
    ensures
      var (r, log) := RunTests(Boot(g), input, output);
      && RetrieveHolographicMemory(r, CreateHolographicVector(input)) == Some(CreateHolographicVector(output))
      && r.memoryEntries[0].timestamp == 0
      && r.memoryCount == 1 && r.globalTimestamp == 1
      && r.entities[0].tasksProcessed == 1
      && log == SuccessLog(HashData(input), HashData(output))
  {
    var boot := Boot(g);
    var a := CreateHolographicVector(input);
    var b := CreateHolographicVector(output);
    assert boot.entities[0].tasksProcessed == 0;
    SelfTestRetrieves(boot, a, b);
    SelfTestLog(boot, a, b);
    SelfTestTable(boot, a, b);
    SelfTestEntities(boot, a, b);
  }

  /** The scenario the kernel runs: right after start-up, the self-test on
      its two literals (`input` and `output` name their bytes) retrieves the
      output vector, and its text reports success with the fingerprints of
      the two literals. */
  lemma RunHolographicTestsAfterBoot(g: GlobalState, input: seq<byte>, output: seq<byte>)
    requires Shaped(g)
    requires input == Bytes(TestInput) && output == Bytes(TestOutput)
    ensures
      var (r, log) := RunHolographicTests(Boot(g));
      && RetrieveHolographicMemory(r, CreateHolographicVector(input)) == Some(CreateHolographicVector(output))
      && r.memoryEntries[0].timestamp == 0
      && r.memoryCount == 1 && r.globalTimestamp == 1
      && r.entities[0].tasksProcessed == 1
      && log == SuccessLog(HashData(input), HashData(output))
  {
    SelfTestAfterBoot(g, input, output);
  }

}
