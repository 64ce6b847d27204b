/** The entity registry of the holographic kernel: four fixed agents
    (`initialize_entities`) that accept and count tasks
    (`process_entity_task`). Log output is returned as text. */
module Entities {
  import opened Fnv
  import opened Uint
  import opened Encoder
  import opened CStrings
  import opened Options

  /** `ENTITY_COUNT`. */
  const EntityCount: nat := 4

  /** `EntityType`: the four kinds, numbered 0 to 3. */
  datatype EntityType = Cpu | Memory | Device | Filesystem
  {
    /** The enumerator's value. */
    function Code(): (c: u32)
      ensures c < 4
    {
      match this
      case Cpu => 0
      case Memory => 1
      case Device => 2
      case Filesystem => 3
    }
  }

  /** The cast `(EntityType)i` for a loop index below `ENTITY_COUNT`. */
  function TypeOfIndex(i: nat): (t: EntityType)
    requires i < EntityCount
    ensures t.Code() as int == i
  {
    if i == 0 then Cpu else if i == 1 then Memory else if i == 2 then Device else Filesystem
  }

  /** `Task`: the enumerator value the caller tagged it with (any 32-bit
      value; the source's `switch` only knows 0 to 3), an identifier, a
      four-word payload that nothing reads, and a validity flag. */
  datatype Task = Task(targetEntity: u32, taskId: u32, data: seq<u32>, valid: u8)

  /** `struct Entity`. */
  datatype Entity = Entity(
    entityType: EntityType,
    id: u32,
    position: HolographicVector,
    knowledge: HolographicVector,
    tasksProcessed: u32)

  // ---------------------------------------------------------------------
  // Initialization.

  /** The literal names of the four entities, indexed by kind. */
  const EntityNames: seq<string> := ["CPU", "MEM", "DEV", "FS"]

  /** The bytes hashed for entity `i`'s position: the first three bytes of
      its name literal in memory. "FS" is two characters long, so its third
      byte is the terminating NUL. */
  function NameBytes(i: nat): (b: seq<byte>)
    requires i < EntityCount
    ensures |b| == 3
  {
    CBytes(EntityNames[i])[..3]
  }

  /** The bytes hashed for entity `i`'s knowledge: the loop counter `i`
      itself, an `int` of four bytes, least significant first. */
  function IndexBytes(i: nat): (b: seq<byte>)
    requires i < EntityCount
    ensures |b| == 4
  {
    ToBytes(LittleEndian32(i as u32))
  }

  /** The entity `initialize_entities` builds at index `i`. */
  function NewEntity(i: nat): (e: Entity)
    requires i < EntityCount
  {
    Entity(TypeOfIndex(i), i as u32,
           CreateHolographicVector(NameBytes(i)),
           CreateHolographicVector(IndexBytes(i)),
           0)
  }

  /** `initialize_entities`: four entities in kind order. Entity `i` has
      kind and identity `i`, has processed no task, and carries the vectors
      encoded from its name's first three bytes and from the four bytes of
      `i`. */
  function InitializeEntities(): (es: seq<Entity>)
    ensures |es| == EntityCount
    ensures forall i :: 0 <= i < EntityCount ==>
      && es[i].entityType.Code() as int == i
      && es[i].id as int == i
      && es[i].tasksProcessed == 0
      && es[i].position == CreateHolographicVector(CBytes(EntityNames[i])[..3])
      && es[i].knowledge == CreateHolographicVector(ToBytes(LittleEndian32(i as u32)))
  {
    seq(EntityCount, i requires 0 <= i < EntityCount => NewEntity(i))
  }

  /** The position inputs as bytes: "CPU", "MEM", "DEV", and "FS" with its
      NUL. */
  lemma NameBytesValues()
    ensures NameBytes(0) == [0x43, 0x50, 0x55]
    ensures NameBytes(1) == [0x4D, 0x45, 0x4D]
    ensures NameBytes(2) == [0x44, 0x45, 0x56]
    ensures NameBytes(3) == [0x46, 0x53, 0x00]
  {
  }

  /** The knowledge input of entity `i` is the byte `i` and three zeros. */
  lemma IndexBytesValues(i: nat)
    requires i < EntityCount
    ensures IndexBytes(i) == [i as byte, 0, 0, 0]
  {
    LittleEndianSmall(i as u32);
  }

  /** The fingerprints of the four position inputs. */
  lemma PositionHashes()
    ensures HashData(NameBytes(0)) == 0x3C25_10A9
    ensures HashData(NameBytes(1)) == 0x4F62_DD1E
    ensures HashData(NameBytes(2)) == 0x5A0F_18DC
    ensures HashData(NameBytes(3)) == 0x59B0_2C7A
  {
    NameBytesValues();
  }

  /** The fingerprints carried by the four freshly built position vectors. */
  lemma InitialPositionHashes(es: seq<Entity>)
    requires es == InitializeEntities()
    ensures es[0].position.hashSignature == 0x3C25_10A9
    ensures es[1].position.hashSignature == 0x4F62_DD1E
    ensures es[2].position.hashSignature == 0x5A0F_18DC
    ensures es[3].position.hashSignature == 0x59B0_2C7A
  {
    PositionHashes();
    assert es[0].position.hashSignature == HashData(NameBytes(0));
    assert es[1].position.hashSignature == HashData(NameBytes(1));
    assert es[2].position.hashSignature == HashData(NameBytes(2));
    assert es[3].position.hashSignature == HashData(NameBytes(3));
  }

  /** The four position vectors are unique, as the source intends: their
      fingerprints are pairwise distinct, so no two entities share a
      position. */
  lemma PositionSignaturesDistinct(es: seq<Entity>)
    requires es == InitializeEntities()
    ensures es[0].position.hashSignature != es[1].position.hashSignature
    ensures es[0].position.hashSignature != es[2].position.hashSignature
    ensures es[0].position.hashSignature != es[3].position.hashSignature
    ensures es[1].position.hashSignature != es[2].position.hashSignature
    ensures es[1].position.hashSignature != es[3].position.hashSignature
    ensures es[2].position.hashSignature != es[3].position.hashSignature
  {
    InitialPositionHashes(es);
  }

  // ---------------------------------------------------------------------
  // Task processing.

  /** The line logged for a task tagged with kind `t`. */
  function TaskLine(t: EntityType): string
  {
    match t
    case Cpu => "[CPU] Processing computational task\n"
    case Memory => "[MEM] Processing memory operation\n"
    case Device => "[DEV] Processing device operation\n"
    case Filesystem => "[FS] Processing filesystem operation\n"
  }

  /** The kind named by a task's tag, if it is one of the four. */
  function KindOfTag(tag: u32): (k: Option<EntityType>)
    ensures k.Some? <==> tag < 4
    ensures k.Some? ==> k.value.Code() == tag
  {
    if tag == 0 then Some(Cpu)
    else if tag == 1 then Some(Memory)
    else if tag == 2 then Some(Device)
    else if tag == 3 then Some(Filesystem)
    else None
  }

  /** `process_entity_task`: returns the updated entity and the text it
      logs. An invalid task changes nothing and logs nothing. A valid task
      logs the line for its tag (nothing for a tag outside 0 to 3) and
      increments the entity's counter modulo 2^32, whatever kind the entity
      itself is: the tag is never compared with the entity. */
  function ProcessEntityTask(e: Entity, t: Task): (r: (Entity, string))
    ensures t.valid == 0 ==> r == (e, "")
    ensures t.valid != 0 ==>
      && r.0.entityType == e.entityType && r.0.id == e.id
      && r.0.position == e.position && r.0.knowledge == e.knowledge
      && r.0.tasksProcessed as int == (e.tasksProcessed as int + 1) % Modulus32
    ensures t.valid != 0 && t.targetEntity < 4 ==> r.1 == TaskLine(KindOfTag(t.targetEntity).value)
    ensures t.targetEntity >= 4 ==> r.1 == ""
  {
    if t.valid == 0 then (e, "")
    else
      var line := match KindOfTag(t.targetEntity)
        case Some(k) => TaskLine(k)
        case None => "";
      (e.(tasksProcessed := Inc32(e.tasksProcessed)), line)
  }

  /** The number of valid tasks in a sequence. */
  function CountValid(ts: seq<Task>): nat
  {
    if |ts| == 0 then 0
    else CountValid(ts[..|ts| - 1]) + (if ts[|ts| - 1].valid != 0 then 1 else 0)
  }

  /** Feeding an entity a sequence of tasks in order; the log lines are
      concatenated. */
  function ProcessTasks(e: Entity, ts: seq<Task>): (Entity, string)
    decreases |ts|
  {
    if |ts| == 0 then (e, "")
    else
      var (e1, log1) := ProcessTasks(e, ts[..|ts| - 1]);
      var (e2, line) := ProcessEntityTask(e1, ts[|ts| - 1]);
      (e2, log1 + line)
  }

  /** After any sequence of tasks an entity's counter has advanced by the
      number of valid tasks, modulo 2^32, and nothing else about it has
      changed. */
  lemma {:induction false} CounterCountsValidTasks(e: Entity, ts: seq<Task>)
    ensures ProcessTasks(e, ts).0.tasksProcessed as int == (e.tasksProcessed as int + CountValid(ts)) % Modulus32
    ensures ProcessTasks(e, ts).0 == e.(tasksProcessed := ProcessTasks(e, ts).0.tasksProcessed)
    decreases |ts|
  {
    if |ts| > 0 {
      var prefix := ts[..|ts| - 1];
      CounterCountsValidTasks(e, prefix);
      var e1 := ProcessTasks(e, prefix).0;
      var t := ts[|ts| - 1];
      assert ProcessTasks(e, ts).0 == ProcessEntityTask(e1, t).0;
      if t.valid != 0 {
        AddOneMod(e.tasksProcessed as int + CountValid(prefix));
      }
    }
  }
}
