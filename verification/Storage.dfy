/** data_storage.c for the Nanomind board, with the payload operations of repoData.c on top:
    the flight plan and the eight payload logs, both kept in one NOR flash. */
module Storage {
  import opened Bytes
  import opened NorFlash
  import opened PlanRecord
  import opened FlashLayout
  import opened PlanSpec

  datatype Read = NoSample | Sampled(d: Sample)

  /** The sample `delay` places before the newest one; an index past the newest sample reads
      an erased slot, and one outside the payload's sections fails. */
  function Recent(p: nat, log: seq<Sample>, delay: int): Read
    requires p < PAYLOADS
  {
    var k := |log| - 1 - delay;
    if 0 <= k < Capacity(p) then Sampled(Slot(p, log, k)) else NoSample
  }

  /** Storage requests and their answers. */
  datatype Op =
    | SetPlan(e: Entry)
    | GetPlan(t: int32)
    | ErasePlan(t: int32)
    | ResetPlan
    | AddTo(p: nat, d: Sample)
    | ReadFrom(p: nat, delay: int32)
    | DeleteAll(fpEnabled: bool)   // in a build with or without SCH_FP_ENABLED

  datatype Out = Code(rc: int) | Entries(r: Fetched) | Samples(s: Read)

  /** Payload ids and sample sizes that the C types of the callers guarantee. */
  predicate Sized(op: Op) {
    && (op.AddTo? ==> op.p < PAYLOADS && |op.d| == SampleSize(op.p))
    && (op.ReadFrom? ==> op.p < PAYLOADS)
  }

  /** What storage means: one list of entries and one list of samples per payload. */
  datatype Model = Model(plan: seq<Entry>, logs: seq<seq<Sample>>)

  ghost function Apply(m: Model, op: Op): (m': Model)
    requires Sized(op) && |m.logs| == PAYLOADS
    ensures |m'.logs| == PAYLOADS
  {
    match op
    case SetPlan(e) => m.(plan := PlanAfterSet(m.plan, e))
    case GetPlan(t) => m.(plan := PlanAfterGet(m.plan, t))
    case ErasePlan(t) => m.(plan := PlanAfterErase(m.plan, t))
    case ResetPlan => m.(plan := [])
    case AddTo(p, d) => if |m.logs[p]| < Capacity(p) then m.(logs := m.logs[p := m.logs[p] + [d]]) else m
    case ReadFrom(_, _) => m
    case DeleteAll(fpEnabled) => m.(logs := seq(PAYLOADS, _ => []), plan := if fpEnabled then [] else m.plan)
  }

  ghost function Output(m: Model, op: Op): Out
    requires Sized(op) && |m.logs| == PAYLOADS
  {
    match op
    case SetPlan(_) => Code(if |m.plan| < PLAN_MAX then 0 else -1)
    case GetPlan(t) => Entries(PlanGetResult(m.plan, t))
    case ErasePlan(t) => Code(if FindTime(m.plan, t) < 0 then -1 else 0)
    case ResetPlan => Code(0)
    case AddTo(p, _) => Code(if |m.logs[p]| < Capacity(p) then |m.logs[p]| + 1 else -1)
    case ReadFrom(p, delay) => Samples(Recent(p, m.logs[p], delay))
    case DeleteAll(_) => Code(0)
  }

  ghost predicate AllSized(ops: seq<Op>) {
    forall i :: 0 <= i < |ops| ==> Sized(ops[i])
  }

  ghost function ModelRun(m: Model, ops: seq<Op>): (m': Model)
    requires AllSized(ops) && |m.logs| == PAYLOADS
    ensures |m'.logs| == PAYLOADS
  {
    if ops == [] then m else Apply(ModelRun(m, ops[..|ops| - 1]), ops[|ops| - 1])
  }

  ghost function Outputs(m: Model, ops: seq<Op>): seq<Out>
    requires AllSized(ops) && |m.logs| == PAYLOADS
  {
    if ops == [] then []
    else Outputs(m, ops[..|ops| - 1]) + [Output(ModelRun(m, ops[..|ops| - 1]), ops[|ops| - 1])]
  }

  /** The address tables of storage_init. The products are computed as int and then converted, so that from
      `firstOverflow` on they overflow; on a machine that wraps, the conversion still yields the address. */
  method AddressTables() returns (payloads: seq<nat>, plan: seq<nat>, firstOverflow: nat)
    ensures payloads == PayloadTable() && plan == PlanTable()
    ensures firstOverflow == 8176
    ensures forall i: nat :: i < PLAN_SECTIONS ==> (PlanSection(i) < 0x8000_0000 <==> i < firstOverflow)
  {
    payloads, plan := [], [];
    for i := 0 to PAYLOAD_SECTIONS
      invariant |payloads| == i && forall k :: 0 <= k < i ==> payloads[k] == SectionStart(k)
    {
      payloads := payloads + [i * 256 * 1024];
    }
    var sectionsForFp := (PLAN_MAX * RECORD) / 256 * 1024 + 1;
    firstOverflow := sectionsForFp;
    for i := 0 to sectionsForFp
      invariant |plan| == i && forall k :: 0 <= k < i ==> plan[k] == PlanSection(k)
      invariant firstOverflow == if i <= 8176 then PLAN_SECTIONS else 8176
    {
      var product := (PAYLOAD_SECTIONS + i) * 256 * 1024;
      if product >= 0x8000_0000 && firstOverflow == sectionsForFp {
        firstOverflow := i;
      }
      plan := plan + [ToU32(WrapInt32(product))];
    }
  }

  /** How many sections storage_flight_plan_reset sets out to erase for a counter `c`. */
  function ResetSections(c: int): int {
    TruncDiv(c, 1771) + 1
  }

  /** They do not all lie in the address table and on a chip of `length` bytes. */
  predicate ResetLeaves(c: int, length: nat) {
    ResetSections(c) > PLAN_SECTIONS || (16 + ResetSections(c)) * 0x4_0000 > length
  }

  class Store {
    const flash: Flash
    const addresses: seq<nat>       // storage_addresses_payloads
    const planAddresses: seq<nat>   // storage_addresses_flight_plan
    var fplQueue: int        // dat_fpl_queue
    var memIndex: seq<int>   // dat_mem_temp .. dat_mem_fod

    ghost var plan: seq<Entry>
    ghost var logs: seq<seq<Sample>>

    ghost function Image(): seq<byte> reads flash.mem { flash.mem[..] }

    /** The address tables are those of storage_init. */
    ghost predicate Wired() {
      addresses == PayloadTable() && planAddresses == PlanTable()
    }

    ghost predicate ValidPlan()
      reads this, flash.mem
    {
      HoldsPlan(Image(), plan) && fplQueue == |plan|
    }

    ghost predicate ValidLogs()
      reads this, flash.mem
    {
      && HoldsLogs(Image(), logs) && Wired()
      && |memIndex| == PAYLOADS
      && forall p :: 0 <= p < PAYLOADS ==> memIndex[p] == |logs[p]|
    }

    ghost predicate Valid()
      reads this, flash.mem
    {
      ValidPlan() && ValidLogs()
    }

    /** The plan counter is right, or it was never set; unset variables read as -1, and any counter above -1771
        will do. An unset counter stands for the empty plan, whatever the plan section holds. */
    ghost predicate PlanReady()
      reads this, flash.mem
    {
      if fplQueue < 0 then plan == [] && fplQueue > -RECORDS_PER_SECTION else ValidPlan()
    }

    /** What booting leaves and every request but setting an entry with the unset counter keeps. */
    ghost predicate Booted()
      reads this, flash.mem
    {
      ValidLogs() && PlanReady()
    }

    /** The first boot of a node with persistent storage: the chip is blank and no status variable was ever written. The
        payload counters are set to zero; nothing sets the counter of the plan. */
    constructor (sections: nat)
      requires sections > PAYLOAD_SECTIONS
      ensures Booted() && fplQueue == -1 && fresh(flash) && fresh(flash.mem)
      ensures plan == [] && logs == seq(PAYLOADS, _ => []) && HoldsPlan(Image(), [])
    {
      flash := new Flash(sections);
      var payloads, sectionsOfPlan, _ := AddressTables();
      addresses, planAddresses := payloads, sectionsOfPlan;
      fplQueue, memIndex := -1, seq(PAYLOADS, _ => -1);
      plan, logs := [], seq(PAYLOADS, _ => []);
      new;
      InitializePayloadVars();
      ErasedLogs(flash.mem[..]);
    }

    /** initialize_payload_vars: payload counters that were never set become zero. */
    method InitializePayloadVars()
      requires |memIndex| == PAYLOADS
      modifies this`memIndex
      ensures |memIndex| == PAYLOADS
      ensures forall p :: 0 <= p < PAYLOADS ==> memIndex[p] == if old(memIndex)[p] == -1 then 0 else old(memIndex)[p]
    {
      for i := 0 to PAYLOADS
        invariant |memIndex| == PAYLOADS
        invariant forall p :: 0 <= p < PAYLOADS ==>
          memIndex[p] == if p < i && old(memIndex)[p] == -1 then 0 else old(memIndex)[p]
      {
        if memIndex[i] == -1 {
          memIndex := memIndex[i := 0];
        }
      }
    }

    /** The chip address of record `i`, by the source's section arithmetic. */
    function Address(i: nat): (a: nat)
      requires i < PLAN_MAX && Wired()
      ensures a == RecordAddress(i)
    {
      SectionOf(i) + RecordOffset(IndexInSection(i))
    }

    /** The start of the section of record `i`, and the record's index in it. */
    function SectionOf(i: nat): (a: nat)
      requires i < PLAN_MAX && Wired()
      ensures a == PLAN_BASE
    {
      planAddresses[RecordSection(i)]
    }

    static function IndexInSection(i: nat): (k: nat)
      requires i < PLAN_MAX
      ensures k == i
    {
      RecordIndex(i)
    }

    /** flight_plan_find_index */
    method FindIndex(t: int32) returns (index: int)
      requires Booted()
      ensures index == FindTime(plan, t)
    {
      var i := 0;
      while i < fplQueue
        invariant 0 <= i <= |plan|
        invariant FindTime(plan, t) >= 0 ==> FindTime(plan, t) >= i
      {
        var found := flash.Read(Address(i), 4);
        RecordTime(Image(), plan, i);
        if WordAt(found) == ToU32(t) {
          return i;
        }
        i := i + 1;
      }
      return -1;
    }

    /** Erases one section from the plan's first on; the others come after the first. */
    method BlankSection(add: nat)
      requires HoldsLogs(Image(), logs) && PLAN_BASE <= add && add % 0x4_0000 == 0 && add + SECTION <= flash.mem.Length
      requires add == PLAN_BASE || HoldsBlocks(Image(), [])
      modifies flash.mem
      ensures Holding([])
    {
      ghost var img := Image();
      flash.EraseBlock(add);
      LogsKept(img, logs, add, Fill(SECTION));
    }

    /** Flash holds the blocks of `done` in the plan section, and the logs. */
    ghost predicate Holding(done: seq<seq<byte>>)
      reads this, flash.mem
    {
      HoldsBlocks(Image(), done) && HoldsLogs(Image(), logs)
    }

    /** Writes block `i` of the section buffer back behind the blocks of `done`. */
    method WriteBlock(add: nat, sectionData: seq<byte>, i: nat, ghost blocks: seq<seq<byte>>, ghost done: seq<seq<byte>>)
      requires IsBuffer(sectionData, blocks) && i < |blocks|
      requires Holding(done) && |done| < PLAN_MAX && add == RecordAddress(|done|)
      modifies flash.mem
      ensures Holding(done + [blocks[i]])
    {
      ghost var img := Image();
      var record := sectionData[RecordOffset(i)..RecordOffset(i) + RECORD];
      flash.Program(add, record);
      AppendBlock(img, done, blocks[i]);
      LogsKept(img, logs, add, record);
    }

    /** One turn of the rewriting loop: the record is written back unless it is the one to
        erase or its time is zero. */
    method RewriteBlock(add: nat, sectionData: seq<byte>, i: nat, index: nat, ghost blocks: seq<seq<byte>>)
      returns (wrote: bool)
      requires IsBuffer(sectionData, blocks) && i < |blocks| <= PLAN_MAX && index < |blocks|
      requires Holding(KeptBlocks(blocks, index, i)) && add == RecordAddress(|KeptBlocks(blocks, index, i)|)
      modifies flash.mem
      ensures Holding(KeptBlocks(blocks, index, i + 1))
      ensures |KeptBlocks(blocks, index, i + 1)| == |KeptBlocks(blocks, index, i)| + if wrote then 1 else 0
    {
      hide HoldsBlocks, HoldsLogs;
      KeptBlocksStep(blocks, index, i);
      BufferTime(sectionData, blocks, i);
      var t := ToInt32(WordAt(sectionData[RecordOffset(i)..RecordOffset(i) + 4]));
      wrote := i != IndexInSection(index) && t != 0;
      if wrote {
        WriteBlock(add, sectionData, i, blocks, KeptBlocks(blocks, index, i));
      }
    }

    /** The rewriting loop of flight_plan_erase_index. */
    method Rewrite(sectionData: seq<byte>, entries: nat, index: nat, ghost blocks: seq<seq<byte>>) returns (written: nat)
      requires IsBuffer(sectionData, blocks) && index < entries == |blocks| <= PLAN_MAX
      requires Holding([]) && Wired()
      modifies flash.mem
      ensures Holding(KeptBlocks(blocks, index, entries))
      ensures written == |KeptBlocks(blocks, index, entries)|
    {
      hide HoldsBlocks, HoldsLogs;
      var add := SectionOf(index);
      written := 0;
      for i := 0 to entries
        invariant written == |KeptBlocks(blocks, index, i)| && add == RecordAddress(written)
        invariant Holding(KeptBlocks(blocks, index, i))
      {
        var wrote := RewriteBlock(add, sectionData, i, index, blocks);
        if wrote {
          add := add + RECORD;
          written := written + 1;
        }
      }
    }

    /** flight_plan_erase_index */
    method EraseIndex(index: int) returns (rc: int)
      requires Booted()
      modifies this, flash.mem
      ensures Booted() && logs == old(logs) && memIndex == old(memIndex) && (fplQueue < 0 <==> old(fplQueue) < 0)
      ensures rc == if 0 <= index < |old(plan)| then 0 else -1
      ensures plan == if rc == 0 then Kept(old(plan), index, |old(plan)|) else old(plan)
    {
      var entries := fplQueue;
      if index < 0 || index >= entries {
        return -1;
      }
      var written := ReadAndRewrite(entries, index);
      fplQueue := written;
      plan := Kept(plan, index, |plan|);
      rc := 0;
    }

    /** Its flash operations: read the section, erase it, and write back what is kept. */
    method ReadAndRewrite(entries: nat, index: nat) returns (written: nat)
      requires Valid() && index < entries == |plan|
      modifies flash.mem
      ensures HoldsPlan(Image(), Kept(plan, index, |plan|)) && HoldsLogs(Image(), logs)
      ensures written == |Kept(plan, index, |plan|)|
    {
      var add := SectionOf(index);
      var sectionData := flash.Read(add, RecordOffset(entries));
      BufferOfPlan(Image(), Records(plan), sectionData);
      BlankSection(add);
      written := Rewrite(sectionData, entries, index, Records(plan));
      KeptRecords(plan, index, |plan|);
    }

    /** The four driver writes of storage_flight_plan_set. */
    method WriteFields(at: nat, e: Entry) returns (clean: bool)
      requires at + RECORD <= flash.mem.Length
      modifies flash.mem
      ensures OnlyRecord(old(Image()), Image(), at)
      ensures IsErased(old(Image()), at, RECORD) ==> clean && Image() == Splice(old(Image()), at, Encode(e))
    {
      ghost var m0 := Image();
      var add := at;
      var time := flash.Write(add, WordBytes(ToU32(e.time)));
      ghost var m1 := Image();
      add := add + 4;
      var numbers := flash.Write(add, Numbers(e));
      ghost var m2 := Image();
      add := add + 16;
      var name := flash.Write(add, e.name);
      ghost var m3 := Image();
      add := add + FIELD;
      var args := flash.Write(add, e.args);
      clean := time && numbers && name && args;
      FourDriverWrites(m0, m1, m2, m3, Image(), at, e);
    }

    /** storage_flight_plan_set, for every counter. From zero on it appends through erased bytes or, at 25, fails. Below
        zero the record lands in the last payload's second section instead; nothing is appended, and if the bytes there were
        erased, that payload's log is spoilt. From -1771 down the address is read from before the table, `inTable` is
        false, and where the record then goes is not modelled. */
    method PlanSet(e: Entry) returns (rc: int, inTable: bool, clean: bool)
      requires ValidLogs() && (fplQueue >= 0 ==> ValidPlan())
      modifies this, flash.mem
      ensures logs == old(logs) && memIndex == old(memIndex)
      ensures rc == if old(fplQueue) < PLAN_MAX then 0 else -1
      ensures inTable <==> old(fplQueue) > -RECORDS_PER_SECTION
      ensures old(fplQueue) >= 0 ==> Valid() && clean && plan == PlanAfterSet(old(plan), e)
      ensures old(fplQueue) < 0 ==> plan == old(plan) && fplQueue == old(fplQueue) + 1
      ensures -RECORDS_PER_SECTION < old(fplQueue) < 0 ==>
        Strayed(old(Image()), Image(), old(fplQueue), e, clean) &&
        (IsErased(old(Image()), StrayAddress(old(fplQueue)), RECORD) ==> !ValidLogs())
      ensures rc == 0 && inTable ==> (Appends(old(Image()), Image(), e) <==> old(fplQueue) >= 0)
    {
      var entries := fplQueue;
      if entries >= PLAN_MAX {
        return -1, true, true;
      }
      var sectionIndex, indexInSection := TruncDiv(entries, 1771), TruncMod(entries, 1771);
      RecordPlace(entries);
      inTable := sectionIndex >= 0;
      fplQueue := entries + 1;
      rc := 0;
      if !inTable {
        clean := *;
        return;
      }
      clean := WriteRecord(planAddresses[sectionIndex] + indexInSection * 148, entries, e);
      if entries >= 0 {
        plan := plan + [e];
      }
    }

    /** storage_flight_plan_set with a counter that is set. */
    method SetCounted(e: Entry) returns (rc: int)
      requires Valid()
      modifies this, flash.mem
      ensures Valid() && logs == old(logs) && memIndex == old(memIndex)
      ensures rc == if |old(plan)| < PLAN_MAX then 0 else -1
      ensures plan == PlanAfterSet(old(plan), e)
    {
      var inTable, clean;
      rc, inTable, clean := PlanSet(e);
    }

    /** The writing part of storage_flight_plan_set, at the address of record `c`. */
    method WriteRecord(add: nat, ghost c: int, e: Entry) returns (clean: bool)
      requires HoldsLogs(Image(), logs) && -RECORDS_PER_SECTION < c < PLAN_MAX && add == PLAN_BASE + c * 148
      requires c >= 0 ==> HoldsPlan(Image(), plan) && c == |plan|
      modifies flash.mem
      ensures Appends(old(Image()), Image(), e) <==> c >= 0
      ensures c >= 0 ==> clean && HoldsLogs(Image(), logs) && HoldsPlan(Image(), plan + [e])
      ensures c < 0 ==> Strayed(old(Image()), Image(), c, e, clean)
      ensures c < 0 && IsErased(old(Image()), StrayAddress(c), RECORD) ==> !HoldsLogs(Image(), logs)
    {
      assert FitsChip(Image());
      hide Appends, HoldsLogs, Encode;
      ghost var img := Image();
      clean := WriteFields(add, e);
      if c >= 0 {
        SetAppends(img, Image(), plan, logs, e);
      } else {
        SetStrays(img, Image(), logs, c, e);
      }
    }

    /** The reading part of storage_flight_plan_get. */
    method ReadEntry(t: int32, index: nat) returns (e: Entry)
      requires ValidPlan() && Wired() && index < |plan| && plan[index].time == t
      ensures e == plan[index]
    {
      var add := Address(index) + 4;
      var executions, period, nameLength, argsLength := ReadNumbers(add, index);
      add := add + 16;
      var name, args := ReadTexts(add, nameLength, argsLength, index);
      e := EntryData.Entry(t, name, args, executions, period);
    }

    /** The fields of `numbers_container_t`. */
    method ReadNumbers(add: nat, ghost index: nat) returns (executions: int32, period: int32, nameLength: u32, argsLength: u32)
      requires ValidPlan() && index < |plan| && add == RecordAddress(index) + 4
      ensures executions == plan[index].executions && period == plan[index].period
      ensures nameLength == |plan[index].name| && argsLength == |plan[index].args|
    {
      FieldsReadBack(Image(), plan, index);
      hide WordAt, HoldsBlocks;
      var numbers := flash.Read(add, 16);
      executions, period := ToInt32(WordAt(numbers[0..4])), ToInt32(WordAt(numbers[4..8]));
      nameLength, argsLength := WordAt(numbers[8..12]), WordAt(numbers[12..16]);
    }

    /** The name and, one field further, the arguments. */
    method ReadTexts(add: nat, nameLength: nat, argsLength: nat, ghost index: nat) returns (name: seq<byte>, args: seq<byte>)
      requires ValidPlan() && index < |plan| && add == RecordAddress(index) + 20
      requires nameLength == |plan[index].name| && argsLength == |plan[index].args|
      ensures name == plan[index].name && args == plan[index].args
    {
      FieldsReadBack(Image(), plan, index);
      hide WordAt, HoldsBlocks;
      name := flash.Read(add, nameLength);
      args := flash.Read(add + FIELD, argsLength);
    }

    /** storage_flight_plan_get */
    method PlanGet(t: int32) returns (r: Fetched)
      requires Booted()
      modifies this, flash.mem
      ensures Booted() && logs == old(logs) && memIndex == old(memIndex) && (fplQueue < 0 <==> old(fplQueue) < 0)
      ensures r == PlanGetResult(old(plan), t)
      ensures plan == PlanAfterGet(old(plan), t)
    {
      var index := FindIndex(t);
      if index < 0 {
        return Missing;
      }
      var e := ReadEntry(t, index);
      var _ := EraseIndex(index);
      if e.period > 0 {
        var _ := SetCounted(Rearmed(e));
      }
      return Fetched(e);
    }

    /** storage_flight_plan_erase */
    method PlanErase(t: int32) returns (rc: int)
      requires Booted()
      modifies this, flash.mem
      ensures Booted() && logs == old(logs) && memIndex == old(memIndex) && (fplQueue < 0 <==> old(fplQueue) < 0)
      ensures rc == if FindTime(old(plan), t) < 0 then -1 else 0
      ensures plan == PlanAfterErase(old(plan), t)
    {
      var index := FindIndex(t);
      if index < 0 {
        return -1;
      }
      rc := EraseIndex(index);
    }

    /** storage_flight_plan_reset, for every counter: whatever the plan section held before, the plan is empty after,
        unless the counter was so far below zero that no section was erased. A counter so large that the erasing leaves
        the address table or the chip makes the model stop there, `outside`, with the counter as it was. */
    method PlanReset() returns (outside: bool)
      requires ValidLogs()
      modifies this, flash.mem
      ensures ValidLogs() && logs == old(logs) && memIndex == old(memIndex) && plan == []
      ensures outside <==> ResetLeaves(old(fplQueue), flash.mem.Length)
      ensures !outside ==> fplQueue == 0
      ensures !outside ==> (ValidPlan() <==> old(fplQueue) > -RECORDS_PER_SECTION || HoldsBlocks(old(Image()), []))
      ensures outside ==> fplQueue == old(fplQueue) && HoldsPlan(Image(), [])
    {
      plan := [];
      assert Records(plan) == [];
      var entries := fplQueue;
      var sections := TruncDiv(entries, 1771) + 1;
      SectionsCover(entries);
      var i := 0;
      while i < sections
        invariant 0 <= i && (i > 0 ==> i <= sections)
        invariant entries == fplQueue - i * 1771 && fplQueue == old(fplQueue) && plan == []
        invariant logs == old(logs) && memIndex == old(memIndex) && HoldsLogs(Image(), logs)
        invariant i > 0 ==> i <= PLAN_SECTIONS && (16 + i) * 0x4_0000 <= flash.mem.Length
        invariant if i > 0 then HoldsBlocks(Image(), []) else Image() == old(Image())
      {
        if i >= |planAddresses| || planAddresses[i] + SECTION > flash.mem.Length {
          return true;
        }
        BlankSection(planAddresses[i]);
        entries := entries - RECORDS_PER_SECTION;
        i := i + 1;
      }
      fplQueue := if entries < 0 then 0 else entries;
      outside := false;
    }

    /** The table lookup of storage_set_payload_data and storage_get_payload_data, made before the section is
        tested; outside the table it yields any value. */
    method SectionBase(p: nat, index: nat) returns (inTable: bool, base: nat)
      requires p < PAYLOADS && Wired()
      ensures inTable <==> SampleSection(p, index) < PAYLOAD_SECTIONS
      ensures inTable ==> base == SectionStart(SampleSection(p, index))
    {
      var sectionIndex := 2 * p + index / PerSection(p);
      inTable := sectionIndex < |addresses|;
      if inTable {
        base := addresses[sectionIndex];
      } else {
        base := *;
      }
    }

    /** storage_set_payload_data at the next index of a log. `inTable` says whether its table lookup stayed
        inside the table. */
    method SetPayload(p: nat, index: nat, d: Sample) returns (rc: int, inTable: bool)
      requires ValidLogs() && p < PAYLOADS && |d| == SampleSize(p) && index == |logs[p]|
      modifies flash.mem
      ensures |Image()| == |old(Image())| && Image()[PLAN_BASE..] == old(Image())[PLAN_BASE..]
      ensures if index < Capacity(p) then rc == 0 && HoldsLogs(Image(), logs[p := logs[p] + [d]])
              else rc == -1 && Image() == old(Image())
      ensures inTable <==> SampleSection(p, index) < PAYLOAD_SECTIONS
    {
      DivBound(index, PerSection(p));
      var base;
      inTable, base := SectionBase(p, index);
      var add := base + index % PerSection(p) * SampleSize(p);
      if index / PerSection(p) >= 2 {
        return -1, inTable;
      }
      ghost var img := Image();
      NextSlotErased(img, p, logs[p]);
      flash.Program(add, d);
      SampleBelowPlan(img, add, d);
      AppendSample(img, logs, p, d);
      rc := 0;
    }

    /** dat_add_payload_sample */
    method AddSample(p: nat, d: Sample) returns (rc: int, inTable: bool)
      requires Booted() && p < PAYLOADS && |d| == SampleSize(p)
      modifies this, flash.mem
      ensures Booted() && plan == old(plan) && fplQueue == old(fplQueue)
      ensures if |old(logs)[p]| < Capacity(p)
        then rc == |old(logs)[p]| + 1 && logs == old(logs)[p := old(logs)[p] + [d]]
        else rc == -1 && logs == old(logs) && Image() == old(Image())
      ensures inTable <==> !(p == PAYLOADS - 1 && |old(logs)[p]| == Capacity(p))
    {
      var index := memIndex[p];
      ghost var img := Image();
      assert HoldsLog(Image(), p, logs[p]);
      AddReadsInTable(p, index);
      rc, inTable := SetPayload(p, index, d);
      SamePlanSection(img, Image(), Records(plan));
      if rc == 0 {
        memIndex := memIndex[p := index + 1];
        logs := logs[p := logs[p] + [d]];
        rc := index + 1;
      }
    }

    /** dat_get_recent_payload_sample over storage_get_payload_data. A delay that is negative enough
        makes it look outside the address table. */
    method RecentSample(p: nat, delay: int32) returns (r: Read, inTable: bool)
      requires ValidLogs() && p < PAYLOADS
      ensures r == Recent(p, logs[p], delay)
      ensures inTable <==> LooksInTable(p, |logs[p]|, delay)
    {
      assert HoldsLog(Image(), p, logs[p]) && |logs[p]| <= Capacity(p);
      hide HoldsLogs, HoldsLog, LooksInTable, Recent, Slot, SampleSection, Capacity;
      var index := WrapInt32(memIndex[p] - 1 - delay);
      IndexOf(p, logs[p], delay);
      if index < 0 {
        return NoSample, true;
      }
      r, inTable := GetPayload(p, index);
    }

    /** storage_get_payload_data */
    method GetPayload(p: nat, index: nat) returns (r: Read, inTable: bool)
      requires ValidLogs() && p < PAYLOADS
      ensures r == if index < Capacity(p) then Sampled(Slot(p, logs[p], index)) else NoSample
      ensures inTable <==> SampleSection(p, index) < PAYLOAD_SECTIONS
    {
      DivBound(index, PerSection(p));
      var base;
      inTable, base := SectionBase(p, index);
      var add := base + index % PerSection(p) * SampleSize(p);
      if index / PerSection(p) >= 2 {
        return NoSample, inTable;
      }
      SampleFitsSection(p, index);
      var d := flash.Read(add, SampleSize(p));
      assert HoldsLog(Image(), p, logs[p]);
      assert Holds(Image(), SampleAddress(p, index), Slot(p, logs[p], index));
      return Sampled(d), true;
    }

    /** storage_delete_memory_sections: all payload sections are erased, the plan section stays as it is. */
    method ErasePayloads()
      requires FitsChip(Image()) && Wired()
      modifies flash.mem
      ensures HoldsLogs(Image(), seq(PAYLOADS, _ => []))
      ensures Image()[PLAN_BASE..] == old(Image())[PLAN_BASE..]
    {
      for i := 0 to PAYLOAD_SECTIONS
        invariant FitsChip(Image()) && Image()[PLAN_BASE..] == old(Image())[PLAN_BASE..]
        invariant IsErased(Image(), 0, SectionStart(i))
      {
        flash.EraseBlock(addresses[i]);
      }
      ErasedLogs(Image());
    }

    /** dat_delete_memory_sections: whatever flash and counters held before, every log is empty after. A build with
        flight plans resets the plan too, any other leaves it as it was. */
    method DeleteMemorySections(fpEnabled: bool) returns (outside: bool)
      requires FitsChip(Image()) && Wired()
      modifies this, flash.mem
      ensures ValidLogs() && logs == seq(PAYLOADS, _ => [])
      ensures outside <==> fpEnabled && ResetLeaves(old(fplQueue), flash.mem.Length)
      ensures fpEnabled && !outside ==>
        plan == [] && fplQueue == 0 && (old(fplQueue) > -RECORDS_PER_SECTION ==> ValidPlan())
      ensures !fpEnabled ==> plan == old(plan) && fplQueue == old(fplQueue) && (ValidPlan() <==> old(ValidPlan()))
      ensures !fpEnabled ==> Image()[PLAN_BASE..] == old(Image())[PLAN_BASE..]
    {
      ghost var img := Image();
      memIndex := seq(PAYLOADS, _ => 0);
      ErasePayloads();
      logs := seq(PAYLOADS, _ => []);
      outside := false;
      if fpEnabled {
        outside := PlanReset();
      } else {
        SamePlanSection(img, Image(), Records(plan));
        SamePlanSection(Image(), img, Records(plan));
      }
    }

    /** One storage request of a client; no entry may be set while the plan's counter is unset. */
    method Perform(op: Op) returns (out: Out)
      requires Booted() && Sized(op) && (op.SetPlan? ==> fplQueue >= 0)
      modifies this, flash.mem
      ensures Booted() && Model(plan, logs) == Apply(old(Model(plan, logs)), op)
      ensures fplQueue < 0 <==> old(fplQueue) < 0 && !Resets(op)
      ensures out == Output(old(Model(plan, logs)), op)
    {
      hide HoldsBlocks, HoldsLogs;
      match op
      case SetPlan(e) => var rc := SetCounted(e); out := Code(rc);
      case GetPlan(t) => var r := PlanGet(t); out := Entries(r);
      case ErasePlan(t) => var rc := PlanErase(t); out := Code(rc);
      case ResetPlan => var rc := ResetBooted(); out := Code(rc);
      case AddTo(p, d) => var rc, _ := AddSample(p, d); out := Code(rc);
      case ReadFrom(p, delay) => var r, _ := RecentSample(p, delay); out := Samples(r);
      case DeleteAll(fpEnabled) => var rc := DeleteBooted(fpEnabled); out := Code(rc);
    }

    /** storage_flight_plan_reset with a counter as booting leaves it. */
    method ResetBooted() returns (rc: int)
      requires Booted()
      modifies this, flash.mem
      ensures Booted() && plan == [] && logs == old(logs) && fplQueue == 0 && rc == 0
    {
      ResetStaysInside(fplQueue, flash.mem.Length);
      var _ := PlanReset();
      rc := 0;
    }

    /** dat_delete_memory_sections with such a counter. */
    method DeleteBooted(fpEnabled: bool) returns (rc: int)
      requires Booted()
      modifies this, flash.mem
      ensures Booted() && logs == seq(PAYLOADS, _ => []) && plan == if fpEnabled then [] else old(plan)
      ensures fplQueue == (if fpEnabled then 0 else old(fplQueue)) && rc == 0
    {
      ResetStaysInside(fplQueue, flash.mem.Length);
      var _ := DeleteMemorySections(fpEnabled);
      rc := 0;
    }

    /** Every run of storage requests, in any order and of any length, leaves flash and counters
        representing the list model's state and answers what the list model answers; from the first boot on,
        provided that the plan is reset before its first entry is set. */
    method Run(ops: seq<Op>) returns (outs: seq<Out>)
      requires Booted() && AllSized(ops) && (fplQueue < 0 ==> ResetFirst(ops))
      modifies this, flash.mem
      ensures Booted() && Model(plan, logs) == ModelRun(old(Model(plan, logs)), ops)
      ensures fplQueue < 0 <==> old(fplQueue) < 0 && NoReset(ops)
      ensures fplQueue >= 0 ==> Valid() && fplQueue == |plan| <= PLAN_MAX
      ensures forall i :: 0 <= i < |plan| ==> Decodable(Image()[RecordAddress(i)..RecordAddress(i) + RECORD])
      ensures DecodePlan(Image(), |plan|) == plan
      ensures outs == Outputs(old(Model(plan, logs)), ops)
    {
      outs := [];
      ghost var m0 := Model(plan, logs);
      for i := 0 to |ops|
        invariant Booted() && Model(plan, logs) == ModelRun(m0, ops[..i])
        invariant fplQueue < 0 <==> old(fplQueue) < 0 && NoReset(ops[..i])
        invariant outs == Outputs(m0, ops[..i])
      {
        assert ops[..i + 1][..i] == ops[..i];
        NoResetNext(ops, i);
        var out := Perform(ops[i]);
        outs := outs + [out];
      }
      assert ops[..|ops|] == ops;
      if fplQueue >= 0 {
        HeldPlanDecodes(Image(), plan);
      }
    }
  }

  /** Requests that set the plan's counter. */
  predicate Resets(op: Op) {
    op.ResetPlan? || op == DeleteAll(true)
  }

  predicate NoReset(ops: seq<Op>) {
    forall i :: 0 <= i < |ops| ==> !Resets(ops[i])
  }

  /** The plan is reset before an entry is set. */
  predicate ResetFirst(ops: seq<Op>) {
    forall i :: 0 <= i < |ops| && ops[i].SetPlan? ==> !NoReset(ops[..i])
  }

  lemma {:induction false} NoResetNext(ops: seq<Op>, i: nat)
    requires i < |ops|
    ensures NoReset(ops[..i + 1]) <==> NoReset(ops[..i]) && !Resets(ops[i])
  {
    assert ops[..i + 1] == ops[..i] + [ops[i]];
  }

  /** A counter that the plan can hold keeps resetting on the chip. */
  lemma {:induction false} ResetStaysInside(c: int, length: nat)
    requires PLAN_END <= length
    ensures c <= PLAN_MAX ==> !ResetLeaves(c, length)
  {
    if 0 <= c <= PLAN_MAX {
      assert c / 1771 == 0;
    }
  }

  /** The counter with which dat_repo_init starts in RAM would make it leave the table, on any chip. */
  lemma {:induction false} LargestCounterLeaves(length: nat)
    ensures ResetLeaves(0x7FFF_FFFF, length)
  {}

  /** The erased sections cover the counter, and there is none exactly when it is -1771 or less. */
  lemma {:induction false} SectionsCover(c: int)
    ensures c >= 0 ==> (ResetSections(c) - 1) * 1771 <= c < ResetSections(c) * 1771
    ensures ResetSections(c) >= 1 <==> c > -1771
  {
    if c < 0 {
      var q := -c / 1771;
      assert q * 1771 <= -c < q * 1771 + 1771;
    }
  }

  /** Where the section arithmetic puts record `c`, C division and remainder included. */
  lemma {:induction false} RecordPlace(c: int)
    requires c < PLAN_MAX
    ensures TruncDiv(c, 1771) >= 0 <==> c > -RECORDS_PER_SECTION
    ensures c > -RECORDS_PER_SECTION ==> TruncDiv(c, 1771) == 0 && TruncMod(c, 1771) == c
    ensures PlanTable()[0] == PLAN_BASE
  {
    SectionsCover(c);
    if c >= 0 {
      assert c / 1771 == 0;
    } else if c > -1771 {
      StrayLands(c);
    }
  }

  /** Set wrote the entry at a counter `c` below zero: nothing outside that record changed, and if it was erased before, it
      now is the entry's. */
  ghost predicate Strayed(img: seq<byte>, img': seq<byte>, c: int, e: Entry, clean: bool)
    requires -RECORDS_PER_SECTION < c < 0
  {
    && OnlyRecord(img, img', StrayAddress(c))
    && (IsErased(img, StrayAddress(c), RECORD) ==> clean && img' == Splice(img, StrayAddress(c), Encode(e)))
  }

  /** The record that set writes at a counter from zero on appends its entry. */
  lemma {:induction false} SetAppends(img: seq<byte>, img': seq<byte>, plan: seq<Entry>, logs: seq<seq<Sample>>, e: Entry)
    requires HoldsPlan(img, plan) && HoldsLogs(img, logs) && |plan| < PLAN_MAX
    requires IsErased(img, RecordAddress(|plan|), RECORD) ==> img' == Splice(img, RecordAddress(|plan|), Encode(e))
    ensures IsErased(img, RecordAddress(|plan|), RECORD) && HoldsLogs(img', logs)
    ensures HoldsPlan(img', plan + [e]) && Appends(img, img', e)
  {
    NextRecordErased(img, plan);
    AppendRecord(img, plan, e);
    LogsKept(img, logs, RecordAddress(|plan|), Encode(e));
  }

  /** The one that it writes at a counter below zero does not, and spoils the logs. */
  lemma {:induction false} SetStrays(img: seq<byte>, img': seq<byte>, logs: seq<seq<Sample>>, c: int, e: Entry)
    requires HoldsLogs(img, logs) && -RECORDS_PER_SECTION < c < 0 && OnlyRecord(img, img', StrayAddress(c))
    requires IsErased(img, StrayAddress(c), RECORD) ==> img' == Splice(img, StrayAddress(c), Encode(e))
    ensures !Appends(img, img', e)
    ensures IsErased(img, StrayAddress(c), RECORD) ==> !HoldsLogs(img', logs)
  {
    StrayLands(c);
    assert img[PLAN_BASE..] == img'[PLAN_BASE..];
    BelowNeverAppends(img, img', e);
    if IsErased(img, StrayAddress(c), RECORD) {
      StraySpoilsLogs(img, logs, c, e);
    }
  }

  /** The first request after a first boot being to set an entry: it is reported as stored, but the plan is as empty as
      before, the counter says so too, and the last payload's log is spoilt. */
  method SetAfterBoot(sections: nat, e: Entry) returns (store: Store, rc: int)
    requires sections > PAYLOAD_SECTIONS
    ensures rc == 0 && store.fplQueue == 0 && HoldsPlan(store.Image(), [])
    ensures store.logs == seq(PAYLOADS, _ => []) && !store.ValidLogs()
  {
    store := new Store(sections);
    ghost var img := store.Image();
    StrayErased(img, store.logs);
    var inTable, clean;
    rc, inTable, clean := store.PlanSet(e);
    StrayLands(-1);
    assert img[PLAN_BASE..] == store.Image()[PLAN_BASE..];
    SamePlanSection(img, store.Image(), Records([]));
  }

  /** A sample lies below the plan section. */
  lemma {:induction false} SampleBelowPlan(img: seq<byte>, at: nat, d: seq<byte>)
    requires FitsChip(img) && at + |d| <= PLAN_BASE
    ensures Splice(img, at, d)[PLAN_BASE..] == img[PLAN_BASE..]
  {}

  lemma {:induction false} DivBound(k: nat, per: nat)
    requires per > 0
    ensures k / per >= 2 <==> k >= 2 * per
  {
    QuotientBelow(k, per, 2);
  }

  /** Asking a log of `n` samples for a delay looks inside the 16-entry address table, or fails before. */
  predicate LooksInTable(p: nat, n: nat, delay: int32)
    requires p < PAYLOADS
  {
    var k := n - 1 - delay;
    0 <= k < 0x8000_0000 ==> SampleSection(p, k) < PAYLOAD_SECTIONS
  }

  lemma {:induction false} QuotientBelow(k: nat, per: nat, m: nat)
    requires per > 0
    ensures k / per < m <==> k < m * per
  {
    var q := k / per;
    assert q * per <= k < q * per + per;
    if q < m { ProductStep(q, m, per); } else if m < q { ProductStep(m, q, per); }
  }

  lemma {:induction false} FirstOutside()
    ensures !LooksInTable(0, 0, -262145) && LooksInTable(0, 0, -262144)
  {
    assert PerSection(0) == 16384;
  }

  /** In terms of the delay: only delays too far below zero look outside the table, until the index wraps.
      The first such delay for payload 0 and an empty log is -262145. */
  lemma {:induction false} DelayLooksInTable(p: nat, n: nat, delay: int32)
    requires p < PAYLOADS
    ensures LooksInTable(p, n, delay) <==>
      delay > n - 1 - (16 - 2 * p) * PerSection(p) || delay < n - 0x8000_0000
    ensures !LooksInTable(0, 0, -262145) && LooksInTable(0, 0, -262144)
  {
    FirstOutside();
    if n - 1 - delay >= 0 {
      QuotientBelow(n - 1 - delay, PerSection(p), 16 - 2 * p);
    }
  }

  /** The index that a delay asks for, computed in 32 bits. */
  lemma {:induction false} IndexOf(p: nat, log: seq<Sample>, delay: int32)
    requires p < PAYLOADS && |log| <= Capacity(p)
    ensures var index := WrapInt32(|log| - 1 - delay);
      if index < 0 then Recent(p, log, delay) == NoSample && LooksInTable(p, |log|, delay)
      else
        && Recent(p, log, delay) == (if index < Capacity(p) then Sampled(Slot(p, log, index)) else NoSample)
        && (LooksInTable(p, |log|, delay) <==> SampleSection(p, index) < PAYLOAD_SECTIONS)
  {
    var k := |log| - 1 - delay;
    CapacityBound(p);
    assert WrapInt32(k) == if k < 0x8000_0000 then k else k - 0x1_0000_0000;
  }

  lemma {:induction false} NextRecordErased(img: seq<byte>, plan: seq<Entry>)
    requires HoldsPlan(img, plan) && |plan| < PLAN_MAX
    ensures IsErased(img, RecordAddress(|plan|), RECORD)
  {}

  lemma {:induction false} SubBlock(img: seq<byte>, at: nat, d: seq<byte>, lo: nat, n: nat)
    requires Holds(img, at, d) && lo + n <= |d|
    ensures img[at + lo..at + lo + n] == d[lo..lo + n]
  {
    forall k | at + lo <= k < at + lo + n ensures img[k] == d[k - at] {
    }
    var l, r := img[at + lo..at + lo + n], d[lo..lo + n];
    forall j | 0 <= j < n ensures l[j] == r[j] {}
  }

  /** The first word of record `i` is its time. */
  lemma {:induction false} RecordTime(img: seq<byte>, plan: seq<Entry>, i: nat)
    requires HoldsPlan(img, plan) && i < |plan|
    ensures WordAt(img[RecordAddress(i)..RecordAddress(i) + 4]) == ToU32(plan[i].time)
  {
    RecordFields(img, plan, i);
    WordRoundTrip(ToU32(plan[i].time));
  }

  /** What reading the fields of record `i` yields. */
  lemma {:induction false} RecordFields(img: seq<byte>, plan: seq<Entry>, i: nat)
    requires HoldsPlan(img, plan) && i < |plan|
    ensures var at, e := RecordAddress(i), plan[i];
      && img[at..at + 4] == WordBytes(ToU32(e.time)) && img[at + 4..at + 20] == Numbers(e)
      && img[at + 20..at + 20 + |e.name|] == e.name && img[at + 84..at + 84 + |e.args|] == e.args
  {
    var at, b := RecordAddress(i), Encode(plan[i]);
    assert Holds(img, at, Records(plan)[i]);
    FieldsOf(plan[i]);
    SubBlock(img, at, b, 0, 4);
    SubBlock(img, at, b, 4, 16);
    SubBlock(img, at, b, 20, |plan[i].name|);
    SubBlock(img, at, b, 84, |plan[i].args|);
  }

  /** So the words and blocks at the offsets of the fields give the entry back. */
  lemma {:induction false} FieldsReadBack(img: seq<byte>, plan: seq<Entry>, i: nat)
    requires HoldsPlan(img, plan) && i < |plan|
    ensures RecordAddress(i) + RECORD <= |img|
    ensures var at, e := RecordAddress(i), plan[i];
      var numbers := img[at + 4..at + 20];
      && ToInt32(WordAt(numbers[0..4])) == e.executions && ToInt32(WordAt(numbers[4..8])) == e.period
      && WordAt(numbers[8..12]) == |e.name| && WordAt(numbers[12..16]) == |e.args|
      && img[at + 20..at + 20 + |e.name|] == e.name && img[at + 84..at + 84 + |e.args|] == e.args
  {
    RecordFields(img, plan, i);
    hide Numbers, Encode, WordAt;
    NumbersOf(plan[i]);
  }

  /** `buffer` is the concatenation of `blocks`. */
  ghost predicate IsBuffer(buffer: seq<byte>, blocks: seq<seq<byte>>) {
    && |buffer| == RecordOffset(|blocks|)
    && forall i :: 0 <= i < |blocks| ==> |blocks[i]| == RECORD && Holds(buffer, RecordOffset(i), blocks[i])
  }

  /** A block of the image is a block of a buffer read from around it. */
  lemma {:induction false} BlockOfBuffer(img: seq<byte>, base: nat, n: nat, off: nat, d: seq<byte>)
    requires base + n <= |img| && off + |d| <= n && Holds(img, base + off, d)
    ensures Holds(img[base..base + n], off, d)
  {
    SliceOfSlice(img, base, base + n, off, off + |d|);
  }

  /** Reading the whole plan gives the buffer of its records. */
  lemma {:induction false} BufferOfPlan(img: seq<byte>, blocks: seq<seq<byte>>, buffer: seq<byte>)
    requires HoldsBlocks(img, blocks)
    requires buffer == img[PLAN_BASE..PLAN_BASE + RecordOffset(|blocks|)]
    ensures IsBuffer(buffer, blocks)
  {
    forall i | 0 <= i < |blocks| ensures Holds(buffer, RecordOffset(i), blocks[i]) {
      assert Holds(img, RecordAddress(i), blocks[i]);
      BlockOfBuffer(img, PLAN_BASE, RecordOffset(|blocks|), RecordOffset(i), blocks[i]);
    }
  }

  /** The first word of block `i` of the buffer is the block's time. */
  lemma {:induction false} BufferTime(buffer: seq<byte>, blocks: seq<seq<byte>>, i: nat)
    requires IsBuffer(buffer, blocks) && i < |blocks|
    ensures RecordOffset(i) + 4 <= |buffer|
    ensures ToInt32(WordAt(buffer[RecordOffset(i)..RecordOffset(i) + 4])) == BlockTime(blocks[i])
  {
    SubBlock(buffer, RecordOffset(i), blocks[i], 0, 4);
  }

  function BlockTime(b: seq<byte>): int32 {
    if |b| == RECORD then ToInt32(WordAt(b[0..4])) else 0
  }

  /** The blocks that the rewriting loop writes back; see `Kept`. */
  ghost function KeptBlocks(blocks: seq<seq<byte>>, gone: int, n: nat): (kept: seq<seq<byte>>)
    requires n <= |blocks|
    ensures |kept| <= n
  {
    if n == 0 then []
    else
      var rest := KeptBlocks(blocks, gone, n - 1);
      if n - 1 != gone && BlockTime(blocks[n - 1]) != 0 then rest + [blocks[n - 1]] else rest
  }

  lemma {:induction false} KeptBlocksStep(blocks: seq<seq<byte>>, gone: int, i: nat)
    requires i < |blocks|
    ensures i != gone && BlockTime(blocks[i]) != 0 ==>
      KeptBlocks(blocks, gone, i + 1) == KeptBlocks(blocks, gone, i) + [blocks[i]]
    ensures i == gone || BlockTime(blocks[i]) == 0 ==>
      KeptBlocks(blocks, gone, i + 1) == KeptBlocks(blocks, gone, i)
  {}

  lemma {:induction false} RecordsAppend(plan: seq<Entry>, e: Entry)
    ensures Records(plan + [e]) == Records(plan) + [Encode(e)]
  {}

  lemma {:induction false} RecordsTime(plan: seq<Entry>, i: nat)
    requires i < |plan|
    ensures Records(plan)[i] == Encode(plan[i]) && BlockTime(Records(plan)[i]) == plan[i].time
  {
    RecordRoundTrip(plan[i]);
  }

  lemma {:induction false} KeptRecords(plan: seq<Entry>, gone: int, n: nat)
    requires n <= |plan|
    ensures KeptBlocks(Records(plan), gone, n) == Records(Kept(plan, gone, n))
  {
    hide Encode;
    if n == 0 {
      assert Records(Kept(plan, gone, 0)) == [];
    } else {
      hide Records, Kept, KeptBlocks;
      KeptRecords(plan, gone, n - 1);
      KeptRecordsStep(plan, gone, n - 1);
    }
  }

  lemma {:induction false} KeptRecordsStep(plan: seq<Entry>, gone: int, i: nat)
    requires i < |plan| && KeptBlocks(Records(plan), gone, i) == Records(Kept(plan, gone, i))
    ensures KeptBlocks(Records(plan), gone, i + 1) == Records(Kept(plan, gone, i + 1))
  {
    RecordsTime(plan, i);
    KeptStep(plan, gone, i);
    KeptBlocksStep(Records(plan), gone, i);
    RecordsAppend(Kept(plan, gone, i), plan[i]);
  }

  /** Like `Apply`, but getting and erasing take out exactly one entry. */
  ghost function IdealApply(m: Model, op: Op): (m': Model)
    requires Sized(op) && |m.logs| == PAYLOADS
    ensures |m'.logs| == PAYLOADS
  {
    match op
    case GetPlan(t) =>
      var i := FindTime(m.plan, t);
      if i < 0 then m
      else
        var rest := Without(m.plan, i);
        m.(plan := if m.plan[i].period > 0 then rest + [Rearmed(m.plan[i])] else rest)
    case ErasePlan(t) =>
      var i := FindTime(m.plan, t);
      if i < 0 then m else m.(plan := Without(m.plan, i))
    case _ => Apply(m, op)
  }

  ghost function IdealRun(m: Model, ops: seq<Op>): (m': Model)
    requires AllSized(ops) && |m.logs| == PAYLOADS
    ensures |m'.logs| == PAYLOADS
  {
    if ops == [] then m else IdealApply(IdealRun(m, ops[..|ops| - 1]), ops[|ops| - 1])
  }

  /** Stored times are positive, periods at most `longest`, and gets happen early enough
      for a re-armed time to fit its 32 bits. */
  predicate Benign(op: Op, longest: nat) {
    match op
    case SetPlan(e) => e.time > 0 && e.period <= longest
    case GetPlan(t) => t + longest < 0x8000_0000
    case _ => true
  }

  predicate TimesPositive(plan: seq<Entry>, longest: nat) {
    forall i :: 0 <= i < |plan| ==> plan[i].time > 0 && plan[i].period <= longest
  }

  lemma {:induction false} WithoutStaysPositive(plan: seq<Entry>, i: nat, longest: nat)
    requires i < |plan| && TimesPositive(plan, longest)
    ensures TimesPositive(Without(plan, i), longest)
    ensures Kept(plan, i, |plan|) == Without(plan, i)
  {
    EraseRemovesOne(plan, i);
    var rest := Without(plan, i);
    forall k | 0 <= k < |rest| ensures rest[k].time > 0 && rest[k].period <= longest {
    }
  }

  lemma {:induction false} BenignStep(m: Model, op: Op, longest: nat)
    requires Sized(op) && |m.logs| == PAYLOADS && Benign(op, longest) && TimesPositive(m.plan, longest)
    ensures Apply(m, op) == IdealApply(m, op)
    ensures TimesPositive(Apply(m, op).plan, longest)
  {
    if op.GetPlan? || op.ErasePlan? {
      var i := FindTime(m.plan, op.t);
      if i >= 0 {
        WithoutStaysPositive(m.plan, i, longest);
        if op.GetPlan? && m.plan[i].period > 0 {
          PositiveSnoc(Without(m.plan, i), Rearmed(m.plan[i]), longest);
        }
      }
    } else if op.SetPlan? {
      PositiveSnoc(m.plan, op.e, longest);
    }
  }

  lemma {:induction false} PositiveSnoc(plan: seq<Entry>, e: Entry, longest: nat)
    requires TimesPositive(plan, longest) && e.time > 0 && e.period <= longest
    ensures TimesPositive(plan + [e], longest)
  {}

  /** On every run that a caller keeps benign, the flash driver is the ideal list: no get or
      erase ever loses another entry. */
  lemma {:induction false} BenignRunsAreIdeal(m: Model, ops: seq<Op>, longest: nat)
    requires AllSized(ops) && |m.logs| == PAYLOADS && TimesPositive(m.plan, longest)
    requires forall i :: 0 <= i < |ops| ==> Benign(ops[i], longest)
    ensures ModelRun(m, ops) == IdealRun(m, ops)
    ensures TimesPositive(ModelRun(m, ops).plan, longest)
  {
    if ops != [] {
      BenignRunsAreIdeal(m, ops[..|ops| - 1], longest);
      BenignStep(ModelRun(m, ops[..|ops| - 1]), ops[|ops| - 1], longest);
    }
  }

  /** Without that: an entry stored at time zero disappears when another one is erased. */
  lemma {:induction false} ZeroTimeIsLost(e: Entry, z: Entry)
    requires e.time != 0 && z.time == 0
    ensures PlanAfterErase([z, e], e.time) == []
    ensures FindTime([z, e], e.time) == 1
  {
    var plan := [z, e];
    assert FindTime(plan, e.time) == 1;
    assert Kept(plan, 1, 2) == [];
  }
}
