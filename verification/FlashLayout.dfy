/** Where the flight plan and the eight payload logs live in the flash image, and what
    it means for an image to hold a given plan and given logs. */
module FlashLayout {
  import opened Bytes
  import opened NorFlash
  import opened PlanRecord

  /** last_sensor */
  const PAYLOADS := 8

  /** SCH_FP_MAX_ENTRIES */
  const PLAN_MAX := 25

  /** SCH_SECTIONS_PER_PAYLOAD, two, for each payload. */
  const PAYLOAD_SECTIONS := 2 * PAYLOADS

  /** storage_addresses_flight_plan[0] */
  const PLAN_BASE := 16 * SECTION

  const PLAN_END := PLAN_BASE + SECTION

  /** Records in one section, SECTION / RECORD; the whole plan fits in the first one. */
  const RECORDS_PER_SECTION := 1771

  /** The byte offset of record `i` in its section. */
  function RecordOffset(i: nat): nat { i * 148 }

  /** The section of the plan that record `i` falls in, and its index there. */
  function RecordSection(i: nat): nat { i / 1771 }

  function RecordIndex(i: nat): nat { i % 1771 }

  /** storage_addresses_flight_plan[i] */
  function PlanSection(i: nat): nat { SectionStart(16 + i) }

  /** The section arithmetic agrees with the record and section sizes, and the plan never
      leaves its first section. */
  lemma {:induction false} PlanFitsFirstSection()
    ensures RECORDS_PER_SECTION == SECTION / RECORD && PlanSection(0) == PLAN_BASE
    ensures forall i: nat :: i < PLAN_MAX ==>
      && PlanSection(RecordSection(i)) + RecordOffset(RecordIndex(i)) == RecordAddress(i)
      && RecordAddress(i) + RECORD <= PLAN_END
    ensures forall i: nat :: RecordOffset(i) == i * RECORD && SectionStart(i) == i * SECTION
    ensures forall i: nat :: RecordSection(i) == i / RECORDS_PER_SECTION && RecordIndex(i) == i % RECORDS_PER_SECTION
  {}

  type Sample = seq<byte>

  /** data_map[p].size: temp, ads, eps, langmuir, gps, prs, dpl, fod. */
  function SampleSize(p: nat): (s: nat)
    requires p < PAYLOADS
    ensures 8 <= s <= 40
  {
    [16, 28, 40, 20, 32, 16, 8, 16][p]
  }

  /** The fields of temp_data_t to fod_data_t; each takes four bytes. */
  function Fields(p: nat): seq<string>
    requires p < PAYLOADS
  {
    match p
    case 0 => ["timestamp", "obc_temp_1", "obc_temp_2", "obc_temp_3"]
    case 1 => ["timestamp", "acc_x", "acc_y", "acc_z", "mag_x", "mag_y", "mag_z"]
    case 2 => ["timestamp", "cursun", "cursys", "vbatt", "temp1", "temp2", "temp3", "temp4", "temp5", "temp6"]
    case 3 => ["timestamp", "sweep_voltage", "plasma_voltage", "plasma_temperature", "particles_counter"]
    case 4 => ["timestamp", "latitude", "longitude", "height", "velocity_x", "velocity_y", "satellites_number", "mode"]
    case 5 => ["timestamp", "pressure", "temperature", "height"]
    case 6 => ["timestamp", "port_status"]
    case _ => ["ver", "released", "on_time", "attempts"]
  }

  lemma {:induction false} SizeOfFields(p: nat)
    requires p < PAYLOADS
    ensures SampleSize(p) == 4 * |Fields(p)|
  {
    assert p == 0 || p == 1 || p == 2 || p == 3 || p == 4 || p == 5 || p == 6 || p == 7;
  }

  function PerSection(p: nat): (n: nat)
    requires p < PAYLOADS
    ensures n > 0 && n * SampleSize(p) <= SECTION < (n + 1) * SampleSize(p)
  {
    SECTION / SampleSize(p)
  }

  function Capacity(p: nat): nat
    requires p < PAYLOADS
  {
    2 * PerSection(p)
  }

  lemma {:induction false} CapacityBound(p: nat)
    requires p < PAYLOADS
    ensures 0 < Capacity(p) <= 0x1_0000
  {}

  /** The section that sample `k` of payload `p` falls in. */
  function SampleSection(p: nat, k: nat): nat
    requires p < PAYLOADS
  {
    2 * p + k / PerSection(p)
  }

  function SampleAddress(p: nat, k: nat): nat
    requires p < PAYLOADS
  {
    SectionStart(SampleSection(p, k)) + k % PerSection(p) * SampleSize(p)
  }

  /** storage_addresses_payloads */
  function PayloadTable(): seq<nat> {
    seq(PAYLOAD_SECTIONS, (i: nat) => SectionStart(i))
  }

  /** Entries of storage_addresses_flight_plan: (25 * 148) / 256 * 1024 + 1, as the section size is the
      unparenthesised 256*1024. */
  const PLAN_SECTIONS := 14337

  function PlanTable(): seq<nat> {
    seq(PLAN_SECTIONS, (i: nat) => PlanSection(i))
  }

  /** An add reads the address table past its end exactly when the log of the last payload is full. */
  lemma {:induction false} AddReadsInTable(p: nat, n: nat)
    requires p < PAYLOADS && n <= Capacity(p)
    ensures SampleSection(p, n) < PAYLOAD_SECTIONS <==> !(p == PAYLOADS - 1 && n == Capacity(p))
  {
    var per := PerSection(p);
    if n < 2 * per {
      SlotInSection(n, per, SampleSize(p));
    } else {
      QuotientIs(n, per, 2, 0);
    }
    hide PerSection, SampleSize;
  }

  /** The failing add: payload 7 with all its 32768 samples. */
  lemma {:induction false} FullLastLogReadsOutside()
    ensures Capacity(7) == 32768 && SampleSection(7, Capacity(7)) == PAYLOAD_SECTIONS
  {}

  /** A sample never crosses the end of its section, and its section is one of its payload's two. */
  lemma {:induction false} SampleFitsSection(p: nat, k: nat)
    requires p < PAYLOADS && k < Capacity(p)
    ensures 2 * p <= SampleSection(p, k) < 2 * p + 2
    ensures SectionStart(2 * p) <= SampleAddress(p, k)
    ensures SampleAddress(p, k) + SampleSize(p) <= SectionStart(2 * p + 2) <= PLAN_BASE
  {
    SlotInSection(k, PerSection(p), SampleSize(p));
  }

  /** Samples follow one another from the start of the payload's first section; one that would cross its end opens the
      second. */
  lemma {:induction false} SampleFollows(p: nat, k: nat)
    requires p < PAYLOADS && k + 1 < Capacity(p)
    ensures var next := SampleAddress(p, k) + SampleSize(p);
      SampleAddress(p, k + 1) == if next / SECTION == (next + SampleSize(p) - 1) / SECTION then next else SectionStart(2 * p + 1)
  {
    var per, size := PerSection(p), SampleSize(p);
    NextSlot(k, per);
    OneFurther(k % per, size);
    var x := (k % per + 1) * size;
    if k % per + 1 < per {
      SlotInSection(k + 1, per, size);
    }
    Crosses(SampleSection(p, k), x, size);
    hide SampleSize, PerSection;
  }

  lemma {:induction false} FirstSample(p: nat)
    requires p < PAYLOADS
    ensures SampleAddress(p, 0) == SectionStart(2 * p)
  {
    QuotientIs(0, PerSection(p), 0, 0);
  }

  /** Whether `size` bytes at offset `x` of a section stay inside it. */
  lemma {:induction false} Crosses(section: nat, x: nat, size: nat)
    requires 0 < size <= 40 && x <= SECTION
    ensures var at := SectionStart(section) + x;
      at / SECTION == (at + size - 1) / SECTION <==> x == SECTION || x + size <= SECTION
  {}

  lemma {:induction false} OneFurther(m: nat, size: nat)
    ensures (m + 1) * size == m * size + size
  {}

  lemma {:induction false} NextSlot(k: nat, per: nat)
    requires 0 < per && k + 1 < 2 * per
    ensures k % per + 1 < per ==> (k + 1) / per == k / per && (k + 1) % per == k % per + 1
    ensures k % per + 1 >= per ==> k % per + 1 == per && k / per == 0 && (k + 1) / per == 1 && (k + 1) % per == 0
  {
    if k < per {
      QuotientIs(k, per, 0, k);
    } else {
      QuotientIs(k, per, 1, k - per);
    }
    if k + 1 < per {
      QuotientIs(k + 1, per, 0, k + 1);
    } else {
      QuotientIs(k + 1, per, 1, k + 1 - per);
    }
  }

  lemma {:induction false} SlotInSection(k: nat, per: nat, size: nat)
    requires 0 < per && k < 2 * per && per * size <= SECTION
    ensures 0 <= k / per < 2
    ensures 0 <= k % per * size && k % per * size + size <= SECTION
  {}

  lemma {:induction false} SamplesOfOnePayloadDisjoint(p: nat, k: nat, j: nat)
    requires p < PAYLOADS && k < Capacity(p) && j < Capacity(p)
    requires k != j && SampleSection(p, k) <= SampleSection(p, j)
    ensures || SampleAddress(p, k) + SampleSize(p) <= SampleAddress(p, j)
            || SampleAddress(p, j) + SampleSize(p) <= SampleAddress(p, k)
  {
    var per, size := PerSection(p), SampleSize(p);
    SlotInSection(k, per, size);
    SlotInSection(j, per, size);
    DivModUnique(k, j, per);
    if SampleSection(p, k) == SampleSection(p, j) {
      if k % per < j % per {
        ProductStep(k % per, j % per, size);
      } else {
        ProductStep(j % per, k % per, size);
      }
    }
  }

  /** The map from (payload, index) to byte ranges is injective: distinct samples never share a byte. */
  lemma {:induction false} SamplesDisjoint(p: nat, k: nat, q: nat, j: nat)
    requires p < PAYLOADS && k < Capacity(p) && q < PAYLOADS && j < Capacity(q)
    requires (p, k) != (q, j)
    ensures || SampleAddress(p, k) + SampleSize(p) <= SampleAddress(q, j)
            || SampleAddress(q, j) + SampleSize(q) <= SampleAddress(p, k)
  {
    if p != q {
      SampleFitsSection(p, k);
      SampleFitsSection(q, j);
    } else if SampleSection(p, k) <= SampleSection(p, j) {
      SamplesOfOnePayloadDisjoint(p, k, j);
    }
  }

  lemma {:induction false} DivModUnique(k: nat, j: nat, per: nat)
    requires per > 0
    ensures k != j ==> (k / per, k % per) != (j / per, j % per)
  {}

  predicate FitsChip(img: seq<byte>) {
    PLAN_END <= |img|
  }

  function RecordAddress(i: nat): nat { PLAN_BASE + RecordOffset(i) }

  /** The plan section holds the 148-byte `blocks`, packed from its start, and every byte
      behind them is erased. */
  ghost predicate HoldsBlocks(img: seq<byte>, blocks: seq<seq<byte>>) {
    && FitsChip(img)
    && |blocks| <= PLAN_MAX
    && (forall i :: 0 <= i < |blocks| ==> |blocks[i]| == RECORD && Holds(img, RecordAddress(i), blocks[i]))
    && IsErased(img, RecordAddress(|blocks|), PLAN_END - RecordAddress(|blocks|))
  }

  function Records(plan: seq<Entry>): (blocks: seq<seq<byte>>)
    ensures |blocks| == |plan|
    ensures forall i :: 0 <= i < |blocks| ==> |blocks[i]| == RECORD
  {
    seq(|plan|, i requires 0 <= i < |plan| => Encode(plan[i]))
  }

  /** The plan section holds exactly the records of `plan`. */
  ghost predicate HoldsPlan(img: seq<byte>, plan: seq<Entry>) {
    HoldsBlocks(img, Records(plan))
  }

  /** What slot `k` of payload `p` holds when its log is `log`. */
  function Slot(p: nat, log: seq<Sample>, k: nat): Sample
    requires p < PAYLOADS
  {
    if k < |log| then log[k] else Fill(SampleSize(p))
  }

  /** Payload `p`'s slots hold `log` in order and all its later slots are erased. */
  ghost predicate HoldsLog(img: seq<byte>, p: nat, log: seq<Sample>)
    requires p < PAYLOADS
  {
    && |log| <= Capacity(p)
    && forall k: nat :: k < Capacity(p) ==>
        |Slot(p, log, k)| == SampleSize(p) && Holds(img, SampleAddress(p, k), Slot(p, log, k))
  }

  ghost predicate HoldsLogs(img: seq<byte>, logs: seq<seq<Sample>>) {
    && FitsChip(img)
    && |logs| == PAYLOADS
    && forall p: nat :: p < PAYLOADS ==> HoldsLog(img, p, logs[p])
  }

  /** Decoding the first `n` records. */
  ghost function DecodePlan(img: seq<byte>, n: nat): seq<Entry>
    requires FitsChip(img) && n <= PLAN_MAX
    requires forall i :: 0 <= i < n ==> Decodable(img[RecordAddress(i)..RecordAddress(i) + RECORD])
  {
    seq(n, i requires 0 <= i < n => Decode(img[RecordAddress(i)..RecordAddress(i) + RECORD]))
  }

  /** The represented plan is what a reader of the flash decodes. */
  lemma {:induction false} HeldPlanDecodes(img: seq<byte>, plan: seq<Entry>)
    requires HoldsPlan(img, plan)
    ensures forall i :: 0 <= i < |plan| ==> Decodable(img[RecordAddress(i)..RecordAddress(i) + RECORD])
    ensures DecodePlan(img, |plan|) == plan
  {
    forall i | 0 <= i < |plan|
      ensures Decodable(img[RecordAddress(i)..RecordAddress(i) + RECORD])
      ensures Decode(img[RecordAddress(i)..RecordAddress(i) + RECORD]) == plan[i]
    {
      assert Holds(img, RecordAddress(i), Records(plan)[i]);
      RecordRoundTrip(plan[i]);
    }
  }

  /** The byte behind the last record starts a free record. */
  lemma {:induction false} AppendBlock(img: seq<byte>, blocks: seq<seq<byte>>, b: seq<byte>)
    requires HoldsBlocks(img, blocks) && |blocks| < PLAN_MAX && |b| == RECORD
    ensures HoldsBlocks(Splice(img, RecordAddress(|blocks|), b), blocks + [b])
  {}

  /** Programming one more record behind the plan appends its entry. */
  lemma {:induction false} AppendRecord(img: seq<byte>, plan: seq<Entry>, e: Entry)
    requires HoldsPlan(img, plan) && |plan| < PLAN_MAX
    ensures HoldsPlan(Splice(img, RecordAddress(|plan|), Encode(e)), plan + [e])
  {
    AppendBlock(img, Records(plan), Encode(e));
  }

  /** Writes at or above the plan section do not reach a payload log. */
  lemma {:induction false} LogKept(img: seq<byte>, p: nat, log: seq<Sample>, at: nat, d: seq<byte>)
    requires p < PAYLOADS && HoldsLog(img, p, log) && PLAN_BASE <= at && at + |d| <= |img|
    ensures HoldsLog(Splice(img, at, d), p, log)
  {
    forall k: nat | k < Capacity(p) ensures Holds(Splice(img, at, d), SampleAddress(p, k), Slot(p, log, k)) {
      SampleFitsSection(p, k);
      SpliceMiss(img, at, d, SampleAddress(p, k), Slot(p, log, k));
    }
  }

  lemma {:induction false} LogsKept(img: seq<byte>, logs: seq<seq<Sample>>, at: nat, d: seq<byte>)
    requires HoldsLogs(img, logs) && PLAN_BASE <= at && at + |d| <= |img|
    ensures HoldsLogs(Splice(img, at, d), logs)
  {
    forall p: nat | p < PAYLOADS ensures HoldsLog(Splice(img, at, d), p, logs[p]) {
      LogKept(img, p, logs[p], at, d);
    }
  }

  /** Writes below the plan section do not reach the plan. */
  lemma {:induction false} PlanKept(img: seq<byte>, blocks: seq<seq<byte>>, at: nat, d: seq<byte>)
    requires HoldsBlocks(img, blocks) && at + |d| <= PLAN_BASE
    ensures HoldsBlocks(Splice(img, at, d), blocks)
  {}

  /** What the plan section holds depends on nothing before it. */
  lemma {:induction false} SamePlanSection(img: seq<byte>, img': seq<byte>, blocks: seq<seq<byte>>)
    requires |img| == |img'| && FitsChip(img) && img[PLAN_BASE..] == img'[PLAN_BASE..]
    ensures HoldsBlocks(img, blocks) ==> HoldsBlocks(img', blocks)
  {
    forall k | PLAN_BASE <= k < |img| ensures img[k] == img'[k] {
      assert img[k] == img[PLAN_BASE..][k - PLAN_BASE];
    }
  }

  /** A used record is not erased. */
  lemma {:induction false} UsedRecord(img: seq<byte>, plan: seq<Entry>, i: nat)
    requires HoldsPlan(img, plan) && i < |plan|
    ensures RecordAddress(i) + RECORD <= |img| && img[RecordAddress(i) + 12] == 0
  {
    NeverBlank(plan[i]);
    assert Holds(img, RecordAddress(i), Records(plan)[i]);
    assert img[RecordAddress(i)..RecordAddress(i) + RECORD][12] == 0;
  }

  /** A plan with an entry keeps the first record from being erased. */
  lemma {:induction false} UsedRecordNotErased(img: seq<byte>, plan: seq<Entry>)
    requires HoldsPlan(img, plan)
    ensures IsErased(img, RecordAddress(0), RECORD) <==> plan == []
  {
    if plan != [] {
      UsedRecord(img, plan, 0);
    }
  }

  /** A flash image represents at most one plan. */
  lemma {:induction false} PlanUnique(img: seq<byte>, plan: seq<Entry>, other: seq<Entry>)
    requires HoldsPlan(img, plan) && HoldsPlan(img, other)
    ensures plan == other
  {
    if |plan| < |other| {
      UsedRecord(img, other, |plan|);
    } else if |other| < |plan| {
      UsedRecord(img, plan, |other|);
    } else {
      HeldPlanDecodes(img, plan);
      HeldPlanDecodes(img, other);
    }
  }

  /** The new image's plan section holds what the old one held and `e` behind it. */
  ghost predicate Appends(img: seq<byte>, img': seq<byte>, e: Entry) {
    exists plan :: HoldsPlan(img, plan) && HoldsPlan(img', plan + [e])
  }

  /** Writing below the plan section never appends. */
  lemma {:induction false} BelowNeverAppends(img: seq<byte>, img': seq<byte>, e: Entry)
    requires |img| == |img'| && FitsChip(img) && img[PLAN_BASE..] == img'[PLAN_BASE..]
    ensures !Appends(img, img', e)
  {
    forall plan | HoldsPlan(img, plan) ensures !HoldsPlan(img', plan + [e]) {
      SamePlanSection(img, img', Records(plan));
      if HoldsPlan(img', plan + [e]) {
        PlanUnique(img', plan, plan + [e]);
      }
    }
  }

  // ------------------------------------------------------------------------------------
  // A plan counter below zero.

  /** The address that the section arithmetic of storage_flight_plan_set gives for a counter `c` below zero: C division
      rounds -1 to -1770 to section zero, and the remainder stays negative. */
  function StrayAddress(c: int): nat
    requires -RECORDS_PER_SECTION < c < 0
  {
    PLAN_BASE + c * 148
  }

  /** It lies in the last payload's second section, and everything there is a slot of that payload. */
  lemma {:induction false} StrayLands(c: int)
    requires -RECORDS_PER_SECTION < c < 0
    ensures TruncDiv(c, 1771) == 0 && TruncMod(c, 1771) == c
    ensures SectionStart(15) <= StrayAddress(c) && StrayAddress(c) + RECORD <= PLAN_BASE
  {
    assert -c / 1771 == 0;
  }

  lemma {:induction false} SlotAt(b: nat) returns (k: nat)
    requires SectionStart(15) <= b < PLAN_BASE
    ensures k < Capacity(7) && SampleSize(7) == 16
    ensures SampleAddress(7, k) <= b < SampleAddress(7, k) + 16
  {
    var i := (b - SectionStart(15)) / 16;
    k := 16384 + i;
    assert PerSection(7) == 16384 && k / 16384 == 1 && k % 16384 == i;
  }

  lemma {:induction false} ByteOfSlot(img: seq<byte>, logs: seq<seq<Sample>>, k: nat, b: nat)
    requires HoldsLogs(img, logs) && k < Capacity(7) && SampleAddress(7, k) <= b < SampleAddress(7, k) + SampleSize(7)
    ensures b < |img| && |Slot(7, logs[7], k)| == SampleSize(7)
    ensures img[b] == Slot(7, logs[7], k)[b - SampleAddress(7, k)]
  {
    var lo := SampleAddress(7, k);
    assert HoldsLog(img, 7, logs[7]);
    assert Holds(img, lo, Slot(7, logs[7], k));
    assert img[b] == img[lo..lo + SampleSize(7)][b - lo];
  }

  /** A record written there on erased bytes is no part of any log: the logs are no longer held. */
  lemma {:induction false} StraySpoilsLogs(img: seq<byte>, logs: seq<seq<Sample>>, c: int, e: Entry)
    requires HoldsLogs(img, logs) && -RECORDS_PER_SECTION < c < 0 && IsErased(img, StrayAddress(c), RECORD)
    ensures !HoldsLogs(Splice(img, StrayAddress(c), Encode(e)), logs)
  {
    var at := StrayAddress(c);
    StrayLands(c);
    NeverBlank(e);
    var img' := Splice(img, at, Encode(e));
    assert img[at + 12] == ERASED && img'[at + 12] == 0;
    var k := SlotAt(at + 12);
    ByteOfSlot(img, logs, k, at + 12);
    if HoldsLogs(img', logs) {
      ByteOfSlot(img', logs, k, at + 12);
    }
  }

  /** For the unset counter, -1, it lies over slots 32758 to 32767 of payload 7. */
  lemma {:induction false} StraySlots()
    ensures StrayAddress(-1) == SampleAddress(7, 32758) + 12 && StrayAddress(-1) + RECORD == SampleAddress(7, 32767) + 16
    ensures SampleAddress(7, 32759) == StrayAddress(-1) + 4 && SampleSize(7) == 16 && Capacity(7) == 32768
  {
    assert PerSection(7) == 16384;
  }

  /** They are erased as long as its log is shorter. */
  lemma {:induction false} StrayErased(img: seq<byte>, logs: seq<seq<Sample>>)
    requires HoldsLogs(img, logs) && |logs[7]| <= 32758
    ensures IsErased(img, StrayAddress(-1), RECORD)
  {
    var at := StrayAddress(-1);
    StraySlots();
    forall b | at <= b < at + RECORD ensures img[b] == ERASED {
      var k := SlotAt(b);
      ByteOfSlot(img, logs, k, b);
      LaterSlot(k);
    }
  }

  lemma {:induction false} LaterSlot(k: nat)
    requires k < Capacity(7) && SampleAddress(7, k) + SampleSize(7) > StrayAddress(-1)
    ensures k >= 32758
  {
    StraySlots();
    if k < 32758 {
      SamplesInOrder(k);
    }
  }

  lemma {:induction false} SamplesInOrder(k: nat)
    requires k < 32758
    ensures SampleAddress(7, k) + 16 <= SampleAddress(7, 32758)
  {
    assert PerSection(7) == 16384;
    if k < 16384 {
      assert k / 16384 == 0 && k % 16384 == k;
    } else {
      assert k / 16384 == 1 && k % 16384 == k - 16384;
    }
  }

  /** So with the unset counter, set writes a record into those slots. Afterwards slot 32759 is not erased, so that
      adding sample 32759 will program bytes that are not; the logs are not held, and nothing was appended. */
  lemma {:induction false} UnsetCounterDamages(img: seq<byte>, logs: seq<seq<Sample>>, e: Entry)
    requires HoldsLogs(img, logs) && |logs[7]| <= 32758
    ensures IsErased(img, StrayAddress(-1), RECORD)
    ensures var img' := Splice(img, StrayAddress(-1), Encode(e));
      !IsErased(img', SampleAddress(7, 32759), SampleSize(7)) && !HoldsLogs(img', logs) && !Appends(img, img', e)
  {
    var at := StrayAddress(-1);
    StraySlots();
    StrayErased(img, logs);
    StraySpoilsLogs(img, logs, -1, e);
    NeverBlank(e);
    var img' := Splice(img, at, Encode(e));
    assert img'[at + 12] == 0;
    BelowNeverAppends(img, img', e);
  }

  /** The next slot of a log that is not full is erased, and outside the plan section. */
  lemma {:induction false} NextSlotErased(img: seq<byte>, p: nat, log: seq<Sample>)
    requires FitsChip(img) && p < PAYLOADS && HoldsLog(img, p, log) && |log| < Capacity(p)
    ensures SampleAddress(p, |log|) + SampleSize(p) <= PLAN_BASE
    ensures IsErased(img, SampleAddress(p, |log|), SampleSize(p))
  {
    SampleFitsSection(p, |log|);
    ErasedIsFill(img, SampleAddress(p, |log|), SampleSize(p));
  }

  /** Programming slot `n` of payload `p` leaves every other slot alone. */
  lemma {:induction false} OtherSlotKept(img: seq<byte>, p: nat, n: nat, d: Sample, q: nat, k: nat, b: Sample)
    requires p < PAYLOADS && n < Capacity(p) && |d| == SampleSize(p) && SampleAddress(p, n) + |d| <= |img|
    requires q < PAYLOADS && k < Capacity(q) && |b| == SampleSize(q) && Holds(img, SampleAddress(q, k), b)
    requires (p, n) != (q, k)
    ensures Holds(Splice(img, SampleAddress(p, n), d), SampleAddress(q, k), b)
  {
    SamplesDisjoint(p, n, q, k);
  }

  /** Programming the next slot of payload `p` appends to its log. */
  lemma {:induction false} AppendToLog(img: seq<byte>, p: nat, log: seq<Sample>, d: Sample)
    requires p < PAYLOADS && HoldsLog(img, p, log) && |log| < Capacity(p) && |d| == SampleSize(p)
    requires SampleAddress(p, |log|) + |d| <= |img|
    ensures HoldsLog(Splice(img, SampleAddress(p, |log|), d), p, log + [d])
  {
    var img', log' := Splice(img, SampleAddress(p, |log|), d), log + [d];
    forall k: nat | k < Capacity(p)
      ensures |Slot(p, log', k)| == SampleSize(p) && Holds(img', SampleAddress(p, k), Slot(p, log', k))
    {
      if k != |log| {
        OtherSlotKept(img, p, |log|, d, p, k, Slot(p, log, k));
      }
    }
  }

  /** Programming a slot of payload `p` leaves the log of another payload alone. */
  lemma {:induction false} OtherLogKept(img: seq<byte>, p: nat, n: nat, d: Sample, q: nat, log: seq<Sample>)
    requires p < PAYLOADS && n < Capacity(p) && |d| == SampleSize(p) && SampleAddress(p, n) + |d| <= |img|
    requires q < PAYLOADS && HoldsLog(img, q, log) && p != q
    ensures HoldsLog(Splice(img, SampleAddress(p, n), d), q, log)
  {
    forall k: nat | k < Capacity(q)
      ensures Holds(Splice(img, SampleAddress(p, n), d), SampleAddress(q, k), Slot(q, log, k))
    {
      OtherSlotKept(img, p, n, d, q, k, Slot(q, log, k));
    }
  }

  /** Programming the next free slot of one log appends there and changes no other log. */
  lemma {:induction false} AppendSample(img: seq<byte>, logs: seq<seq<Sample>>, p: nat, d: Sample)
    requires HoldsLogs(img, logs) && p < PAYLOADS && |logs[p]| < Capacity(p) && |d| == SampleSize(p)
    requires SampleAddress(p, |logs[p]|) + |d| <= |img|
    ensures HoldsLogs(Splice(img, SampleAddress(p, |logs[p]|), d), logs[p := logs[p] + [d]])
  {
    var logs' := logs[p := logs[p] + [d]];
    forall q: nat | q < PAYLOADS
      ensures HoldsLog(Splice(img, SampleAddress(p, |logs[p]|), d), q, logs'[q])
    {
      if q == p {
        AppendToLog(img, p, logs[p], d);
      } else {
        OtherLogKept(img, p, |logs[p]|, d, q, logs[q]);
      }
    }
  }

  /** Once every payload section is erased, all logs are empty. */
  lemma {:induction false} ErasedLogs(img: seq<byte>)
    requires FitsChip(img) && IsErased(img, 0, PLAN_BASE)
    ensures HoldsLogs(img, seq(PAYLOADS, _ => []))
  {
    forall p: nat, k: nat | p < PAYLOADS && k < Capacity(p)
      ensures Holds(img, SampleAddress(p, k), Fill(SampleSize(p)))
    {
      SampleFitsSection(p, k);
    }
  }
}
