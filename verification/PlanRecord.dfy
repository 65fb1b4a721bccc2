/** Flight plan entries and their 148-byte flash record:
    time, executions, period, name length, args length (five words), then the name and
    the arguments in two 64-byte fields whose unused bytes stay erased. */
module PlanRecord {
  import opened Bytes

  /** SCH_CMD_MAX_STR_NAME and SCH_CMD_MAX_STR_PARAMS */
  const FIELD := 64

  /** max_command_size */
  const RECORD := 2 * FIELD + 4 + 16

  datatype EntryData = Entry(time: int32, name: seq<byte>, args: seq<byte>, executions: int32, period: int32)

  type Entry = e: EntryData | |e.name| <= FIELD && |e.args| <= FIELD
    witness EntryData.Entry(0, [], [], 0, 0)

  /** The fields of `numbers_container_t`. */
  function Numbers(e: Entry): (b: seq<byte>)
    ensures |b| == 16
  {
    WordBytes(ToU32(e.executions)) + WordBytes(ToU32(e.period)) + WordBytes(|e.name|) + WordBytes(|e.args|)
  }

  function Encode(e: Entry): (b: seq<byte>)
    ensures |b| == RECORD
  {
    WordBytes(ToU32(e.time)) + Numbers(e)
    + (e.name + Fill(FIELD - |e.name|)) + (e.args + Fill(FIELD - |e.args|))
  }

  function NameLength(b: seq<byte>): u32 requires |b| == RECORD { WordAt(b[12..16]) }

  function ArgsLength(b: seq<byte>): u32 requires |b| == RECORD { WordAt(b[16..20]) }

  predicate Decodable(b: seq<byte>) {
    |b| == RECORD && NameLength(b) <= FIELD && ArgsLength(b) <= FIELD
  }

  function Decode(b: seq<byte>): Entry
    requires Decodable(b)
  {
    EntryData.Entry(ToInt32(WordAt(b[0..4])), b[20..20 + NameLength(b)], b[84..84 + ArgsLength(b)],
                    ToInt32(WordAt(b[4..8])), ToInt32(WordAt(b[8..12])))
  }

  /** Where the fields stand in a record. */
  lemma {:induction false} FieldsOf(e: Entry)
    ensures Encode(e)[0..4] == WordBytes(ToU32(e.time)) && Encode(e)[4..20] == Numbers(e)
    ensures Encode(e)[20..20 + |e.name|] == e.name && Encode(e)[84..84 + |e.args|] == e.args
  {}

  /** What the words of the numbers are. */
  lemma {:induction false} NumbersOf(e: Entry)
    ensures var n := Numbers(e);
      && WordAt(n[0..4]) == ToU32(e.executions) && WordAt(n[4..8]) == ToU32(e.period)
      && WordAt(n[8..12]) == |e.name| && WordAt(n[12..16]) == |e.args|
  {
    var n := Numbers(e);
    assert n[0..4] == WordBytes(ToU32(e.executions)) && n[4..8] == WordBytes(ToU32(e.period));
    assert n[8..12] == WordBytes(|e.name|) && n[12..16] == WordBytes(|e.args|);
    WordRoundTrip(ToU32(e.executions));
    WordRoundTrip(ToU32(e.period));
    WordRoundTrip(|e.name|);
    WordRoundTrip(|e.args|);
  }

  /** Part of a part is a part. */
  lemma {:induction false} SliceOfSlice(b: seq<byte>, lo: nat, hi: nat, x: nat, y: nat)
    requires lo <= hi <= |b| && x <= y <= hi - lo
    ensures b[lo..hi][x..y] == b[lo + x..lo + y]
  {
    var part := b[lo..hi];
    forall k | 0 <= k < y - x ensures part[x..y][k] == b[lo + x..lo + y][k] {
      assert part[x + k] == b[lo + (x + k)];
    }
  }

  /** A record read back is the entry that was written, byte for byte. */
  lemma {:induction false} RecordRoundTrip(e: Entry)
    ensures Decodable(Encode(e)) && Decode(Encode(e)) == e
  {
    var b := Encode(e);
    FieldsOf(e);
    NumbersOf(e);
    WordRoundTrip(ToU32(e.time));
    SliceOfSlice(b, 4, 20, 0, 4);
    SliceOfSlice(b, 4, 20, 4, 8);
    SliceOfSlice(b, 4, 20, 8, 12);
    SliceOfSlice(b, 4, 20, 12, 16);
  }

  /** Four writes at offsets 0, 4, 20 and 84 of an erased record, the last two shorter than
      their fields, build one 148-byte block. */
  lemma {:induction false} FourWritesMakeRecord(m: seq<byte>, at: nat, t: seq<byte>, n: seq<byte>, name: seq<byte>, args: seq<byte>)
    requires at + RECORD <= |m| && IsErased(m, at, RECORD)
    requires |t| == 4 && |n| == 16 && |name| <= FIELD && |args| <= FIELD
    ensures
      var m1 := Splice(m, at, t);
      var m2 := Splice(m1, at + 4, n);
      var m3 := Splice(m2, at + 20, name);
      && IsErased(m1, at + 4, 16) && IsErased(m2, at + 20, |name|) && IsErased(m3, at + 84, |args|)
      && Splice(m3, at + 84, args)
         == Splice(m, at, t + n + (name + Fill(FIELD - |name|)) + (args + Fill(FIELD - |args|)))
  {
    var m1 := Splice(m, at, t);
    var m2 := Splice(m1, at + 4, n);
    SpliceAdjacent(m, at, t, n);
    var m3 := Splice(m2, at + 20, name);
    SpliceGap(m2, at + 20, name, FIELD - |name|);
    SpliceAdjacent(m, at, t + n, name + Fill(FIELD - |name|));
    SpliceGap(m3, at + 84, args, FIELD - |args|);
  }

  /** Nothing but the record at `at` differs. */
  ghost predicate OnlyRecord(m: seq<byte>, m': seq<byte>, at: nat) {
    && at + RECORD <= |m| == |m'|
    && forall k :: 0 <= k < at || at + RECORD <= k < |m| ==> m'[k] == m[k]
  }

  /** The four driver writes of storage_flight_plan_set, whatever bytes they meet, reach nothing outside the record;
      on an erased record they keep the NOR discipline and make it the encoded entry. */
  lemma {:induction false} FourDriverWrites(m0: seq<byte>, m1: seq<byte>, m2: seq<byte>, m3: seq<byte>, m4: seq<byte>, at: nat, e: Entry)
    requires at + RECORD <= |m0|
    requires Written(m0, m1, at, WordBytes(ToU32(e.time))) && Written(m1, m2, at + 4, Numbers(e))
    requires Written(m2, m3, at + 20, e.name) && Written(m3, m4, at + 84, e.args)
    ensures OnlyRecord(m0, m4, at)
    ensures IsErased(m0, at, RECORD) ==>
      && IsErased(m1, at + 4, 16) && IsErased(m2, at + 20, |e.name|) && IsErased(m3, at + 84, |e.args|)
      && m4 == Splice(m0, at, Encode(e))
  {
    if IsErased(m0, at, RECORD) {
      FourWritesMakeRecord(m0, at, WordBytes(ToU32(e.time)), Numbers(e), e.name, e.args);
      WrittenOnErased(m0, m1, at, WordBytes(ToU32(e.time)));
      WrittenOnErased(m1, m2, at + 4, Numbers(e));
      WrittenOnErased(m2, m3, at + 20, e.name);
      WrittenOnErased(m3, m4, at + 84, e.args);
    }
  }

  /** The first byte of the name length is zero, so no record looks erased. */
  lemma {:induction false} NeverBlank(e: Entry)
    ensures Encode(e)[12] == 0
  {
    assert Encode(e)[12] == Numbers(e)[8] == WordBytes(|e.name|)[0];
  }
}
