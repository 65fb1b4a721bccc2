/** The telemetry commands of cmdTM.c on one node, and downloads with acknowledgement. */
module Downlink {
  import opened Bytes
  import opened FlashLayout
  import opened Storage
  import opened Telemetry

  const CMD_OK := 1
  const CMD_FAIL := 0

  /** `ack + k` computed in unsigned arithmetic, stored in an int, and cut at `index`. */
  function CutAt(ack: int32, k: u32, index: int): int {
    var des := WrapInt32(ack + k);
    if des > index then index else des
  }

  /** tm_set_ack keeps the acknowledged count between zero and the log length exactly when the
      sum does not run into the sign bit. */
  lemma {:induction false} AckInRange(ack: int32, k: u32, index: int32)
    requires 0 <= ack <= index
    ensures 0 <= CutAt(ack, k, index) <= index <==> (ack + k) % 0x1_0000_0000 < 0x8000_0000
    ensures ack + k < 0x8000_0000 ==> CutAt(ack, k, index) == if ack + k > index then index else ack + k
  {}

  /** The failing acknowledgement: half of all counts turn an empty count negative. */
  lemma {:induction false} AckTurnsNegative(index: int32)
    requires index >= 0
    ensures CutAt(0, 0x8000_0000, index) == -0x8000_0000
  {}

  /** `sent` is the end of `log`, fits one frame of 192 bytes, and is all of the log or as much as fits. */
  ghost predicate NewestThatFit(log: seq<Sample>, sent: seq<Sample>, size: nat) {
    && |sent| <= |log| && sent == log[|log| - |sent|..]
    && |sent| * size <= 192 && (sent == log || (|sent| + 1) * size > 192)
  }

  class Node {
    const store: Store
    var memAck: seq<int32>   // dat_mem_ack_temp .. dat_mem_ack_fod

    constructor (store: Store)
      requires store.Booted()
      ensures this.store == store && memAck == seq(PAYLOADS, _ => 0) && Valid() && AcksInRange()
    {
      this.store := store;
      memAck := seq(PAYLOADS, _ => 0);
    }

    ghost predicate Valid()
      reads this, store, store.flash.mem
    {
      store.Booted() && |memAck| == PAYLOADS
    }

    ghost predicate AcksInRange()
      requires Valid()
      reads this, store, store.flash.mem
    {
      forall p :: 0 <= p < PAYLOADS ==> 0 <= memAck[p] <= |store.logs[p]|
    }

    /** tm_send_last: the newest samples, as many as fit one frame. */
    method TmSendLast(p: nat) returns (rc: int, frames: seq<Frame>)
      requires Valid()
      ensures rc == if p < PAYLOADS && store.logs[p] != [] then CMD_OK else CMD_FAIL
      ensures rc == CMD_OK ==> |frames| == 1 && GoodFrames(frames, p)
      ensures rc == CMD_OK ==> NewestThatFit(store.logs[p], Payload(frames, p), SampleSize(p))
    {
      if p >= PAYLOADS {
        return CMD_FAIL, [];
      }
      var indexPay := store.memIndex[p];
      if indexPay < 1 {
        return CMD_FAIL, [];
      }
      var n := PerFrame(p);
      if n > indexPay {
        n := indexPay;
      }
      OneFrame(n, PerFrame(p));
      LogBounded(store, p);
      frames := SendLogged(indexPay - n, p);
      ProductStep(n - 1, PerFrame(p), SampleSize(p));
      rc := CMD_OK;
    }

    /** send_tel_from_to up to the newest sample, from one that exists: no junk can occur. */
    method SendLogged(from: nat, p: nat) returns (frames: seq<Frame>)
      requires Valid() && p < PAYLOADS && from <= |store.logs[p]| <= 0x1_0000
      ensures GoodFrames(frames, p) && Payload(frames, p) == store.logs[p][from..]
      ensures |frames| == FrameCount(|store.logs[p]| - from, PerFrame(p))
    {
      assert |store.logs| == PAYLOADS;
      hide HoldsLogs, HoldsBlocks, FrameCount;
      var junk: Junk := k => Zeros(p);
      frames := SendFromTo(store, from, store.memIndex[p], p, junk);
      WindowIsRange(store.logs[p], from, |store.logs[p]|, junk);
    }

    /** tm_send_all: everything not acknowledged. Whatever the count, unless the int arithmetic overflows. */
    method TmSendAll(p: nat, junk: Junk) returns (rc: int, frames: seq<Frame>, overflow: bool)
      requires Valid() && (p < PAYLOADS ==> IsJunk(junk, p))
      ensures rc == if p < PAYLOADS then CMD_OK else CMD_FAIL
      ensures overflow <==> p < PAYLOADS && !Fits32(|store.logs[p]|, memAck[p], |store.logs[p]|)
      ensures rc == CMD_OK && !overflow ==>
        GoodFrames(frames, p) && Payload(frames, p) == Window(store.logs[p], memAck[p], |store.logs[p]|, junk)
      ensures rc == CMD_OK && 0 <= memAck[p] <= |store.logs[p]| ==>
        !overflow && Payload(frames, p) == store.logs[p][memAck[p]..]
    {
      if p >= PAYLOADS {
        return CMD_FAIL, [], false;
      }
      rc, frames := CMD_OK, [];
      LogBounded(store, p);
      overflow := !Fits32(store.memIndex[p], memAck[p], store.memIndex[p]);
      if !overflow {
        frames := SendFromTo(store, memAck[p], store.memIndex[p], p, junk);
        if memAck[p] >= 0 {
          WindowIsRange(store.logs[p], memAck[p], |store.logs[p]|, junk);
        }
      }
    }

    /** tm_send_from: up to `samples` samples after the acknowledged ones. */
    method TmSendFrom(p: nat, samples: u32, junk: Junk) returns (rc: int, frames: seq<Frame>, overflow: bool)
      requires Valid() && (p < PAYLOADS ==> IsJunk(junk, p))
      ensures rc == if p < PAYLOADS && samples >= 1 then CMD_OK else CMD_FAIL
      ensures overflow <==> rc == CMD_OK && Overflows(|store.logs[p]|, memAck[p], samples)
      ensures rc == CMD_OK && !overflow ==> Sends(frames, p, Asked(store.logs[p], memAck[p], samples, junk))
      ensures rc == CMD_OK && 0 <= memAck[p] <= |store.logs[p]| && memAck[p] + samples < 0x8000_0000 ==>
        !overflow && Payload(frames, p) == FromOn(store.logs[p], memAck[p], samples)
    {
      if p >= PAYLOADS || samples < 1 {
        return CMD_FAIL, [], false;
      }
      rc, frames := CMD_OK, [];
      LogBounded(store, p);
      ghost var log := store.logs[p];
      if 0 <= memAck[p] <= |log| {
        AskedFrom(log, memAck[p], samples, junk);
      }
      hide FromOn, Sends, Window, CutAt, Store.PlanReady, HoldsLogs, HoldsBlocks;
      var des := CutAt(memAck[p], samples, store.memIndex[p]);
      overflow := !Fits32(store.memIndex[p], memAck[p], des);
      if !overflow {
        frames := SendFromTo(store, memAck[p], des, p, junk);
        TransferSends(frames, p, store.logs[p], memAck[p], des, junk);
      }
    }

    /** dat_delete_memory_sections empties the logs and leaves the acknowledged counts, so they
        stay in range exactly when they were all zero before. */
    method DeleteMemorySections(fpEnabled: bool)
      requires Valid()
      modifies this, store, store.flash.mem
      ensures Valid() && memAck == old(memAck) && store.plan == if fpEnabled then [] else old(store.plan)
      ensures AcksInRange() <==> forall p :: 0 <= p < PAYLOADS ==> old(memAck)[p] == 0
    {
      ResetStaysInside(store.fplQueue, store.flash.mem.Length);
      var _ := store.DeleteMemorySections(fpEnabled);
    }

    /** tm_set_ack. A count of -1 is taken for an unset one and rejected. */
    method TmSetAck(p: nat, samples: u32) returns (rc: int)
      requires Valid()
      modifies this
      ensures Valid()
      ensures rc == if p < PAYLOADS && samples >= 1 && old(memAck)[p] != -1 then CMD_OK else CMD_FAIL
      ensures rc == CMD_FAIL ==> memAck == old(memAck)
      ensures rc == CMD_OK ==> memAck == old(memAck)[p := CutAt(old(memAck)[p], samples, |store.logs[p]|)]
      ensures rc == CMD_OK && 0 <= old(memAck)[p] <= |store.logs[p]| && old(memAck)[p] + samples < 0x8000_0000 ==>
        memAck[p] == old(memAck)[p] + |FromOn(store.logs[p], old(memAck)[p], samples)|
    {
      if p >= PAYLOADS || samples < 1 {
        return CMD_FAIL;
      }
      var ack, index := memAck[p], store.memIndex[p];
      if ack == -1 || index == -1 {
        return CMD_FAIL;
      }
      LogBounded(store, p);
      memAck := memAck[p := CutAt(ack, samples, index)];
      rc := CMD_OK;
    }
  }

  /** A sample of zero bytes. */
  function Zeros(p: nat): (d: Sample)
    requires p < PAYLOADS
    ensures |d| == SampleSize(p)
  {
    seq(SampleSize(p), _ => 0)
  }

  /** The samples that tm_send_from asks for. */
  function Asked(log: seq<Sample>, ack: int32, samples: u32, junk: Junk): seq<Sample> {
    Window(log, ack, CutAt(ack, samples, |log|), junk)
  }

  /** The request's int arithmetic overflows, for a log of `n` samples. */
  predicate Overflows(n: nat, ack: int32, samples: u32) {
    !Fits32(n, ack, CutAt(ack, samples, n))
  }

  /** With a count in range, that is so exactly for requests that end behind the sign bit; the smallest instance is a
      request for 0x7FFF_FFFF samples after a single acknowledged one. */
  lemma {:induction false} OverflowsExactly(n: nat, ack: int32, samples: u32)
    requires 0 <= ack <= n <= 0x1_0000
    ensures Overflows(n, ack, samples) <==> 0x8000_0000 - ack <= samples < 0x8000_0000
    ensures n >= 1 ==> Overflows(n, 1, 0x7FFF_FFFF) && !Overflows(n, 0, 0x7FFF_FFFF)
  {
    CutExactly(n, ack, samples);
    if n >= 1 {
      CutExactly(n, 1, 0x7FFF_FFFF);
      CutExactly(n, 0, 0x7FFF_FFFF);
    }
  }

  lemma {:induction false} CutExactly(n: nat, ack: int32, samples: u32)
    requires 0 <= ack <= n <= 0x1_0000
    ensures CutAt(ack, samples, n) ==
      if ack + samples < 0x8000_0000 then if ack + samples > n then n else ack + samples
      else ack + samples - 0x1_0000_0000 - if ack + samples - 0x1_0000_0000 > n then ack + samples - 0x1_0000_0000 - n else 0
  {}

  /** The next `k` samples of a log, or all that are left. */
  function FromOn(log: seq<Sample>, from: nat, k: nat): seq<Sample>
    requires from <= |log|
  {
    if k < |log| - from then log[from..from + k] else log[from..]
  }

  lemma {:induction false} AskedFrom(log: seq<Sample>, ack: int32, samples: u32, junk: Junk)
    requires 0 <= ack <= |log| <= 0x1_0000
    ensures ack + samples < 0x8000_0000 ==>
      && !Overflows(|log|, ack, samples)
      && Asked(log, ack, samples, junk) == FromOn(log, ack, samples)
  {
    CutExactly(|log|, ack, samples);
    if ack + samples < 0x8000_0000 {
      WindowIsRange(log, ack, CutAt(ack, samples, |log|), junk);
    }
  }

  /** The frames are a numbered transfer of `range`. */
  ghost predicate Sends(frames: seq<Frame>, p: nat, range: seq<Sample>)
    requires p < PAYLOADS
  {
    && GoodFrames(frames, p) && Carries(frames, p, range) && Payload(frames, p) == range
    && (|frames| == FrameCount(|range|, PerFrame(p)) || (range == [] && |frames| == 1))
  }

  lemma {:induction false} TransferSends(frames: seq<Frame>, p: nat, log: seq<Sample>, from: int, des: int, junk: Junk)
    requires p < PAYLOADS && des <= |log| && GoodFrames(frames, p) && Carries(frames, p, Window(log, from, des, junk))
    requires Payload(frames, p) == Window(log, from, des, junk)
    requires if from <= des then |frames| == FrameCount(des - from, PerFrame(p)) else |frames| <= 1
    ensures Sends(frames, p, Window(log, from, des, junk))
  {}

  lemma {:induction false} OneFrame(n: nat, per: nat)
    requires 0 < n <= per
    ensures FrameCount(n, per) == 1
  {}

  // ------------------------------------------------------------------------------------
  // Lost frames.

  /** The frames that arrive, when those with an index in `kept` do. */
  function Received(frames: seq<Frame>, kept: set<nat>): (r: seq<Frame>)
    ensures |r| <= |frames|
  {
    if frames == [] then []
    else
      var n := |frames| - 1;
      Received(frames[..n], kept) + if n in kept then [frames[n]] else []
  }

  /** The samples of the first `n` parts, one part for each frame. */
  function Joined(parts: seq<seq<Sample>>, n: nat): seq<Sample>
    requires n <= |parts|
  {
    if n == 0 then [] else Joined(parts, n - 1) + parts[n - 1]
  }

  /** Those of them that arrive. */
  function Delivered(parts: seq<seq<Sample>>, kept: set<nat>, n: nat): seq<Sample>
    requires n <= |parts|
  {
    if n == 0 then [] else Delivered(parts, kept, n - 1) + if n - 1 in kept then parts[n - 1] else []
  }

  lemma {:induction false} ReceivedIsDelivered(frames: seq<Frame>, p: nat, parts: seq<seq<Sample>>, kept: set<nat>, n: nat)
    requires p < PAYLOADS && n <= |frames| == |parts|
    requires forall i :: 0 <= i < |frames| ==> Unpack(frames[i], p) == parts[i]
    ensures Payload(Received(frames[..n], kept), p) == Delivered(parts, kept, n)
  {
    if n > 0 {
      ReceivedIsDelivered(frames, p, parts, kept, n - 1);
      assert frames[..n][..n - 1] == frames[..n - 1];
      var before := Received(frames[..n - 1], kept);
      if n - 1 in kept {
        PayloadSnoc(before, frames[n - 1], p);
      } else {
        assert before + [] == before;
      }
    }
  }

  /** Of `n` frames, those that arrive come before those that do not. */
  ghost predicate NoGap(kept: set<nat>, n: nat) {
    forall i: nat, j: nat :: i < j < n && j in kept ==> i in kept
  }

  /** What ground can check: the frame numbers received count up from zero. */
  predicate CountsUp(received: seq<Frame>) {
    forall i :: 0 <= i < |received| ==> received[i].nframe == i
  }

  lemma {:induction false} ReceivesAll(frames: seq<Frame>, kept: set<nat>)
    ensures |Received(frames, kept)| == |frames| <==> forall i: nat :: i < |frames| ==> i in kept
  {
    if frames != [] {
      ReceivesAll(frames[..|frames| - 1], kept);
    }
  }

  /** Checking the frame numbers finds every gap. */
  lemma {:induction false} GroundSeesGaps(frames: seq<Frame>, p: nat, kept: set<nat>)
    requires p < PAYLOADS && GoodFrames(frames, p) && |frames| <= 0x1_0000
    ensures CountsUp(Received(frames, kept)) <==> NoGap(kept, |frames|)
  {
    if frames != [] {
      var n := |frames| - 1;
      var before := Received(frames[..n], kept);
      assert frames[n].nframe == n;
      GroundSeesGaps(frames[..n], p, kept);
      hide GoodFrames, CountsUp, NoGap;
      ReceivesAll(frames[..n], kept);
      CountsUpSnoc(before, frames[n]);
      NoGapSnoc(kept, n);
      assert n !in kept ==> Received(frames, kept) == before;
    }
  }

  lemma {:induction false} CountsUpSnoc(received: seq<Frame>, f: Frame)
    ensures CountsUp(received + [f]) <==> CountsUp(received) && f.nframe == |received|
  {
    var more := received + [f];
    assert forall i :: 0 <= i < |received| ==> more[i] == received[i];
    assert more[|received|] == f;
  }

  lemma {:induction false} NoGapSnoc(kept: set<nat>, n: nat)
    ensures NoGap(kept, n + 1) <==> NoGap(kept, n) && (n in kept ==> forall i: nat :: i < n ==> i in kept)
  {}

  /** One past the last frame that arrives. */
  function Leading(kept: set<nat>, n: nat): (m: nat)
    ensures m <= n
  {
    if n == 0 || n - 1 in kept then n else Leading(kept, n - 1)
  }

  /** Without a gap, what arrives is the start of what was sent. */
  lemma {:induction false} GaplessIsPrefix(parts: seq<seq<Sample>>, kept: set<nat>, n: nat)
    requires n <= |parts| && NoGap(kept, n)
    ensures Delivered(parts, kept, n) == Joined(parts, Leading(kept, n))
  {
    if n > 0 {
      GaplessIsPrefix(parts, kept, n - 1);
    }
  }

  lemma {:induction false} JoinedGrows(parts: seq<seq<Sample>>, m: nat, n: nat)
    requires m <= n <= |parts|
    ensures Joined(parts, m) <= Joined(parts, n)
  {
    if m < n {
      JoinedGrows(parts, m, n - 1);
    }
  }

  lemma {:induction false} DeliveredGrows(parts: seq<seq<Sample>>, kept: set<nat>, m: nat, n: nat)
    requires m <= n <= |parts|
    ensures Delivered(parts, kept, m) <= Delivered(parts, kept, n)
  {
    if m < n {
      DeliveredGrows(parts, kept, m, n - 1);
    }
  }

  /** Losses only shorten, and losing a part that holds something does. */
  lemma {:induction false} GapIsShort(parts: seq<seq<Sample>>, kept: set<nat>, i: nat, n: nat)
    requires i < |parts| && n <= |parts| && i !in kept && parts[i] != []
    ensures |Delivered(parts, kept, n)| <= |Joined(parts, n)| - if i < n then 1 else 0
  {
    if n > 0 {
      GapIsShort(parts, kept, i, n - 1);
    }
  }

  ghost predicate AllDifferent(s: seq<Sample>) {
    forall i, j :: 0 <= i < j < |s| ==> s[i] != s[j]
  }

  lemma {:induction false} Misplaced(range: seq<Sample>, got: seq<Sample>, x: nat, y: nat)
    requires x < y < |range| && x < |got| && got[x] == range[y] && AllDifferent(range)
    ensures !(got <= range)
  {}

  /** Behind a gap, samples arrive in the wrong place. */
  lemma {:induction false} GapMisplaces(parts: seq<seq<Sample>>, kept: set<nat>, i: nat, j: nat)
    requires i < j < |parts| && i !in kept && j in kept && parts[i] != [] && parts[j] != []
    requires AllDifferent(Joined(parts, |parts|))
    ensures !(Delivered(parts, kept, |parts|) <= Joined(parts, |parts|))
  {
    GapIsShort(parts, kept, i, j);
    DeliveredGrows(parts, kept, j + 1, |parts|);
    JoinedGrows(parts, j + 1, |parts|);
    var x, y := |Delivered(parts, kept, j)|, |Joined(parts, j)|;
    assert Delivered(parts, kept, j + 1)[x] == parts[j][0] == Joined(parts, j + 1)[y];
    Misplaced(Joined(parts, |parts|), Delivered(parts, kept, |parts|), x, y);
  }

  /** The parts into which send_tel_from_to cuts a range. */
  function Chunks(range: seq<Sample>, per: nat): (parts: seq<seq<Sample>>)
    requires per > 0
    ensures forall i :: 0 <= i < |parts| ==> parts[i] != []
    decreases |range|
  {
    if range == [] then []
    else if |range| <= per then [range]
    else [range[..per]] + Chunks(range[per..], per)
  }

  lemma {:induction false} JoinedCons(part: seq<Sample>, parts: seq<seq<Sample>>, n: nat)
    requires n <= |parts|
    ensures Joined([part] + parts, n + 1) == part + Joined(parts, n)
  {
    if n > 0 {
      JoinedCons(part, parts, n - 1);
      assert ([part] + parts)[n] == parts[n - 1];
    } else {
      assert Joined([part] + parts, 1) == Joined([part] + parts, 0) + part;
    }
  }

  lemma {:induction false} ChunksJoin(range: seq<Sample>, per: nat)
    requires per > 0
    ensures Joined(Chunks(range, per), |Chunks(range, per)|) == range
    decreases |range|
  {
    if |range| > per {
      ChunksJoin(range[per..], per);
      JoinedCons(range[..per], Chunks(range[per..], per), |Chunks(range[per..], per)|);
    } else if range != [] {
      JoinedCons(range, [], 0);
    }
  }

  lemma {:induction false} OneMoreFrame(n: nat, per: nat)
    requires per > 0
    ensures FrameCount(n + per, per) == FrameCount(n, per) + 1
  {
    var q, r := n / per, n % per;
    assert n + per == (q + 1) * per + r;
    QuotientIs(n + per, per, q + 1, r);
  }

  /** There is one part for each frame. */
  lemma {:induction false} ChunksCount(range: seq<Sample>, per: nat)
    requires per > 0
    ensures |Chunks(range, per)| == FrameCount(|range|, per)
    decreases |range|
  {
    if |range| > per {
      OneMoreFrame(|range| - per, per);
      ChunksCount(range[per..], per);
    } else if range != [] {
      OneFrame(|range|, per);
    }
  }

  lemma {:induction false} ChunkOfRest(range: seq<Sample>, base: nat, per: nat)
    requires per <= base <= |range|
    ensures Chunk(range[per..], base - per, per) == Chunk(range, base, per)
  {
    var rest := range[per..];
    if base + per <= |range| {
      assert rest[base - per..base] == range[base..base + per];
    } else {
      assert rest[base - per..] == range[base..];
    }
  }

  /** It stands at the frame's place in the range. */
  lemma {:induction false} ChunksAt(range: seq<Sample>, per: nat, i: nat, base: nat)
    requires per > 0 && i < |Chunks(range, per)| && base == i * per
    ensures base <= |range| && Chunks(range, per)[i] == Chunk(range, base, per)
    decreases |range|
  {
    if i > 0 {
      assert i * per == (i - 1) * per + per;
      ChunksAt(range[per..], per, i - 1, base - per);
      ChunkOfRest(range, base, per);
    } else {
      assert base == 0;
    }
  }

  /** The samples of a whole transfer that arrive. */
  function Arrival(range: seq<Sample>, per: nat, kept: set<nat>): seq<Sample>
    requires per > 0
  {
    Delivered(Chunks(range, per), kept, |Chunks(range, per)|)
  }

  /** No frame of a transfer is missing before one that arrives. */
  ghost predicate Gapless(range: seq<Sample>, per: nat, kept: set<nat>)
    requires per > 0
  {
    NoGap(kept, |Chunks(range, per)|)
  }

  /** What arrives is the start of what was sent if no frame is missing before one that arrives; and, when
      samples can be told apart, only then. */
  lemma {:induction false} PrefixExactly(range: seq<Sample>, per: nat, kept: set<nat>)
    requires per > 0
    ensures Gapless(range, per, kept) ==> Arrival(range, per, kept) <= range
    ensures AllDifferent(range) && Arrival(range, per, kept) <= range ==> Gapless(range, per, kept)
  {
    var parts := Chunks(range, per);
    ChunksJoin(range, per);
    if Gapless(range, per, kept) {
      GaplessIsPrefix(parts, kept, |parts|);
      JoinedGrows(parts, Leading(kept, |parts|), |parts|);
    } else if AllDifferent(range) {
      var i: nat, j: nat :| i < j < |parts| && j in kept && i !in kept;
      GapMisplaces(parts, kept, i, j);
    }
  }

  lemma {:induction false} NeverLonger(parts: seq<seq<Sample>>, kept: set<nat>, n: nat)
    requires n <= |parts|
    ensures |Delivered(parts, kept, n)| <= |Joined(parts, n)|
  {
    if n > 0 {
      NeverLonger(parts, kept, n - 1);
    }
  }

  lemma {:induction false} ArrivalFits(range: seq<Sample>, per: nat, kept: set<nat>)
    requires per > 0
    ensures |Arrival(range, per, kept)| <= |range|
  {
    ChunksJoin(range, per);
    NeverLonger(Chunks(range, per), kept, |Chunks(range, per)|);
  }

  /** The frames of a transfer carry its parts. */
  lemma {:induction false} PartsOfFrames(frames: seq<Frame>, p: nat, range: seq<Sample>)
    requires p < PAYLOADS && Sends(frames, p, range) && range != []
    ensures |frames| == |Chunks(range, PerFrame(p))|
    ensures forall i :: 0 <= i < |frames| ==> Unpack(frames[i], p) == Chunks(range, PerFrame(p))[i]
  {
    ChunksCount(range, PerFrame(p));
    forall i: nat | i < |frames| ensures Unpack(frames[i], p) == Chunks(range, PerFrame(p))[i] {
      PartOfFrame(frames, p, range, i);
    }
  }

  lemma {:induction false} PartOfFrame(frames: seq<Frame>, p: nat, range: seq<Sample>, i: nat)
    requires p < PAYLOADS && Carries(frames, p, range) && i < |frames| == |Chunks(range, PerFrame(p))|
    ensures Unpack(frames[i], p) == Chunks(range, PerFrame(p))[i]
  {
    ChunksAt(range, PerFrame(p), i, i * PerFrame(p));
  }

  /** So what ground receives and sees of them is as above. */
  lemma {:induction false} GroundReceives(frames: seq<Frame>, p: nat, range: seq<Sample>, kept: set<nat>)
    requires p < PAYLOADS && Sends(frames, p, range) && |range| <= 0x1_0000
    ensures Payload(Received(frames, kept), p) == Arrival(range, PerFrame(p), kept)
    ensures range != [] ==> (CountsUp(Received(frames, kept)) <==> Gapless(range, PerFrame(p), kept))
  {
    if range != [] {
      PartsOfFrames(frames, p, range);
      FewFrames(frames, p, range);
      ReceivedIsDelivered(frames, p, Chunks(range, PerFrame(p)), kept, |frames|);
      assert frames[..|frames|] == frames;
      GroundSeesGaps(frames, p, kept);
    } else {
      EmptyTransfer(frames, p, kept);
    }
  }

  lemma {:induction false} FewFrames(frames: seq<Frame>, p: nat, range: seq<Sample>)
    requires p < PAYLOADS && Sends(frames, p, range) && range != []
    ensures |frames| <= |range|
  {
    CountBounds(|range|, PerFrame(p));
  }

  lemma {:induction false} EmptyTransfer(frames: seq<Frame>, p: nat, kept: set<nat>)
    requires p < PAYLOADS && Sends(frames, p, [])
    ensures Payload(Received(frames, kept), p) == []
  {
    if |frames| == 1 {
      assert frames[..0] == [] && Received(frames[..0], kept) == [];
      PayloadSnoc([], frames[0], p);
      assert [] + [frames[0]] == frames;
    }
  }

  // ------------------------------------------------------------------------------------
  // A download session for one payload.

  /** `log` and `ack` are on board; ground holds the `batch` it received last and the
      `archive` of all batches it acknowledged. */
  datatype Session = Session(log: seq<Sample>, ack: int, batch: seq<Sample>, archive: seq<Sample>)

  datatype Step =
    | Measure(d: Sample)              // dat_add_payload_sample
    | Request(k: u32, kept: set<nat>) // tm_send_from with k samples; the frames in `kept` arrive
    | Confirm(times: nat)             // tm_set_ack with the number of samples received; it reaches the node `times` times

  /** The acknowledged count and the log are in range. */
  ghost predicate Sane(s: Session, p: nat)
    requires p < PAYLOADS
  {
    0 <= s.ack <= |s.log| <= Capacity(p) <= 0x1_0000 && |s.batch| <= |s.log|
  }

  /** Sample sizes that C types guarantee, and requests whose int arithmetic does not overflow. */
  predicate Possible(s: Session, step: Step, p: nat)
    requires p < PAYLOADS
  {
    match step
    case Measure(d) => |d| == SampleSize(p)
    case Request(k, _) => k < 1 || (-0x8000_0000 <= s.ack < 0x8000_0000 && !Overflows(|s.log|, s.ack, k))
    case Confirm(_) => true
  }

  /** The archive is the acknowledged prefix of the log. */
  ghost predicate Archived(s: Session) {
    0 <= s.ack <= |s.log| && s.archive == s.log[..s.ack]
  }

  /** It is, and the open batch comes right after it. */
  ghost predicate InStep(s: Session, p: nat)
    requires p < PAYLOADS
  {
    Sane(s, p) && Archived(s) && s.ack + |s.batch| <= |s.log| && s.batch == s.log[s.ack..s.ack + |s.batch|]
  }

  /** What a request asks for. */
  ghost function Wanted(s: Session, k: u32, p: nat): seq<Sample>
    requires p < PAYLOADS && Sane(s, p)
  {
    Range(s.log, s.ack, CutAt(s.ack, k, |s.log|))
  }

  /** The acknowledged count after `times` equal acknowledgements. */
  function AckTimes(ack: int32, k: u32, index: int32, times: nat): int32 {
    if times == 0 then ack else CutAt(AckTimes(ack, k, index, times - 1), k, index)
  }

  /** They never leave the range, and only one of them counts exactly when there is one, or when the first already
      reaches the end of the log. */
  lemma {:induction false} AckTimesInRange(ack: int32, k: u32, index: int32, times: nat)
    requires 0 <= ack && 0 < k && ack + k <= index <= 0x1_0000
    ensures 0 <= AckTimes(ack, k, index, times) <= index
    ensures times == 1 ==> AckTimes(ack, k, index, times) == ack + k
    ensures times > 1 ==> AckTimes(ack, k, index, times) >= if ack + k < index then ack + k + 1 else index
  {
    if times > 0 {
      AckTimesInRange(ack, k, index, times - 1);
      AckInRange(AckTimes(ack, k, index, times - 1), k, index);
    }
  }

  lemma {:induction false} AckTimesStays(ack: int32, k: u32, index: int32, times: nat)
    requires 0 <= ack <= index <= 0x1_0000 && k <= 0x1_0000
    ensures 0 <= AckTimes(ack, k, index, times) <= index
  {
    if times > 0 {
      AckTimesStays(ack, k, index, times - 1);
      AckInRange(AckTimes(ack, k, index, times - 1), k, index);
    }
  }

  /** Ground keeps a batch only if its frame numbers show no gap, and archives it when it confirms it. */
  ghost function NextSession(s: Session, step: Step, p: nat): Session
    requires p < PAYLOADS && Sane(s, p)
  {
    match step
    case Measure(d) => if |s.log| < Capacity(p) then s.(log := s.log + [d]) else s
    case Request(k, kept) =>
      var range := Wanted(s, k, p);
      if k < 1 then s
      else s.(batch := if Gapless(range, PerFrame(p), kept) then Arrival(range, PerFrame(p), kept) else [])
    case Confirm(times) =>
      if s.batch == [] then s
      else s.(ack := AckTimes(s.ack, |s.batch|, |s.log|, times), batch := [], archive := s.archive + s.batch)
  }

  lemma {:induction false} StepSane(s: Session, step: Step, p: nat)
    requires p < PAYLOADS && Sane(s, p)
    ensures Sane(NextSession(s, step, p), p)
  {
    match step
    case Measure(d) =>
    case Request(k, kept) =>
      if k >= 1 {
        ArrivalFits(Wanted(s, k, p), PerFrame(p), kept);
      }
    case Confirm(times) =>
      AckTimesStays(s.ack, |s.batch|, |s.log|, times);
  }

  lemma {:induction false} MeasureInStep(s: Session, d: Sample, p: nat)
    requires p < PAYLOADS && InStep(s, p) && |s.log| < Capacity(p)
    ensures InStep(s.(log := s.log + [d]), p)
  {}

  lemma {:induction false} BatchInStep(s: Session, des: int, batch: seq<Sample>, p: nat)
    requires p < PAYLOADS && InStep(s, p) && des <= |s.log| && batch <= Range(s.log, s.ack, des)
    ensures InStep(s.(batch := batch), p)
  {}

  /** A confirmation of something reaches the node once; or more than once, when the batch ends at the end of the log. */
  predicate Harmless(s: Session, step: Step) {
    step.Confirm? ==> s.batch == [] || step.times == 1 || (step.times > 1 && s.ack + |s.batch| == |s.log|)
  }

  /** The archive stays the acknowledged prefix over a confirmation exactly when it is harmless. */
  lemma {:induction false} ConfirmExactly(s: Session, times: nat, p: nat)
    requires p < PAYLOADS && InStep(s, p)
    ensures Archived(NextSession(s, Confirm(times), p)) <==> Harmless(s, Confirm(times))
    ensures Harmless(s, Confirm(times)) ==> InStep(NextSession(s, Confirm(times), p), p)
  {
    if s.batch != [] {
      AckTimesInRange(s.ack, |s.batch|, |s.log|, times);
      assert s.archive + s.batch == s.log[..s.ack + |s.batch|];
    }
  }

  /** Measuring, requesting with lost frames, and harmless confirmations keep archive and batch in step. */
  lemma {:induction false} StepInStep(s: Session, step: Step, p: nat)
    requires p < PAYLOADS && InStep(s, p) && Harmless(s, step)
    ensures InStep(NextSession(s, step, p), p)
  {
    match step
    case Measure(d) => if |s.log| < Capacity(p) { MeasureInStep(s, d, p); }
    case Request(k, kept) =>
      if k >= 1 {
        PrefixExactly(Wanted(s, k, p), PerFrame(p), kept);
        BatchInStep(s, CutAt(s.ack, k, |s.log|), NextSession(s, step, p).batch, p);
      }
    case Confirm(times) =>
      ConfirmExactly(s, times, p);
  }

  /** Were ground to acknowledge whatever arrives, its archive would stay the acknowledged prefix, for samples that
      can be told apart, if and only if no frame is missing before one that arrives. */
  lemma {:induction false} ArchiveNeedsNoGap(s: Session, k: u32, kept: set<nat>, p: nat)
    requires p < PAYLOADS && InStep(s, p) && AllDifferent(s.log)
    ensures var range := Wanted(s, k, p);
      var got := Arrival(range, PerFrame(p), kept);
      && s.ack + |got| <= |s.log|
      && (s.archive + got == s.log[..s.ack + |got|] <==> Gapless(range, PerFrame(p), kept))
  {
    var range := Wanted(s, k, p);
    var got := Arrival(range, PerFrame(p), kept);
    ArrivalFits(range, PerFrame(p), kept);
    PrefixExactly(range, PerFrame(p), kept);
    PrefixJoins(s.log, s.ack, CutAt(s.ack, k, |s.log|), got);
  }

  lemma {:induction false} PrefixJoins(log: seq<Sample>, ack: nat, des: int, got: seq<Sample>)
    requires ack <= |log| && des <= |log| && |got| <= |Range(log, ack, des)|
    ensures log[..ack] + got == log[..ack + |got|] <==> got <= Range(log, ack, des)
    ensures AllDifferent(log) ==> AllDifferent(Range(log, ack, des))
  {
    var end, range := ack + |got|, Range(log, ack, des);
    assert range[..|got|] == log[ack..end];
    assert log[..end] == log[..ack] + log[ack..end];
    if log[..ack] + got == log[..end] {
      assert got == log[..end][ack..];
    }
  }

  ghost function SessionRun(s: Session, steps: seq<Step>, p: nat): (s': Session)
    requires p < PAYLOADS && Sane(s, p)
    ensures Sane(s', p)
    decreases steps
  {
    if steps == [] then s
    else
      StepSane(s, steps[0], p);
      SessionRun(NextSession(s, steps[0], p), steps[1..], p)
  }

  /** Every confirmation of a run is harmless at its moment. */
  ghost predicate AllHarmless(s: Session, steps: seq<Step>, p: nat)
    requires p < PAYLOADS && Sane(s, p)
    decreases steps
  {
    steps == [] ||
    (Harmless(s, steps[0]) && (StepSane(s, steps[0], p); AllHarmless(NextSession(s, steps[0], p), steps[1..], p)))
  }

  /** The archive is the acknowledged prefix before and after every step. */
  ghost predicate AlwaysArchived(s: Session, steps: seq<Step>, p: nat)
    requires p < PAYLOADS && Sane(s, p)
  {
    forall n :: 0 <= n <= |steps| ==> Archived(SessionRun(s, steps[..n], p))
  }

  lemma {:induction false} RunFirst(s: Session, steps: seq<Step>, p: nat, n: nat)
    requires p < PAYLOADS && Sane(s, p) && 0 < n <= |steps|
    ensures Sane(NextSession(s, steps[0], p), p)
    ensures SessionRun(s, steps[..n], p) == SessionRun(NextSession(s, steps[0], p), steps[1..][..n - 1], p)
  {
    StepSane(s, steps[0], p);
    assert steps[..n][1..] == steps[1..][..n - 1];
  }

  /** Over any run of measurements, requests and confirmations, with frames lost, requests repeated or overlapping,
      and confirmations lost or repeated as they may: ground's archive always is the acknowledged part of the log, without
      gap or duplicate, if and only if every confirmation is harmless. */
  lemma {:induction false} ArchivedExactly(s: Session, steps: seq<Step>, p: nat)
    requires p < PAYLOADS && InStep(s, p)
    ensures AlwaysArchived(s, steps, p) <==> AllHarmless(s, steps, p)
    ensures AllHarmless(s, steps, p) ==> InStep(SessionRun(s, steps, p), p)
    decreases steps
  {
    if steps == [] {
      assert forall n :: 0 <= n <= |steps| ==> steps[..n] == [];
    } else if Harmless(s, steps[0]) {
      StepInStep(s, steps[0], p);
      var next := NextSession(s, steps[0], p);
      ArchivedExactly(next, steps[1..], p);
      AlwaysFrom(s, steps, p);
    } else {
      ConfirmExactly(s, steps[0].times, p);
      RunFirst(s, steps, p, 1);
      assert !Archived(SessionRun(s, steps[..1], p));
    }
  }

  lemma {:induction false} AlwaysFrom(s: Session, steps: seq<Step>, p: nat)
    requires p < PAYLOADS && Sane(s, p) && Archived(s) && steps != [] && Sane(NextSession(s, steps[0], p), p)
    ensures AlwaysArchived(s, steps, p) <==> AlwaysArchived(NextSession(s, steps[0], p), steps[1..], p)
  {
    var next := NextSession(s, steps[0], p);
    if AlwaysArchived(s, steps, p) {
      forall n | 0 <= n <= |steps[1..]| ensures Archived(SessionRun(next, steps[1..][..n], p)) {
        RunFirst(s, steps, p, n + 1);
        assert Archived(SessionRun(s, steps[..n + 1], p));
      }
    }
    if AlwaysArchived(next, steps[1..], p) {
      forall n | 0 <= n <= |steps| ensures Archived(SessionRun(s, steps[..n], p)) {
        if n > 0 {
          RunFirst(s, steps, p, n);
          assert Archived(SessionRun(next, steps[1..][..n - 1], p));
        } else {
          assert steps[..0] == [];
        }
      }
    }
  }

  /** From the start of a session with harmless confirmations, ground archives the log from its start without
      gap or duplicate. */
  lemma {:induction false} NoGapNoDuplicate(log: seq<Sample>, steps: seq<Step>, p: nat)
    requires p < PAYLOADS && |log| <= Capacity(p)
    ensures InStep(Session(log, 0, [], []), p)
    ensures AllHarmless(Session(log, 0, [], []), steps, p) ==>
      var s := SessionRun(Session(log, 0, [], []), steps, p);
      0 <= s.ack <= |s.log| && s.archive == s.log[..s.ack] && log <= s.log
  {
    ArchivedExactly(Session(log, 0, [], []), steps, p);
    LogOnlyGrows(Session(log, 0, [], []), steps, p);
  }

  lemma {:induction false} LogOnlyGrows(s: Session, steps: seq<Step>, p: nat)
    requires p < PAYLOADS && Sane(s, p)
    ensures s.log <= SessionRun(s, steps, p).log
    decreases steps
  {
    if steps != [] {
      StepSane(s, steps[0], p);
      LogOnlyGrows(NextSession(s, steps[0], p), steps[1..], p);
    }
  }

  /** A lost confirmation: the same request brings the same batch again, and ground archives it twice. */
  lemma {:induction false} LostConfirmDuplicates(s: Session, k: u32, kept: set<nat>, p: nat)
    requires p < PAYLOADS && InStep(s, p) && s.batch != [] && k >= 1
    requires s.batch == NextSession(s, Request(k, kept), p).batch
    ensures var lost := NextSession(s, Confirm(0), p);
      && Sane(lost, p) && Sane(NextSession(lost, Request(k, kept), p), p)
      && NextSession(NextSession(lost, Request(k, kept), p), Confirm(1), p).archive == s.archive + s.batch + s.batch
  {
    var lost := NextSession(s, Confirm(0), p);
    StepSane(s, Confirm(0), p);
    StepSane(lost, Request(k, kept), p);
    assert Wanted(lost, k, p) == Wanted(s, k, p);
  }

  /** A repeated one: the count runs ahead of the archive, and the samples in between are never sent again. */
  lemma {:induction false} RepeatedConfirmSkips(s: Session, k: u32, p: nat)
    requires p < PAYLOADS && InStep(s, p) && s.batch != [] && s.ack + 2 * |s.batch| <= |s.log|
    ensures var next := NextSession(s, Confirm(2), p);
      && Sane(next, p) && next.archive == s.log[..s.ack + |s.batch|]
      && Wanted(next, k, p) == Range(s.log, s.ack + 2 * |s.batch|, CutAt(s.ack + 2 * |s.batch|, k, |s.log|))
  {
    hide Range;
    var n := |s.batch|;
    StepSane(s, Confirm(2), p);
    AckInRange(s.ack, n, |s.log|);
    AckInRange(s.ack + n, n, |s.log|);
    assert AckTimes(s.ack, n, |s.log|, 1) == CutAt(AckTimes(s.ack, n, |s.log|, 0), n, |s.log|) == s.ack + n;
    assert AckTimes(s.ack, n, |s.log|, 2) == s.ack + 2 * n;
    assert s.archive + s.batch == s.log[..s.ack + n];
  }

  // ------------------------------------------------------------------------------------
  // The session on a node.

  ghost function SessionOf(node: Node, p: nat, batch: seq<Sample>, archive: seq<Sample>): Session
    requires node.Valid() && p < PAYLOADS
    reads node, node.store, node.store.flash.mem
  {
    Session(node.store.logs[p], node.memAck[p], batch, archive)
  }

  /** tm_send_from on board; ground keeps what it received if the frame numbers count up. */
  method RequestBatch(node: Node, p: nat, k: u32, kept: set<nat>, batch: seq<Sample>, junk: Junk)
    returns (batch': seq<Sample>)
    requires node.Valid() && p < PAYLOADS && IsJunk(junk, p)
    requires 0 <= node.memAck[p] <= |node.store.logs[p]| <= 0x1_0000
    requires k < 1 || !Overflows(|node.store.logs[p]|, node.memAck[p], k)
    ensures k < 1 ==> batch' == batch
    ensures k >= 1 ==>
      var range := Range(node.store.logs[p], node.memAck[p], CutAt(node.memAck[p], k, |node.store.logs[p]|));
      batch' == if Gapless(range, PerFrame(p), kept) then Arrival(range, PerFrame(p), kept) else []
  {
    var rc, frames, _ := node.TmSendFrom(p, k, junk);
    if rc != CMD_OK {
      return batch;
    }
    var received := Received(frames, kept);
    batch' := if CountsUp(received) then Payload(received, p) else [];
    ghost var ack, log := node.memAck[p], node.store.logs[p];
    WindowIsRange(log, ack, CutAt(ack, k, |log|), junk);
    GroundReceives(frames, p, Range(log, ack, CutAt(ack, k, |log|)), kept);
  }

  /** tm_set_ack, reaching the node `times` times. */
  method SetAckTimes(node: Node, p: nat, k: u32, times: nat)
    requires node.Valid() && p < PAYLOADS && 1 <= k <= 0x1_0000
    requires 0 <= node.memAck[p] <= |node.store.logs[p]| <= 0x1_0000
    modifies node
    ensures node.Valid()
    ensures node.memAck == old(node.memAck)[p := AckTimes(old(node.memAck)[p], k, |node.store.logs[p]|, times)]
  {
    ghost var acks := node.memAck;
    for i := 0 to times
      invariant node.Valid()
      invariant node.memAck == acks[p := AckTimes(acks[p], k, |node.store.logs[p]|, i)]
    {
      AckTimesStays(acks[p], k, |node.store.logs[p]|, i);
      var _ := node.TmSetAck(p, k);
    }
  }

  /** One step of a session on a node. */
  method PerformStep(node: Node, p: nat, step: Step, batch: seq<Sample>, archive: seq<Sample>, junk: Junk)
    returns (batch': seq<Sample>, archive': seq<Sample>)
    requires node.Valid() && p < PAYLOADS && IsJunk(junk, p)
    requires Sane(SessionOf(node, p, batch, archive), p) && Possible(SessionOf(node, p, batch, archive), step, p)
    modifies node, node.store, node.store.flash.mem
    ensures node.Valid()
    ensures SessionOf(node, p, batch', archive') == NextSession(old(SessionOf(node, p, batch, archive)), step, p)
  {
    batch', archive' := batch, archive;
    match step
    case Measure(d) => var _, _ := node.store.AddSample(p, d);
    case Request(k, kept) => batch' := RequestBatch(node, p, k, kept, batch, junk);
    case Confirm(times) =>
      if batch != [] {
        SetAckTimes(node, p, |batch|, times);
        batch', archive' := [], archive + batch;
      }
  }

  /** Every step of a run is possible at its moment. */
  ghost predicate AllPossible(s: Session, steps: seq<Step>, p: nat)
    requires p < PAYLOADS
    decreases steps
  {
    steps == [] || (Sane(s, p) && Possible(s, steps[0], p) && AllPossible(NextSession(s, steps[0], p), steps[1..], p))
  }

  /** Any run of a session, made of the node's own commands and of frames and commands sent through a lossy link, ends
      as the model says: by `ArchivedExactly`, without gap or duplicate if and only if confirmations are harmless. */
  method RunSession(node: Node, p: nat, steps: seq<Step>, junk: Junk) returns (batch: seq<Sample>, archive: seq<Sample>)
    requires node.Valid() && p < PAYLOADS && node.memAck[p] == 0 && IsJunk(junk, p)
    requires AllPossible(SessionOf(node, p, [], []), steps, p)
    modifies node, node.store, node.store.flash.mem
    ensures node.Valid() && InStep(old(SessionOf(node, p, [], [])), p)
    ensures SessionOf(node, p, batch, archive) == SessionRun(old(SessionOf(node, p, [], [])), steps, p)
    ensures AllHarmless(old(SessionOf(node, p, [], [])), steps, p) ==> archive == node.store.logs[p][..node.memAck[p]]
  {
    batch, archive := [], [];
    LogBounded(node.store, p);
    ghost var start := SessionOf(node, p, [], []);
    for i := 0 to |steps|
      invariant node.Valid() && Sane(SessionOf(node, p, batch, archive), p)
      invariant AllPossible(SessionOf(node, p, batch, archive), steps[i..], p)
      invariant SessionRun(SessionOf(node, p, batch, archive), steps[i..], p) == SessionRun(start, steps, p)
    {
      StepSane(SessionOf(node, p, batch, archive), steps[i], p);
      batch, archive := PerformStep(node, p, steps[i], batch, archive, junk);
    }
    ArchivedExactly(start, steps, p);
  }
}
