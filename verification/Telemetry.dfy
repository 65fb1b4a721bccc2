/** Telemetry: send_tel_from_to packs logged samples into frames, com_receive_tm unpacks a frame
    into the receiver's log, and tm_set_ack keeps track of what ground has. */
module Telemetry {
  import opened Bytes
  import opened FlashLayout
  import opened Storage

  /** COM_FRAME_MAX_LEN */
  const FRAME_DATA := 192

  /** TM_TYPE_STATUS */
  const TYPE_STATUS := 1

  /** TM_TYPE_PAYLOAD */
  const TYPE_PAYLOAD := 10

  /** com_frame_t; nframe and kind are 16 bits wide, ndata 32. */
  datatype Frame = Frame(nframe: nat, kind: nat, ndata: u32, data: seq<byte>)

  /** structs_per_frame */
  function PerFrame(p: nat): (n: nat)
    requires p < PAYLOADS
    ensures 4 <= n <= 24 && n * SampleSize(p) <= FRAME_DATA < (n + 1) * SampleSize(p)
  {
    FRAME_DATA / SampleSize(p)
  }

  /** The frame count of send_tel_from_to; C division truncates towards zero. */
  function FrameCount(n: int, per: nat): int
    requires per > 0
  {
    if n >= 0 then n / per + (if n % per != 0 then 1 else 0)
    else -(-n / per) + (if -n % per != 0 then 1 else 0)
  }

  predicate FitsFrame(f: Frame, p: nat)
    requires p < PAYLOADS
  {
    |f.data| == FRAME_DATA && f.ndata * SampleSize(p) <= FRAME_DATA
  }

  /** Sample `j` of the data field. */
  function SampleAt(data: seq<byte>, p: nat, j: nat): Sample
    requires p < PAYLOADS
  {
    var lo := j * SampleSize(p);
    if lo + SampleSize(p) <= |data| then data[lo..lo + SampleSize(p)] else []
  }

  /** The samples a frame holds. */
  function Unpack(f: Frame, p: nat): (s: seq<Sample>)
    requires p < PAYLOADS
    ensures |s| == f.ndata
  {
    seq(f.ndata, j requires 0 <= j < f.ndata => SampleAt(f.data, p, j))
  }

  /** Samples one behind the other, as bytes. */
  function Flat(samples: seq<Sample>): seq<byte> {
    if samples == [] then [] else Flat(samples[..|samples| - 1]) + samples[|samples| - 1]
  }

  lemma {:induction false} FlatSnoc(samples: seq<Sample>, n: nat)
    requires n < |samples|
    ensures Flat(samples[..n + 1]) == Flat(samples[..n]) + samples[n]
  {
    assert samples[..n + 1][..n] == samples[..n];
  }

  lemma {:induction false} OneMore(k: nat, size: nat)
    ensures 0 <= k * size && (k + 1) * size == k * size + size
  {}

  lemma {:induction false} BytesSnoc(data: seq<byte>, a: nat, b: nat)
    requires a <= b <= |data|
    ensures data[..a] + data[a..b] == data[..b]
  {}

  /** The bytes of a frame are its samples one behind the other. */
  lemma {:induction false} FrameBytes(f: Frame, p: nat, n: nat)
    requires p < PAYLOADS && FitsFrame(f, p) && n <= f.ndata
    ensures n * SampleSize(p) <= FRAME_DATA && Flat(Unpack(f, p)[..n]) == f.data[..n * SampleSize(p)]
  {
    var size := SampleSize(p);
    if n < f.ndata { ProductStep(n, f.ndata, size); }
    if n > 0 {
      var k := n - 1;
      FrameBytes(f, p, k);
      FlatSnoc(Unpack(f, p), k);
      OneMore(k, size);
      BytesSnoc(f.data, k * size, n * size);
    }
  }

  /** The samples of a sequence of frames, in order. */
  function Payload(frames: seq<Frame>, p: nat): seq<Sample>
    requires p < PAYLOADS
  {
    if frames == [] then [] else Payload(frames[..|frames| - 1], p) + Unpack(frames[|frames| - 1], p)
  }

  /** Writing sample `j` leaves the earlier ones as they are. */
  lemma {:induction false} PackSample(data: seq<byte>, p: nat, j: nat, d: Sample)
    requires p < PAYLOADS && |data| == FRAME_DATA && j < PerFrame(p) && |d| == SampleSize(p)
    ensures var at := j * SampleSize(p);
      && at + |d| <= |data| && SampleAt(Splice(data, at, d), p, j) == d
      && forall k: nat :: k < j ==> SampleAt(Splice(data, at, d), p, k) == SampleAt(data, p, k)
  {
    var at, size := j * SampleSize(p), SampleSize(p);
    ProductStep(j, PerFrame(p), size);
    BlockWritten(data, at, d);
    forall k: nat | k < j ensures SampleAt(Splice(data, at, d), p, k) == SampleAt(data, p, k) {
      ProductStep(k, j, size);
      BlockKept(data, at, d, k * size, size);
    }
  }

  lemma {:induction false} BlockWritten(data: seq<byte>, at: nat, d: seq<byte>)
    requires at + |d| <= |data|
    ensures Splice(data, at, d)[at..at + |d|] == d
  {}

  lemma {:induction false} BlockKept(data: seq<byte>, at: nat, d: seq<byte>, lo: nat, n: nat)
    requires at + |d| <= |data| && lo + n <= at
    ensures Splice(data, at, d)[lo..lo + n] == data[lo..lo + n]
  {}

  /** The part of `s` that frame `i` of `per`-sample frames carries. */
  function Chunk(s: seq<Sample>, base: nat, per: nat): seq<Sample>
    requires base <= |s|
  {
    if base + per <= |s| then s[base..base + per] else s[base..]
  }

  /** The samples a request for `from..des` asks for. */
  function Range(log: seq<Sample>, from: nat, des: int): seq<Sample>
    requires des <= |log|
  {
    if from <= des then log[from..des] else []
  }

  /** The bytes of the local sample buffer when the sample at an index below zero could not be fetched. */
  type Junk = int -> Sample

  ghost predicate IsJunk(junk: Junk, p: nat)
    requires p < PAYLOADS
  {
    forall k :: |junk(k)| == SampleSize(p)
  }

  /** What a request for `from..des` sends: the logged samples, and junk for indices below zero. */
  function Window(log: seq<Sample>, from: int, des: int, junk: Junk): (s: seq<Sample>)
    requires des <= |log|
    ensures |s| == if from < des then des - from else 0
  {
    if from >= des then []
    else seq(des - from, k requires 0 <= k < des - from => if from + k >= 0 then log[from + k] else junk(from + k))
  }

  /** For indices that exist, that is the range asked for. */
  lemma {:induction false} WindowIsRange(log: seq<Sample>, from: nat, des: int, junk: Junk)
    requires des <= |log|
    ensures Window(log, from, des, junk) == Range(log, from, des)
  {
    if from < des {
      forall k | 0 <= k < des - from ensures Window(log, from, des, junk)[k] == log[from..des][k] {
      }
    }
  }

  /** The int arithmetic of send_tel_from_to does not overflow for a log of `n` samples: neither the number of samples nor,
      if there are any, the distance of the first one from the newest. */
  predicate Fits32(n: nat, from: int, des: int) {
    -0x8000_0000 <= des - from && (from < des ==> n - from < 0x8000_0000)
  }

  /** A sample fetched by its distance from the newest one. */
  method Fetch(store: Store, p: nat, delay: int32, junk: Junk) returns (d: Sample)
    requires store.Booted() && p < PAYLOADS && 0 <= delay && IsJunk(junk, p)
    ensures |d| == SampleSize(p)
    ensures var k := |store.logs[p]| - 1 - delay; d == if k >= 0 then store.logs[p][k] else junk(k)
  {
    var r, _ := store.RecentSample(p, delay);
    if r.Sampled? {
      d := r.d;
    } else {
      d := junk(store.memIndex[p] - 1 - delay);
    }
  }

  /** A frame buffer still as memset left it, from `at` on. */
  ghost predicate ZeroFrom(data: seq<byte>, at: int) {
    forall k: nat :: at <= k < |data| ==> data[k] == 0
  }

  /** The inner loop of send_tel_from_to: one frame, starting at sample `base` of the range. */
  method PackFrame(store: Store, from: int32, des: int32, p: nat, i: nat, base: nat, junk: Junk) returns (f: Frame)
    requires store.Booted() && p < PAYLOADS && des <= |store.logs[p]| && IsJunk(junk, p)
    requires Fits32(|store.logs[p]|, from, des) && (base < des - from || (des < from && base == 0))
    ensures f.nframe == i % 0x1_0000 && f.kind == TYPE_PAYLOAD + p && FitsFrame(f, p)
    ensures Unpack(f, p) == Chunk(Window(store.logs[p], from, des, junk), base, PerFrame(p))
    ensures ZeroFrom(f.data, f.ndata * SampleSize(p))
  {
    assert |store.logs| == PAYLOADS;
    hide Store.PlanReady, HoldsLogs, HoldsBlocks, Unpack, Chunk, Packed;
    var n, per := des - from, PerFrame(p);
    var indexPay := store.memIndex[p];
    ghost var range := Window(store.logs[p], from, des, junk);
    var data := seq(FRAME_DATA, _ => 0);
    NothingPacked(data, p, range, base);
    var ndata := per;
    var j := 0;
    while j < per
      invariant 0 <= j <= per && base + j <= |range| && |data| == FRAME_DATA && ndata == per
      invariant Packed(data, p, j, range, base)
      invariant ZeroFrom(data, j * SampleSize(p))
    {
      if base + j >= n {
        ndata := j;
        break;
      }
      var buff := Fetch(store, p, n + (indexPay - des) - (base + j + 1), junk);
      data := CopySample(data, p, j, buff, range, base);
      j := j + 1;
    }
    f := Frame(i % 0x1_0000, TYPE_PAYLOAD + p, ndata, data);
    PackedChunk(f, p, range, base);
  }

  /** memcpy of one sample into the frame buffer */
  method CopySample(data: seq<byte>, p: nat, j: nat, d: Sample, ghost range: seq<Sample>, ghost base: nat) returns (data': seq<byte>)
    requires p < PAYLOADS && |data| == FRAME_DATA && j < PerFrame(p) && |d| == SampleSize(p)
    requires Packed(data, p, j, range, base) && base + j < |range| && range[base + j] == d
    ensures |data'| == FRAME_DATA && Packed(data', p, j + 1, range, base)
    ensures ZeroFrom(data, j * SampleSize(p)) ==> ZeroFrom(data', (j + 1) * SampleSize(p))
  {
    PackSample(data, p, j, d);
    OneMore(j, SampleSize(p));
    data' := Splice(data, j * SampleSize(p), d);
    forall k: nat | k < j + 1 ensures SampleAt(data', p, k) == range[base + k] {
      if k < j {
        assert SampleAt(data', p, k) == SampleAt(data, p, k);
      }
    }
  }

  /** The first `j` samples of `data` are those of `range` from `base` on. */
  ghost predicate Packed(data: seq<byte>, p: nat, j: nat, range: seq<Sample>, base: nat)
    requires p < PAYLOADS
  {
    base + j <= |range| && forall k: nat :: k < j ==> SampleAt(data, p, k) == range[base + k]
  }

  lemma {:induction false} NothingPacked(data: seq<byte>, p: nat, range: seq<Sample>, base: nat)
    requires p < PAYLOADS && base <= |range|
    ensures Packed(data, p, 0, range, base)
  {}

  lemma {:induction false} PackedChunk(f: Frame, p: nat, range: seq<Sample>, base: nat)
    requires p < PAYLOADS && Packed(f.data, p, f.ndata, range, base)
    requires f.ndata == PerFrame(p) || (f.ndata < PerFrame(p) && base + f.ndata == |range|)
    ensures f.ndata * SampleSize(p) <= FRAME_DATA
    ensures Unpack(f, p) == Chunk(range, base, PerFrame(p))
  {}

  /** Every frame of a transfer: numbered from zero in 16 bits, of this payload's type, and with its
      samples inside its data field. */
  ghost predicate GoodFrames(frames: seq<Frame>, p: nat)
    requires p < PAYLOADS
  {
    forall i :: 0 <= i < |frames| ==>
      frames[i].nframe == i % 0x1_0000 && frames[i].kind == TYPE_PAYLOAD + p && FitsFrame(frames[i], p)
  }

  /** Frame by frame, the transfer carries `range`. */
  ghost predicate Carries(frames: seq<Frame>, p: nat, range: seq<Sample>)
    requires p < PAYLOADS
  {
    forall i :: 0 <= i < |frames| ==>
      i * PerFrame(p) <= |range| && Unpack(frames[i], p) == Chunk(range, i * PerFrame(p), PerFrame(p))
  }

  /** The frame loop of send_tel_from_to for a range of logged samples. */
  method SendFrames(store: Store, from: int32, des: int32, p: nat, junk: Junk) returns (frames: seq<Frame>)
    requires store.Booted() && p < PAYLOADS && from <= des <= |store.logs[p]| && IsJunk(junk, p)
    requires Fits32(|store.logs[p]|, from, des)
    ensures Payload(frames, p) == Window(store.logs[p], from, des, junk)
    ensures GoodFrames(frames, p) && Carries(frames, p, Window(store.logs[p], from, des, junk))
    ensures |frames| == FrameCount(des - from, PerFrame(p))
  {
    assert |store.logs| == PAYLOADS;
    hide HoldsLogs, HoldsBlocks, FrameCount, Window, Unpack;
    var per := PerFrame(p);
    var count := FrameCount(des - from, per);
    CountBounds(des - from, per);
    ghost var range := Window(store.logs[p], from, des, junk);
    frames := [];
    for i := 0 to count
      invariant |frames| == i && GoodFrames(frames, p) && Carries(frames, p, range)
    {
      frames := SendFrame(store, from, des, p, i, frames, junk);
    }
    CarriesAll(frames, p, range);
  }

  /** One turn of the frame loop. */
  method SendFrame(store: Store, from: int32, des: int32, p: nat, i: nat, frames: seq<Frame>, junk: Junk)
    returns (frames': seq<Frame>)
    requires store.Booted() && p < PAYLOADS && from <= des <= |store.logs[p]| && IsJunk(junk, p)
    requires Fits32(|store.logs[p]|, from, des) && i == |frames| < FrameCount(des - from, PerFrame(p))
    requires GoodFrames(frames, p) && Carries(frames, p, Window(store.logs[p], from, des, junk))
    ensures |frames'| == i + 1 && GoodFrames(frames', p) && Carries(frames', p, Window(store.logs[p], from, des, junk))
  {
    assert |store.logs| == PAYLOADS;
    CountReach(des - from, PerFrame(p), i);
    hide Store.PlanReady, HoldsLogs, HoldsBlocks, FrameCount, Window, Unpack, GoodFrames, Carries;
    var f := PackFrame(store, from, des, p, i, i * PerFrame(p), junk);
    FrameAdded(frames, f, p, Window(store.logs[p], from, des, junk));
    frames' := frames + [f];
  }

  lemma {:induction false} FrameAdded(frames: seq<Frame>, f: Frame, p: nat, range: seq<Sample>)
    requires p < PAYLOADS && GoodFrames(frames, p) && Carries(frames, p, range) && |frames| * PerFrame(p) <= |range|
    requires f.nframe == |frames| % 0x1_0000 && f.kind == TYPE_PAYLOAD + p && FitsFrame(f, p)
    requires Unpack(f, p) == Chunk(range, |frames| * PerFrame(p), PerFrame(p))
    ensures GoodFrames(frames + [f], p) && Carries(frames + [f], p, range)
  {
    CarriesNext(frames, f, p, range);
    hide Carries;
  }

  lemma {:induction false} CarriesNext(frames: seq<Frame>, f: Frame, p: nat, range: seq<Sample>)
    requires p < PAYLOADS && Carries(frames, p, range) && |frames| * PerFrame(p) <= |range|
    requires Unpack(f, p) == Chunk(range, |frames| * PerFrame(p), PerFrame(p))
    ensures Carries(frames + [f], p, range)
  {}

  /** All frames together carry the whole range. */
  lemma {:induction false} CarriesAll(frames: seq<Frame>, p: nat, range: seq<Sample>)
    requires p < PAYLOADS && Carries(frames, p, range) && |frames| == FrameCount(|range|, PerFrame(p))
    ensures Payload(frames, p) == range
  {
    CarriesPrefix(frames, p, range, |frames|);
    assert frames[..|frames|] == frames && range[..|range|] == range;
  }

  lemma {:induction false} CarriesAt(frames: seq<Frame>, p: nat, range: seq<Sample>, k: nat)
    requires p < PAYLOADS && Carries(frames, p, range) && k < |frames|
    ensures 0 <= k * PerFrame(p) <= |range| && Unpack(frames[k], p) == Chunk(range, k * PerFrame(p), PerFrame(p))
  {}

  lemma {:induction false} CarriesPrefix(frames: seq<Frame>, p: nat, range: seq<Sample>, i: nat)
    requires p < PAYLOADS && Carries(frames, p, range) && i <= |frames| == FrameCount(|range|, PerFrame(p))
    ensures Payload(frames[..i], p) == range[..Reached(|range|, PerFrame(p), i)]
  {
    if i > 0 {
      CarriesAt(frames, p, range, i - 1);
      hide Unpack, FrameCount, Carries, Chunk, PerFrame, Reached, Payload;
      CarriesPrefix(frames, p, range, i - 1);
      assert frames[..i] == frames[..i - 1] + [frames[i - 1]];
      NextChunk(frames[..i - 1], frames[i - 1], p, range, i - 1);
    }
  }

  /** send_tel_from_to. A range that ends before it starts carries nothing, in at most one empty frame. */
  method SendFromTo(store: Store, from: int32, des: int32, p: nat, junk: Junk) returns (frames: seq<Frame>)
    requires store.Booted() && p < PAYLOADS && des <= |store.logs[p]| && IsJunk(junk, p)
    requires Fits32(|store.logs[p]|, from, des)
    ensures Payload(frames, p) == Window(store.logs[p], from, des, junk)
    ensures GoodFrames(frames, p) && Carries(frames, p, Window(store.logs[p], from, des, junk))
    ensures from <= des ==> |frames| == FrameCount(des - from, PerFrame(p))
    ensures des < from ==> |frames| == if from - des < PerFrame(p) then 1 else 0
  {
    if from <= des {
      frames := SendFrames(store, from, des, p, junk);
    } else {
      frames := SendReversed(store, from, des, p, junk);
    }
  }

  /** The frame loop for a range that ends before it starts: C division rounds the count towards zero, so that it
      runs at most once, for an empty frame. */
  method SendReversed(store: Store, from: int32, des: int32, p: nat, junk: Junk) returns (frames: seq<Frame>)
    requires store.Booted() && p < PAYLOADS && des < from && des <= |store.logs[p]| && IsJunk(junk, p)
    requires Fits32(|store.logs[p]|, from, des)
    ensures Payload(frames, p) == [] && GoodFrames(frames, p) && Carries(frames, p, [])
    ensures |frames| == if from - des < PerFrame(p) then 1 else 0
  {
    frames := [];
    NegativeCount(from - des, PerFrame(p));
    if FrameCount(des - from, PerFrame(p)) > 0 {
      var f := PackFrame(store, from, des, p, 0, 0, junk);
      EmptyFrame(f, p);
      frames := [f];
    }
  }

  lemma {:induction false} EmptyFrame(f: Frame, p: nat)
    requires p < PAYLOADS && Unpack(f, p) == Chunk([], 0, PerFrame(p))
    ensures Payload([f], p) == [] && Carries([f], p, [])
  {
    PayloadSnoc([], f, p);
    assert [] + [f] == [f];
    assert 0 * PerFrame(p) == 0;
  }

  lemma {:induction false} SmallQuotient(n: nat, per: nat)
    requires per > 0
    ensures if n < per then n / per == 0 && n % per == n else n / per >= 1
  {}

  lemma {:induction false} NegativeCount(n: nat, per: nat)
    requires n > 0 && per > 0
    ensures FrameCount(0 - n, per) <= 1 && (FrameCount(0 - n, per) == 1 <==> n < per)
  {
    SmallQuotient(n, per);
  }

  /** How many samples `i` frames have taken. */
  function Reached(n: nat, per: nat, i: nat): (r: nat)
    requires per > 0
    ensures r <= n
  {
    if i < FrameCount(n, per) && i * per <= n then i * per else n
  }

  lemma {:induction false} NextChunk(frames: seq<Frame>, f: Frame, p: nat, range: seq<Sample>, i: nat)
    requires p < PAYLOADS && i < FrameCount(|range|, PerFrame(p))
    requires Payload(frames, p) == range[..Reached(|range|, PerFrame(p), i)]
    requires i * PerFrame(p) <= |range| && Unpack(f, p) == Chunk(range, i * PerFrame(p), PerFrame(p))
    ensures Payload(frames + [f], p) == range[..Reached(|range|, PerFrame(p), i + 1)]
  {
    CountReach(|range|, PerFrame(p), i);
    Rejoin(range, i * PerFrame(p), Reached(|range|, PerFrame(p), i + 1));
  }

  lemma {:induction false} Rejoin(s: seq<Sample>, a: nat, b: nat)
    requires a <= b <= |s|
    ensures s[..a] + s[a..b] == s[..b] && s[b..] == s[b..|s|]
  {}

  lemma {:induction false} PayloadSnoc(frames: seq<Frame>, f: Frame, p: nat)
    requires p < PAYLOADS
    ensures Payload(frames + [f], p) == Payload(frames, p) + Unpack(f, p)
  {}

  /** A log never has more samples than fit its sections, so frame numbers never wrap. */
  lemma {:induction false} LogBounded(store: Store, p: nat)
    requires store.Booted() && p < PAYLOADS
    ensures |store.logs[p]| <= Capacity(p) <= 0x1_0000
  {}

  /** The frame count is the ceiling. */
  lemma {:induction false} CountBounds(n: nat, per: nat)
    requires per > 0
    ensures 0 <= FrameCount(n, per) <= n
    ensures n > 0 ==> (FrameCount(n, per) - 1) * per < n <= FrameCount(n, per) * per
  {
    var q, r := n / per, n % per;
    assert n == q * per + r;
    if q > 0 { ProductStep(0, per, q); assert q <= per * q; }
  }

  /** Frame `i` starts inside the range, and only the last frame reaches its end. */
  lemma {:induction false} CountReach(n: nat, per: nat, i: nat)
    requires per > 0 && i < FrameCount(n, per)
    ensures 0 <= i * per < n
    ensures i + 1 < FrameCount(n, per) ==> i * per + per == (i + 1) * per < n
    ensures i + 1 == FrameCount(n, per) ==> n <= i * per + per
  {
    var c := FrameCount(n, per);
    if i + 1 < c { ProductStep(i + 1, c, per); }
  }

  // ------------------------------------------------------------------------------------
  // The receiver.

  /** A log of capacity `cap` after adding `samples` one by one: what does not fit is dropped. */
  function Extended(log: seq<Sample>, samples: seq<Sample>, cap: nat): seq<Sample>
    requires |log| <= cap
  {
    if |log| + |samples| <= cap then log + samples else log + samples[..cap - |log|]
  }

  lemma {:induction false} ExtendedSnoc(log: seq<Sample>, samples: seq<Sample>, d: Sample, cap: nat)
    requires |log| <= cap
    ensures var l := Extended(log, samples, cap);
      Extended(log, samples + [d], cap) == if |l| < cap then l + [d] else l
  {}

  /** The storing loop of com_receive_tm. */
  method StoreFrame(store: Store, f: Frame, p: nat)
    requires store.Booted() && p < PAYLOADS && f.kind == TYPE_PAYLOAD + p && FitsFrame(f, p)
    modifies store, store.flash.mem
    ensures store.Booted() && store.plan == old(store.plan) && store.fplQueue == old(store.fplQueue)
    ensures GrownBy(old(store.logs), store.logs, p, Unpack(f, p))
  {
    ghost var logs, samples := store.logs, Unpack(f, p);
    NothingGained(store, p);
    for j := 0 to f.ndata
      invariant store.Booted() && store.plan == old(store.plan) && store.fplQueue == old(store.fplQueue)
      invariant GrownBy(logs, store.logs, p, samples[..j])
    {
      var delay := j * SampleSize(p);
      ProductStep(j, f.ndata, SampleSize(p));
      AddOne(store, p, f.data[delay..delay + SampleSize(p)], logs, samples[..j]);
      assert samples[..j] + [samples[j]] == samples[..j + 1];
    }
    assert samples[..f.ndata] == samples;
  }

  lemma {:induction false} NothingGained(store: Store, p: nat)
    requires store.Booted() && p < PAYLOADS
    ensures GrownBy(store.logs, store.logs, p, [])
  {
    LogBounded(store, p);
    assert store.logs[p] + [] == store.logs[p];
  }

  /** What com_receive_tm does with a frame: a failed length assertion aborts, and a count whose 32-bit
      product with the sample size wraps can pass it and then makes the loop read behind the data field. */
  datatype Received = Stored | StatusQueued | Undefined | Aborted | OverRead

  predicate IsPayload(f: Frame) {
    TYPE_PAYLOAD <= f.kind < TYPE_PAYLOAD + PAYLOADS
  }

  /** The length that the assertion of com_receive_tm computes. */
  function AssertedLength(f: Frame, p: nat): u32
    requires p < PAYLOADS
  {
    f.ndata * SampleSize(p) % 0x1_0000_0000
  }

  /** com_receive_tm. On an over-read, `behind` is what the loop goes on to find behind the frame's data field, as far
      as it gets. */
  method ReceiveTm(store: Store, f: Frame, behind: seq<Sample>) returns (r: Received)
    requires store.Booted() && |f.data| == FRAME_DATA
    requires IsPayload(f) ==> AllSizedAs(behind, f.kind - TYPE_PAYLOAD)
    modifies store, store.flash.mem
    ensures store.Booted() && store.plan == old(store.plan) && store.fplQueue == old(store.fplQueue)
    ensures r.Stored? <==> IsPayload(f) && FitsFrame(f, f.kind - TYPE_PAYLOAD)
    ensures r.Aborted? <==> IsPayload(f) && AssertedLength(f, f.kind - TYPE_PAYLOAD) > FRAME_DATA
    ensures r.OverRead? <==> && IsPayload(f) && !FitsFrame(f, f.kind - TYPE_PAYLOAD)
                             && AssertedLength(f, f.kind - TYPE_PAYLOAD) <= FRAME_DATA
    ensures r.StatusQueued? <==> f.kind == TYPE_STATUS
    ensures !r.Stored? && !r.OverRead? ==> store.logs == old(store.logs)
    ensures r.Stored? ==> GrownBy(old(store.logs), store.logs, f.kind - TYPE_PAYLOAD, Unpack(f, f.kind - TYPE_PAYLOAD))
    ensures r.OverRead? ==> var p := f.kind - TYPE_PAYLOAD;
      GrownBy(old(store.logs), store.logs, p, Unpack(f.(ndata := PerFrame(p)), p) + behind)
  {
    if f.kind == TYPE_STATUS {
      r := StatusQueued;
    } else if IsPayload(f) {
      var p := f.kind - TYPE_PAYLOAD;
      if f.ndata * SampleSize(p) % 0x1_0000_0000 > FRAME_DATA {
        r := Aborted;
      } else if f.ndata * SampleSize(p) > FRAME_DATA {
        StoreBehind(store, f.(ndata := PerFrame(p)), p, behind);
        r := OverRead;
      } else {
        StoreFrame(store, f, p);
        r := Stored;
      }
    } else {
      r := Undefined;
    }
  }

  ghost predicate AllSizedAs(samples: seq<Sample>, p: nat)
    requires p < PAYLOADS
  {
    forall i :: 0 <= i < |samples| ==> |samples[i]| == SampleSize(p)
  }

  /** The log of payload `p` gained `samples`, as far as there is room, and no other log changed. */
  ghost predicate GrownBy(logs: seq<seq<Sample>>, logs': seq<seq<Sample>>, p: nat, samples: seq<Sample>)
    requires p < PAYLOADS
  {
    && |logs| == PAYLOADS && |logs[p]| <= Capacity(p)
    && logs' == logs[p := Extended(logs[p], samples, Capacity(p))]
  }

  /** An over-long frame: after its own samples, the loop stores what it finds behind them. */
  method StoreBehind(store: Store, f: Frame, p: nat, behind: seq<Sample>)
    requires store.Booted() && p < PAYLOADS && f.kind == TYPE_PAYLOAD + p && FitsFrame(f, p) && AllSizedAs(behind, p)
    modifies store, store.flash.mem
    ensures store.Booted() && store.plan == old(store.plan) && store.fplQueue == old(store.fplQueue)
    ensures GrownBy(old(store.logs), store.logs, p, Unpack(f, p) + behind)
  {
    ghost var logs, samples := store.logs, Unpack(f, p);
    StoreFrame(store, f, p);
    assert samples + behind[..0] == samples;
    for j := 0 to |behind|
      invariant store.Booted() && store.plan == old(store.plan) && store.fplQueue == old(store.fplQueue)
      invariant GrownBy(logs, store.logs, p, samples + behind[..j])
    {
      AddOne(store, p, behind[j], logs, samples + behind[..j]);
      assert samples + behind[..j] + [behind[j]] == samples + behind[..j + 1];
    }
    assert behind[..|behind|] == behind;
  }

  /** One more sample for a log that has already gained `samples`. */
  method AddOne(store: Store, p: nat, d: Sample, ghost logs: seq<seq<Sample>>, ghost samples: seq<Sample>)
    requires store.Booted() && p < PAYLOADS && |d| == SampleSize(p) && GrownBy(logs, store.logs, p, samples)
    modifies store, store.flash.mem
    ensures store.Booted() && store.plan == old(store.plan) && store.fplQueue == old(store.fplQueue)
    ensures GrownBy(logs, store.logs, p, samples + [d])
  {
    ExtendedSnoc(logs[p], samples, d, Capacity(p));
    var _, _ := store.AddSample(p, d);
  }

  /** So the new log starts with the frame's own samples. */
  lemma {:induction false} OwnSamplesFirst(log: seq<Sample>, own: seq<Sample>, behind: seq<Sample>, cap: nat)
    requires |log| <= cap
    ensures Extended(log, own, cap) <= Extended(log, own + behind, cap)
  {}

  /** For each payload some over-long count passes the length assertion; 0x1000_0000 samples of 16 bytes
      wrap to nothing at all. */
  lemma {:induction false} WrappedCountPasses(f: Frame, p: nat)
    requires p < PAYLOADS && f.ndata == 0x1_0000_0000 / SampleSize(p) + 1
    ensures f.ndata * SampleSize(p) > FRAME_DATA && AssertedLength(f, p) <= FRAME_DATA
    ensures 0x1000_0000 * SampleSize(0) % 0x1_0000_0000 == 0
  {}

  /** com_receive_tm on a frame of a transfer. */
  method ReceiveGood(store: Store, f: Frame, p: nat)
    requires store.Booted() && p < PAYLOADS && f.kind == TYPE_PAYLOAD + p && FitsFrame(f, p)
    modifies store, store.flash.mem
    ensures store.Booted() && store.plan == old(store.plan) && store.fplQueue == old(store.fplQueue)
    ensures GrownBy(old(store.logs), store.logs, p, Unpack(f, p))
  {
    var _ := ReceiveTm(store, f, []);
  }

  /** Ground receives the frames of one transfer in order. */
  method ReceiveAll(store: Store, frames: seq<Frame>, p: nat)
    requires store.Booted() && p < PAYLOADS && GoodFrames(frames, p)
    modifies store, store.flash.mem
    ensures store.Booted() && store.plan == old(store.plan) && store.fplQueue == old(store.fplQueue)
    ensures GrownBy(old(store.logs), store.logs, p, Payload(frames, p))
  {
    ghost var logs := store.logs;
    NothingGained(store, p);
    for i := 0 to |frames|
      invariant store.Booted() && store.plan == old(store.plan) && store.fplQueue == old(store.fplQueue)
      invariant GrownBy(logs, store.logs, p, Payload(frames[..i], p))
    {
      ghost var before := store.logs;
      ReceiveGood(store, frames[i], p);
      GrownTwice(logs, before, store.logs, p, Payload(frames[..i], p), Unpack(frames[i], p));
      PayloadNext(frames, p, i);
    }
    assert frames[..|frames|] == frames;
  }

  lemma {:induction false} PayloadNext(frames: seq<Frame>, p: nat, i: nat)
    requires p < PAYLOADS && i < |frames|
    ensures Payload(frames[..i + 1], p) == Payload(frames[..i], p) + Unpack(frames[i], p)
  {
    assert frames[..i + 1] == frames[..i] + [frames[i]];
    PayloadSnoc(frames[..i], frames[i], p);
  }

  /** Gaining twice is gaining both. */
  lemma {:induction false} GrownTwice(logs: seq<seq<Sample>>, logs': seq<seq<Sample>>, logs'': seq<seq<Sample>>,
                                      p: nat, a: seq<Sample>, b: seq<Sample>)
    requires p < PAYLOADS && GrownBy(logs, logs', p, a) && GrownBy(logs', logs'', p, b)
    ensures GrownBy(logs, logs'', p, a + b)
  {
    ExtendedTwice(logs[p], a, b, Capacity(p));
    assert logs'' == logs[p := logs''[p]];
  }

  lemma {:induction false} ExtendedTwice(log: seq<Sample>, a: seq<Sample>, b: seq<Sample>, cap: nat)
    requires |log| <= cap
    ensures |Extended(log, a, cap)| <= cap
    ensures Extended(Extended(log, a, cap), b, cap) == Extended(log, a + b, cap)
  {}

  /** Round trip between two nodes: the receiver's log grows by exactly the requested samples,
      in order, when it has room for them; nothing else changes on either side. */
  method Transfer(sender: Store, receiver: Store, from: int32, des: int32, p: nat, junk: Junk)
    requires sender.Booted() && receiver.Booted() && sender != receiver && sender.flash.mem != receiver.flash.mem
    requires p < PAYLOADS && des <= |sender.logs[p]| && IsJunk(junk, p) && Fits32(|sender.logs[p]|, from, des)
    modifies receiver, receiver.flash.mem
    ensures sender.Booted() && receiver.Booted()
    ensures receiver.plan == old(receiver.plan) && receiver.fplQueue == old(receiver.fplQueue)
    ensures var sent := Window(sender.logs[p], from, des, junk);
      && (|old(receiver.logs)[p]| + |sent| <= Capacity(p) ==>
            receiver.logs == old(receiver.logs)[p := old(receiver.logs)[p] + sent])
      && (from >= 0 ==> sent == Range(sender.logs[p], from, des))
  {
    if from >= 0 {
      WindowIsRange(sender.logs[p], from, des, junk);
    }
    var frames := SendFromTo(sender, from, des, p, junk);
    ReceiveAll(receiver, frames, p);
  }
}
