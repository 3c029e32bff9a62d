/** The timeline of an encoded recording (src/guacenc/video.c and
    src/guacenc/display-sync.c).
  */
module Videos {

  import opened CInt

  /** Frames per second, and the milliseconds that each frame lasts. */
  const FRAMERATE := 25
  const FRAME_TIME := 40

  // ---------------------------------------------------------------------
  // The arithmetic of the timeline
  // ---------------------------------------------------------------------

  /** Division by 25 as C does it, towards zero. */
  function FrameDivision(x: int): int {
    if x >= 0 then x / FRAMERATE else -(-x / FRAMERATE)
  }

  /** The number of frames due after a gap, in an int. */
  function Elapsed(gap: nat): int {
    ToInt(gap * FRAMERATE / 1000)
  }

  /** How far the timeline is brought forward: `elapsed * 1000` is an int as well. */
  function Advance(gap: nat): int {
    FrameDivision(ToInt(Elapsed(gap) * 1000))
  }

  /** How often the frame is written: a counter that starts at `elapsed` is decremented,
      in an int, until it is zero. */
  function Repetitions(gap: nat): nat {
    Elapsed(gap) % WORDS
  }

  lemma CountsDown(left: int)
    requires left != 0 && -0x8000_0000 <= left < 0x8000_0000
    ensures ToInt(left - 1) % WORDS == left % WORDS - 1 && (ToInt(left - 1) == 0 <==> left % WORDS == 1)
  {
  }

  /** The shortest gap for which `elapsed * 1000` does not fit an int: just under 24
      hours. */
  const GAP_LIMIT := 85899360

  lemma BelowLimit(gap: nat)
    requires gap < GAP_LIMIT
    ensures Elapsed(gap) == Repetitions(gap) == gap / FRAME_TIME <= 2147483
    ensures Advance(gap) == gap / FRAME_TIME * FRAME_TIME
  {
    assert gap * FRAMERATE / 1000 == gap / FRAME_TIME;
  }

  /** The timeline is brought to the frame of the timestamp if and only if the gap is
      below the limit. */
  lemma AdvanceExactlyWhen(gap: nat)
    ensures 0 <= gap - Advance(gap) < FRAME_TIME <==> gap < GAP_LIMIT
    ensures Advance(gap) <= gap
  {
    if gap < GAP_LIMIT {
      BelowLimit(gap);
    } else if gap < GAP_LIMIT + FRAME_TIME {
      assert gap * FRAMERATE / 1000 == 2147484;
      assert Elapsed(gap) == 2147484;
      assert ToInt(2147484000) == 2147484000 - WORDS;
    } else {
      assert Advance(gap) <= 0x8000_0000 / FRAMERATE;
    }
  }

  /** A recording that pauses for a day: the product leaves the range of an int, and the
      timeline goes back by almost a day instead of forward. */
  lemma PauseOfOneDay()
    ensures Elapsed(86400000) == 2160000
    ensures Elapsed(86400000) * 1000 > 0x7FFF_FFFF
    ensures Advance(86400000) == -85398691
  {
    assert Elapsed(86400000) == 2160000;
    assert ToInt(2160000000) == 2160000000 - WORDS;
  }

  // ---------------------------------------------------------------------
  // The timeline as a value
  // ---------------------------------------------------------------------

  datatype Flushing = Flushing(count: nat, rest: seq<bool>)

  /** What becomes of `n` frames: how many the encoder takes before the first that fails,
      and the outcomes that are left. When these are used up, every frame succeeds. */
  function Flushed(script: seq<bool>, n: nat): (f: Flushing)
    ensures f.count <= n
    decreases n
  {
    if n == 0 then Flushing(0, script)
    else if script == [] then Flushing(n, [])
    else if !script[0] then Flushing(0, script[1..])
    else
      var f := Flushed(script[1..], n - 1);
      Flushing(f.count + 1, f.rest)
  }

  predicate AllSucceed(script: seq<bool>) {
    forall i :: 0 <= i < |script| ==> script[i]
  }

  lemma {:induction false} SucceedingFlush(script: seq<bool>, n: nat)
    requires AllSucceed(script)
    ensures Flushed(script, n).count == n && AllSucceed(Flushed(script, n).rest)
    decreases n
  {
    if n > 0 && script != [] {
      SucceedingFlush(script[1..], n - 1);
    }
  }

  /** `last`: the time up to which the timeline has been brought, or zero before the first
      sync. `pts`: the frames written. `start`: when the timeline starts, or zero.
      `stray`: the frames written by calls that failed before they had written all. */
  datatype Timeline = Timeline(last: int, pts: nat, start: int, stray: nat, script: seq<bool>)

  /** guacenc_video_advance_timeline, and whether it fails. */
  function Advanced(t: Timeline, timestamp: int): (r: (Timeline, bool))
    requires t.last <= timestamp
  {
    if t.last == 0 then (t.(last := timestamp, start := timestamp), false)
    else
      var gap := timestamp - t.last;
      var f := Flushed(t.script, Repetitions(gap));
      if f.count < Repetitions(gap) then
        (t.(pts := t.pts + f.count, stray := t.stray + f.count, script := f.rest), true)
      else
        (t.(last := t.last + Advance(gap), pts := t.pts + f.count, script := f.rest), false)
  }

  /** The timeline has been brought forward by whole frames, one for each written, apart
      from those that are accounted for as stray. */
  ghost predicate OnTrack(t: Timeline) {
    && 0 <= t.start <= t.last && (t.start == 0 <==> t.last == 0)
    && t.last == t.start + FRAME_TIME * (t.pts - t.stray) && t.stray <= t.pts
  }

  /** The timeline is at the frame of the timestamp. */
  predicate OnTime(t: Timeline, timestamp: int) {
    0 <= timestamp - t.last < FRAME_TIME
  }

  /** A gap that the arithmetic can take. */
  predicate Bearable(t: Timeline, timestamp: int) {
    t.last == 0 || timestamp - t.last < GAP_LIMIT
  }

  /** A call that succeeds leaves the timeline at the frame of the timestamp if and only
      if the gap is bearable; then the frames written are those of the time since the
      start, and the stray ones. */
  lemma AdvancedExactlyWhen(t: Timeline, timestamp: int)
    requires OnTrack(t) && t.last <= timestamp
    ensures var (t', failed) := Advanced(t, timestamp);
      && t'.last <= timestamp
      && (!failed ==> (OnTime(t', timestamp) <==> Bearable(t, timestamp)))
      && (!failed && Bearable(t, timestamp) ==>
            OnTrack(t') && t'.stray == t.stray && t'.pts - t'.stray == (timestamp - t'.start) / FRAME_TIME)
  {
    if t.last != 0 {
      AdvanceExactlyWhen(timestamp - t.last);
      if Bearable(t, timestamp) {
        BelowLimit(timestamp - t.last);
      }
    }
  }

  /** A call that fails leaves the timeline where it is, and every frame that it has
      written is stray. */
  lemma FailedStaysOnTrack(t: Timeline, timestamp: int)
    requires OnTrack(t) && t.last <= timestamp && Advanced(t, timestamp).1
    ensures var t' := Advanced(t, timestamp).0;
      OnTrack(t') && t'.last == t.last && t'.pts - t.pts == t'.stray - t.stray < Repetitions(timestamp - t.last)
  {
  }

  /** Two frames are due and the encoder fails at the second. When the same sync comes
      again, both are written: three frames stand for two. */
  lemma FramesRepeated()
    ensures var t := Timeline(1000, 0, 1000, 0, [true, false]);
      var (t1, failed1) := Advanced(t, 1080);
      failed1 && t1.last == 1000 && t1.pts == 1 &&
      var (t2, failed2) := Advanced(t1, 1080);
      !failed2 && OnTime(t2, 1080) && t2.pts == 3 && (1080 - t2.start) / FRAME_TIME == 2
  {
    BelowLimit(80);
    assert Flushed([true, false], 2) == Flushing(1, []) by {
      assert [true, false][1..] == [false];
      assert Flushed([false], 1) == Flushing(0, [false][1..]);
      assert [false][1..] == [];
    }
  }

  // ---------------------------------------------------------------------
  // Video and display
  // ---------------------------------------------------------------------

  class Video {
    var lastTimestamp: int
    var nextPts: nat

    /** Whether the encoder succeeds, call by call. */
    var script: seq<bool>
    ghost var start: int
    ghost var stray: nat

    ghost function Now(): Timeline
      reads this
    {
      Timeline(lastTimestamp, nextPts, start, stray, script)
    }

    constructor (script: seq<bool>)
      ensures Now() == Timeline(0, 0, 0, 0, script)
    {
      lastTimestamp, nextPts, start, stray := 0, 0, 0, 0;
      this.script := script;
    }

    /** The encoder. */
    method EncodeVideo() returns (gotData: int)
      modifies this`script
      ensures gotData < 0 <==> old(script) != [] && !old(script)[0]
      ensures script == if old(script) == [] then [] else old(script)[1..]
    {
      gotData := 1;
      if |script| > 0 {
        gotData := if script[0] then 1 else -1;
        script := script[1..];
      }
    }

    method FlushFrame() returns (failed: bool)
      modifies this`nextPts, this`script
      ensures nextPts == if failed then old(nextPts) else old(nextPts) + 1
      ensures failed <==> old(script) != [] && !old(script)[0]
      ensures script == if old(script) == [] then [] else old(script)[1..]
    {
      var gotData := EncodeVideo();
      if gotData < 0 {
        return true;
      }
      nextPts := nextPts + 1;
      return false;
    }

    /** Writes the frame until the counter, an int, is zero. */
    method FlushFrames(elapsed: int) returns (failed: bool)
      requires elapsed != 0 && -0x8000_0000 <= elapsed < 0x8000_0000
      modifies this`nextPts, this`script
      ensures var f := Flushed(old(script), elapsed % WORDS);
        nextPts == old(nextPts) + f.count && script == f.rest && (failed <==> f.count < elapsed % WORDS)
    {
      var left := elapsed;
      ghost var goal, all := Flushed(script, elapsed % WORDS), elapsed % WORDS;
      ghost var n := all;
      while true
        invariant left != 0 && -0x8000_0000 <= left < 0x8000_0000 && left % WORDS == n <= all
        invariant nextPts - old(nextPts) == all - n
        invariant goal == Flushing(all - n + Flushed(script, n).count, Flushed(script, n).rest)
        decreases n
      {
        var unable := FlushFrame();
        if unable {
          return true;
        }
        CountsDown(left);
        left := ToInt(left - 1);
        n := n - 1;
        if left == 0 {
          return false;
        }
      }
    }

    /** Brings the timeline forward. */
    method AdvanceTimeline(timestamp: int) returns (failed: bool)
      requires lastTimestamp <= timestamp
      modifies this
      ensures (Now(), failed) == Advanced(old(Now()), timestamp)
    {
      var next := timestamp;
      ghost var before := nextPts;
      if lastTimestamp != 0 {
        var elapsed := ToInt((timestamp - lastTimestamp) * FRAMERATE / 1000);
        if elapsed == 0 {
          return false;
        }
        next := lastTimestamp + FrameDivision(ToInt(elapsed * 1000));
        var unable := FlushFrames(elapsed);
        if unable {
          stray := stray + (nextPts - before);
          return true;
        }
      } else {
        start := timestamp;
      }
      lastTimestamp := next;
      return false;
    }
  }

  class Display {
    var lastSync: int
    const output: Video

    /** Whether combining the layers succeeds, call by call. */
    var flattening: seq<bool>

    ghost predicate Valid()
      reads this, output
    {
      0 <= lastSync && output.lastTimestamp <= lastSync
    }

    constructor (script: seq<bool>, flattening: seq<bool>)
      ensures Valid() && fresh(output) && lastSync == 0 && output.Now() == Timeline(0, 0, 0, 0, script)
      ensures this.flattening == flattening
    {
      output := new Video(script);
      lastSync := 0;
      this.flattening := flattening;
    }

    /** Combining the layers of the display. */
    method Flatten() returns (failed: bool)
      modifies this`flattening
      ensures failed <==> old(flattening) != [] && !old(flattening)[0]
      ensures flattening == if old(flattening) == [] then [] else old(flattening)[1..]
    {
      failed := |flattening| > 0 && !flattening[0];
      if |flattening| > 0 {
        flattening := flattening[1..];
      }
    }

    /** A sync in the past is rejected and changes nothing. Any other advances the
        timeline, exactly unless combining the layers fails. */
    method Sync(timestamp: int) returns (failed: bool)
      requires Valid()
      modifies this, output
      ensures Valid()
      ensures timestamp < old(lastSync) ==> failed && unchanged(this) && unchanged(output)
      ensures timestamp >= old(lastSync) ==> lastSync == timestamp
      ensures timestamp >= old(lastSync) ==> flattening == if old(flattening) == [] then [] else old(flattening)[1..]
      ensures timestamp >= old(lastSync) ==>
        if old(flattening) != [] && !old(flattening)[0] then failed && unchanged(output)
        else (output.Now(), failed) == Advanced(old(output.Now()), timestamp)
    {
      if timestamp < lastSync {
        return true;
      }
      lastSync := timestamp;
      var unable := Flatten();
      if unable {
        return true;
      }
      ghost var t := output.Now();
      if t.last != 0 {
        AdvanceExactlyWhen(timestamp - t.last);
      }
      failed := output.AdvanceTimeline(timestamp);
    }
  }

  // ---------------------------------------------------------------------
  // Whole recordings
  // ---------------------------------------------------------------------

  /** The latest of a series of timestamps, or zero if none is positive. */
  function Latest(syncs: seq<int>): (latest: int)
    ensures latest >= 0 && forall t :: t in syncs ==> t <= latest
    ensures latest == 0 || latest in syncs
  {
    if |syncs| == 0 then 0
    else
      var before, last := Latest(syncs[..|syncs| - 1]), syncs[|syncs| - 1];
      assert syncs == syncs[..|syncs| - 1] + [last];
      if before < last then last else before
  }

  /** The first timestamp that is positive, or zero. */
  function First(syncs: seq<int>): int {
    if |syncs| == 0 then 0
    else
      var before := First(syncs[..|syncs| - 1]);
      if before == 0 && syncs[|syncs| - 1] > 0 then syncs[|syncs| - 1] else before
  }

  lemma {:induction false} FirstBeforeLatest(syncs: seq<int>)
    ensures 0 <= First(syncs) <= Latest(syncs)
    ensures First(syncs) == 0 <==> Latest(syncs) == 0
  {
    if |syncs| > 0 {
      FirstBeforeLatest(syncs[..|syncs| - 1]);
    }
  }

  /** The frame boundary that the latest sync leads to. */
  function Reached(syncs: seq<int>): int {
    First(syncs) + (Latest(syncs) - First(syncs)) / FRAME_TIME * FRAME_TIME
  }

  /** No sync is further than the arithmetic can bear from the frame reached before it.
      Syncs in the past, which are rejected, do not matter. */
  predicate Steady(syncs: seq<int>) {
    |syncs| == 0 ||
    var before, last := syncs[..|syncs| - 1], syncs[|syncs| - 1];
    Steady(before) && (First(before) == 0 || last - Reached(before) < GAP_LIMIT)
  }

  /** Syncs that are never more than 85,899,320 ms apart are steady. */
  lemma {:induction false} ShortGapsAreSteady(syncs: seq<int>)
    requires forall i :: 0 < i < |syncs| ==> syncs[i] - Latest(syncs[..i]) <= GAP_LIMIT - FRAME_TIME
    ensures Steady(syncs)
  {
    if |syncs| > 0 {
      var n := |syncs| - 1;
      var before := syncs[..n];
      forall i | 0 < i < |before|
        ensures before[i] - Latest(before[..i]) <= GAP_LIMIT - FRAME_TIME
      {
        assert before[..i] == syncs[..i];
      }
      ShortGapsAreSteady(before);
      FirstBeforeLatest(before);
    }
  }

  /** A recording with a pause of one day is not. */
  lemma PauseIsNotSteady()
    ensures !Steady([1000, 86401000])
  {
    var syncs := [1000, 86401000];
    assert syncs[..1] == [1000] && [1000][..0] == [];
    assert First([1000]) == 1000 && Latest([1000]) == 1000;
  }

  /** The timeline of a recording in which nothing failed. */
  ghost predicate InStep(t: Timeline, syncs: seq<int>) {
    && OnTrack(t) && t.stray == 0 && t.start == First(syncs) && t.last == Reached(syncs)
    && t.pts == (Latest(syncs) - First(syncs)) / FRAME_TIME
  }

  /** What one more sync that is not in the past adds. */
  lemma MoreSyncs(syncs: seq<int>, timestamp: int)
    ensures var more := syncs + [timestamp];
      && Latest(more) == (if Latest(syncs) < timestamp then timestamp else Latest(syncs))
      && First(more) == (if First(syncs) == 0 && timestamp > 0 then timestamp else First(syncs))
      && (Steady(more) <==> Steady(syncs) && (First(syncs) == 0 || timestamp - Reached(syncs) < GAP_LIMIT))
  {
    var more := syncs + [timestamp];
    assert more[..|more| - 1] == syncs;
  }

  lemma InStepNext(t: Timeline, syncs: seq<int>, timestamp: int)
    requires InStep(t, syncs) && timestamp >= Latest(syncs) && t.last <= timestamp && !Advanced(t, timestamp).1
    ensures var t' := Advanced(t, timestamp).0;
      && (OnTime(t', timestamp) <==> First(syncs) == 0 || timestamp - Reached(syncs) < GAP_LIMIT)
      && (OnTime(t', timestamp) ==> InStep(t', syncs + [timestamp]))
  {
    var t' := Advanced(t, timestamp).0;
    MoreSyncs(syncs, timestamp);
    AdvancedExactlyWhen(t, timestamp);
    if OnTime(t', timestamp) {
      assert t'.start == First(syncs + [timestamp]);
      assert Latest(syncs + [timestamp]) == timestamp;
    }
  }

  /** Whether what is said of a recording so far is right. */
  ghost predicate Accounted(t: Timeline, syncs: seq<int>, clean: bool, onTime: bool) {
    && (clean ==> (onTime <==> Steady(syncs)))
    && (clean && onTime ==> InStep(t, syncs))
  }

  /** Nothing that is still to come fails. */
  ghost predicate NothingFails(display: Display)
    reads display, display.output
  {
    AllSucceed(display.flattening) && AllSucceed(display.output.script)
  }

  lemma SyncSucceeds(t: Timeline, timestamp: int)
    ensures AllSucceed(t.script) && t.last <= timestamp ==>
      !Advanced(t, timestamp).1 && AllSucceed(Advanced(t, timestamp).0.script)
  {
    if AllSucceed(t.script) && t.last != 0 && t.last <= timestamp {
      SucceedingFlush(t.script, Repetitions(timestamp - t.last));
    }
  }

  method PlayNext(display: Display, timestamp: int, clean: bool, onTime: bool, ghost syncs: seq<int>)
    returns (clean': bool, onTime': bool)
    requires display.Valid() && display.lastSync == Latest(syncs)
    requires Accounted(display.output.Now(), syncs, clean, onTime)
    modifies display, display.output
    ensures display.Valid() && display.lastSync == Latest(syncs + [timestamp])
    ensures Accounted(display.output.Now(), syncs + [timestamp], clean', onTime')
    ensures old(NothingFails(display)) ==> NothingFails(display) && clean' == clean
  {
    clean', onTime' := clean, onTime;
    SyncSucceeds(display.output.Now(), timestamp);
    ghost var t := display.output.Now();
    var rejected := timestamp < display.lastSync;
    MoreSyncs(syncs, timestamp);
    var failed := display.Sync(timestamp);
    if rejected {
      RejectedStays(syncs, timestamp);
    } else if failed {
      clean' := false;
    } else {
      if clean && onTime {
        InStepNext(t, syncs, timestamp);
      }
      onTime' := onTime && 0 <= timestamp - display.output.lastTimestamp < FRAME_TIME;
    }
  }

  /** Of a whole recording in which nothing fails, the timeline is at the frame of every
      sync if and only if the syncs are steady. Then the video has one frame for every
      40 ms between the first sync and the latest, however many syncs were out of order. */
  method Play(syncs: seq<int>, script: seq<bool>, flattening: seq<bool>)
    returns (display: Display, clean: bool, onTime: bool)
    ensures fresh(display) && display.Valid() && display.lastSync == Latest(syncs)
    ensures AllSucceed(script) && AllSucceed(flattening) ==> clean
    ensures clean ==> (onTime <==> Steady(syncs))
    ensures clean && onTime ==> InStep(display.output.Now(), syncs)
  {
    display := new Display(script, flattening);
    clean, onTime := true, true;
    var i := 0;
    while i < |syncs|
      invariant i <= |syncs| && fresh(display) && fresh(display.output) && display.Valid()
      invariant display.lastSync == Latest(syncs[..i])
      invariant Accounted(display.output.Now(), syncs[..i], clean, onTime)
      invariant AllSucceed(script) && AllSucceed(flattening) ==> NothingFails(display) && clean
    {
      assert syncs[..i + 1] == syncs[..i] + [syncs[i]];
      clean, onTime := PlayNext(display, syncs[i], clean, onTime, syncs[..i]);
      i := i + 1;
    }
    assert syncs[..i] == syncs;
  }

  lemma RejectedStays(syncs: seq<int>, timestamp: int)
    requires timestamp < Latest(syncs)
    ensures var more := syncs + [timestamp];
      && Latest(more) == Latest(syncs) && First(more) == First(syncs)
      && (Steady(more) <==> Steady(syncs))
  {
    MoreSyncs(syncs, timestamp);
    FirstBeforeLatest(syncs);
  }

  // ---------------------------------------------------------------------
  // Letterboxes and pillarboxes
  // ---------------------------------------------------------------------

  /** Division as C does it. */
  function Floor(x: nat, d: nat): (q: nat)
    requires d > 0
    ensures q * d <= x < q * d + d
  {
    x / d
  }

  function Times(a: nat, b: nat): nat {
    a * b
  }

  /** The length of an image along one axis once the other axis has been scaled to
      match its destination. */
  function Scaled(along: nat, across: nat, destinationAcross: nat): nat
    requires across > 0
  {
    Floor(Times(along, destinationAcross), across)
  }

  /** The margin to add at both ends of the image. */
  function Margin(along: nat, across: nat, destinationAlong: nat, destinationAcross: nat): nat
    requires across > 0 && destinationAcross > 0
    requires Scaled(along, across, destinationAcross) <= destinationAlong
  {
    var spare := Times(destinationAlong - Scaled(along, across, destinationAcross), across);
    Floor(spare, destinationAcross) / 2
  }

  lemma Cancel(a: int, b: int, d: int)
    requires d > 0 && a * d < b * d
    ensures a < b
  {
  }

  lemma Ordered(a: nat, b: nat, d: nat)
    requires a <= b
    ensures a * d <= b * d
  {
  }

  lemma FitsBy(width: nat, height: nat, destinationWidth: nat, destinationHeight: nat, sw: nat, sh: nat)
    requires width > 0 && height > 0
    requires (destinationWidth + 1) * height <= sw * height <= width * destinationHeight
    requires sh * width <= height * destinationWidth
    ensures sh <= destinationHeight
  {
    assert (destinationWidth + 1) * height == height * destinationWidth + height;
    assert (destinationHeight + 1) * width == width * destinationHeight + width;
    Cancel(sh, destinationHeight + 1, width);
  }

  /** An image that is too wide once its height is scaled is not too tall once its width
      is: the assertion of the source holds. */
  lemma OneWayFits(width: nat, height: nat, destinationWidth: nat, destinationHeight: nat)
    requires width > 0 && height > 0
    requires Scaled(width, height, destinationHeight) > destinationWidth
    ensures Scaled(height, width, destinationWidth) <= destinationHeight
  {
    var sw, sh := Scaled(width, height, destinationHeight), Scaled(height, width, destinationWidth);
    Ordered(destinationWidth + 1, sw, height);
    FitsBy(width, height, destinationWidth, destinationHeight, sw, sh);
  }

  /** With its margins the image has the proportions of the destination, short of them
      by less than two pixels of the image and beyond them by less than one pixel of the
      destination. */
  lemma MarginsMatch(along: nat, across: nat, destinationAlong: nat, destinationAcross: nat)
    requires across > 0 && destinationAcross > 0
    requires Scaled(along, across, destinationAcross) <= destinationAlong
    ensures var padded := along + 2 * Margin(along, across, destinationAlong, destinationAcross);
      && destinationAlong * across < (padded + 2) * destinationAcross
      && padded * destinationAcross < (destinationAlong + 1) * across
  {
    var scaled := Scaled(along, across, destinationAcross);
    var q := Floor(Times(destinationAlong - scaled, across), destinationAcross);
    Padding(along, q, destinationAcross, q / 2);
    Proportions(along, across, destinationAlong, destinationAcross, scaled, q, along + 2 * (q / 2));
  }

  lemma Proportions(along: nat, across: nat, destinationAlong: nat, destinationAcross: nat, scaled: nat,
                    q: nat, padded: nat)
    requires scaled * across <= along * destinationAcross < scaled * across + across
    requires q * destinationAcross <= (destinationAlong - scaled) * across < q * destinationAcross + destinationAcross
    requires along * destinationAcross + q * destinationAcross + destinationAcross <= (padded + 2) * destinationAcross
    requires padded * destinationAcross <= along * destinationAcross + q * destinationAcross
    ensures destinationAlong * across < (padded + 2) * destinationAcross
    ensures padded * destinationAcross < (destinationAlong + 1) * across
  {
    assert (destinationAlong - scaled) * across == destinationAlong * across - scaled * across;
    assert (destinationAlong + 1) * across == destinationAlong * across + across;
  }

  lemma Padding(along: nat, q: nat, d: nat, margin: nat)
    requires margin == q / 2
    ensures along * d + q * d + d <= (along + 2 * margin + 2) * d
    ensures (along + 2 * margin) * d <= along * d + q * d
  {
    var odd := q - 2 * margin;
    assert (along + 2 * margin) * d == along * d + 2 * margin * d;
    assert q * d == 2 * margin * d + odd * d;
    assert odd == 0 || odd == 1;
  }
}
