/**
 The reader's process-wide session state: the student count, the
 "stream active" flag and the ordered tally of detected students, updated in
 place by the start and stop events and by the capture loop.
 */
module Session {
  import opened Tally

  /** What the capture loop gets out of one iteration: a frame it could not
      read, a frame whose detection call failed, or the detector's results
      together with whether encoding the annotated frame succeeded. */
  datatype Frame =
    | Unread
    | DetectFailed
    | Detected(results: seq<Detection>, encoded: bool)

  /** The per-frame broadcast, without the encoded image. */
  datatype FramePayload = FramePayload(results: seq<Detection>, uniqueCount: int, totalCount: int)

  /** The detection results that reach the aggregation, frame after frame. */
  function Aggregated(frames: seq<Frame>): (ds: seq<Detection>)
    decreases |frames|
  {
    if frames == [] then []
    else
      var k := |frames| - 1;
      Aggregated(frames[..k]) + (if frames[k].Detected? then frames[k].results else [])
  }

  /** The payloads the capture loop sends for `frames`, starting from the
      tally `t` with student count `c`: one for each detected frame whose
      encoding succeeded, carrying that frame's results and the size of the
      tally right after the frame was aggregated. */
  function Emitted(t: Table, c: int, frames: seq<Frame>): seq<FramePayload>
    decreases |frames|
  {
    if frames == [] then []
    else
      var k := |frames| - 1;
      var f := frames[k];
      Emitted(t, c, frames[..k]) +
      (if f.Detected? && f.encoded
       then [FramePayload(f.results, |AdmitAll(t, c, Aggregated(frames)).keys|, c)]
       else [])
  }

  /** The running counts of successive payloads never go down. */
  predicate NonDecreasing(ps: seq<FramePayload>)
  {
    forall j, j' :: 0 <= j < j' < |ps| ==> ps[j].uniqueCount <= ps[j'].uniqueCount
  }

  lemma NonDecreasingAppend(ps: seq<FramePayload>, p: FramePayload)
    requires NonDecreasing(ps)
    requires forall j :: 0 <= j < |ps| ==> ps[j].uniqueCount <= p.uniqueCount
    ensures NonDecreasing(ps + [p])
  {
    var qs := ps + [p];
    forall j, j' | 0 <= j < j' < |qs|
      ensures qs[j].uniqueCount <= qs[j'].uniqueCount
    {
      assert qs[j] == ps[j];
      if j' < |ps| {
        assert qs[j'] == ps[j'];
      }
    }
  }

  /** Every sent count is at most the tally's final size and at most
      `max(c, 0)`, every payload carries the student count, and the counts
      never go down from one payload to the next. */
  lemma {:induction false} EmittedCounts(t: Table, c: int, frames: seq<Frame>)
    requires WellFormed(t) && |t.keys| <= Max(c, 0)
    ensures forall j :: 0 <= j < |Emitted(t, c, frames)| ==>
              Emitted(t, c, frames)[j].uniqueCount <= |AdmitAll(t, c, Aggregated(frames)).keys| &&
              Emitted(t, c, frames)[j].uniqueCount <= Max(c, 0) &&
              Emitted(t, c, frames)[j].totalCount == c
    ensures NonDecreasing(Emitted(t, c, frames))
    decreases |frames|
  {
    if frames != [] {
      var k := |frames| - 1;
      var f := frames[k];
      var before := Aggregated(frames[..k]);
      var added := if f.Detected? then f.results else [];
      var ps := Emitted(t, c, frames[..k]);
      EmittedCounts(t, c, frames[..k]);
      AdmitAllConcat(t, c, before, added);
      var mid := AdmitAll(t, c, before);
      var after := AdmitAll(t, c, Aggregated(frames));
      assert Aggregated(frames) == before + added;
      assert mid.keys <= after.keys;
      AdmitAllBound(t, c, Aggregated(frames));
      if f.Detected? && f.encoded {
        var p := FramePayload(f.results, |after.keys|, c);
        NonDecreasingAppend(ps, p);
        assert Emitted(t, c, frames) == ps + [p];
      } else {
        assert Emitted(t, c, frames) == ps + [];
      }
    }
  }

  class Session {
    var studentCount: int
    var active: bool
    var keys: seq<string>
    var entries: map<string, Answer>

    /** The tally as an ordered table. */
    function Contents(): Table
      reads this
    {
      Table(keys, entries)
    }

    /** The key order matches the dictionary, and the tally never holds more
        students than the session's count allows. */
    ghost predicate Valid()
      reads this
    {
      WellFormed(Contents()) && |keys| <= Max(studentCount, 0)
    }

    /** The state at process start: count 0, inactive, empty tally. */
    constructor ()
      ensures Valid()
      ensures studentCount == 0 && !active && Contents() == Empty
    {
      studentCount := 0;
      active := false;
      keys := [];
      entries := map[];
    }

    /** The start event: sets the count, replaces the tally by an empty one
        and marks the stream active. */
    method Start(count: int)
      modifies this
      ensures Valid()
      ensures studentCount == count && active && Contents() == Empty
    {
      studentCount := count;
      keys := [];
      entries := map[];
      active := true;
    }

    /** The stop event: clears the flag and hands out a snapshot of the tally,
        which itself stays as it is. */
    method Stop() returns (snapshot: Table)
      modifies this`active
      ensures !active
      ensures snapshot == Contents()
    {
      active := false;
      snapshot := Table(keys, entries);
    }

    /** Aggregates one frame's detection results into the tally and builds the
        frame's payload. */
    method ProcessFrame(results: seq<Detection>) returns (payload: FramePayload)
      requires Valid()
      modifies this`keys, this`entries
      ensures Valid()
      ensures Contents() == AdmitAll(old(Contents()), studentCount, results)
      ensures payload == FramePayload(results, |keys|, studentCount)
    {
      var i := 0;
      while i < |results|
        invariant 0 <= i <= |results|
        invariant Valid()
        invariant Contents() == AdmitAll(old(Contents()), studentCount, results[..i])
      {
        var result := results[i];
        if result.name !in entries {
          if |keys| < studentCount {
            keys := keys + [result.name];
            entries := entries[result.name := Answer(result.code, result.code)];
          }
        } else {
          entries := entries[result.name := entries[result.name].(last := result.code)];
        }
        assert results[..i + 1][..i] == results[..i];
        i := i + 1;
      }
      assert results[..i] == results;
      payload := FramePayload(results, |keys|, studentCount);
    }

    /** The capture loop over a sequence of frames: while the stream is
        active, each detected frame is aggregated, and a payload is emitted
        for it when its encoding succeeded. */
    method Stream(frames: seq<Frame>) returns (payloads: seq<FramePayload>)
      requires Valid()
      modifies this`keys, this`entries
      ensures Valid()
      ensures !active ==> Contents() == old(Contents()) && payloads == []
      ensures active ==> Contents() == AdmitAll(old(Contents()), studentCount, Aggregated(frames))
      ensures active ==> payloads == Emitted(old(Contents()), studentCount, frames)
      // the running count never exceeds the target and never goes down
      ensures forall j :: 0 <= j < |payloads| ==>
                payloads[j].uniqueCount <= Max(studentCount, 0) &&
                payloads[j].totalCount == studentCount
      ensures NonDecreasing(payloads)
    {
      payloads := [];
      var i := 0;
      while active && i < |frames|
        invariant 0 <= i <= |frames|
        invariant !active ==> i == 0
        invariant Valid()
        invariant Contents() == AdmitAll(old(Contents()), studentCount, Aggregated(frames[..i]))
        invariant payloads == Emitted(old(Contents()), studentCount, frames[..i])
      {
        var frame := frames[i];
        ghost var seen := Aggregated(frames[..i]);
        assert frames[..i + 1][..i] == frames[..i];
        assert Aggregated(frames[..i + 1])
               == seen + (if frame.Detected? then frame.results else []);
        if frame.Detected? {
          var payload := ProcessFrame(frame.results);
          AdmitAllConcat(old(Contents()), studentCount, seen, frame.results);
          if frame.encoded {
            payloads := payloads + [payload];
          }
        } else {
          assert seen + [] == seen;
        }
        i := i + 1;
      }
      if active {
        assert frames[..i] == frames;
      }
      EmittedCounts(old(Contents()), studentCount, frames[..i]);
    }
  }
}
