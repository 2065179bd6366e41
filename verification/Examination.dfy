/** Open up to its first effect, as the loops that compute the decision. */
module Examination {
  import opened Bytes
  import opened Checksum
  import opened Frames
  import opened Segments
  import opened ChainCheck
  import opened Manifests
  import opened Recovery
  import opened Acceptance

  /** `read_manifests`: both slots in turn, keeping the higher revision. */
  method ReadManifests(d: bytes) returns (s: Selection)
    ensures s == Select(d)
  {
    hide ParseSlot, Un;
    if |d| == 32 {
      return Legacy;
    }
    var found: Option<Manifest> := None;
    for index := 0 to 2
      invariant index == 0 ==> found == None
      invariant index == 1 ==> found == SlotAt(d, 0)
      invariant index == 2 ==> found == Better(SlotAt(d, 0), SlotAt(d, 1))
    {
      if |d| >= SlotStart(index) + 64 {
        var slot := SlotBytes(d, index);
        if Un(slot[8..16]) % 2 == index {
          var m := ParseSlot(slot, |d|);
          if m.Some? && (found == None || RevisionOf(m.value) > RevisionOf(found.value)) {
            found := m;
          }
        }
      }
    }
    s := if found.Some? then Chosen(found.value) else if |d| > DATA_START then Unusable else Empty;
  }

  function Better(a: Option<Manifest>, b: Option<Manifest>): Option<Manifest>
  {
    if a == None then b
    else if b == None then a
    else if RevisionOf(b.value) > RevisionOf(a.value) then b else a
  }

  lemma {:induction false} SummarySnoc(times: seq<int>, x: int)
    ensures Summary(times + [x]) == MeetTime(Summary(times), times == [], x)
  {
    assert (times + [x])[..|times|] == times;
  }

  method MeetRecords(t: WalTimes, initial: bool, b: Batch, ghost times: seq<int>) returns (r: WalTimes)
    requires t == Summary(times) && (initial <==> times == [])
    ensures r == Summary(times + BatchTimes(b))
  {
    hide Summary, MeetTime, BatchTimes;
    r := t;
    assert times + BatchTimes(b)[..0] == times;
    for i := 0 to |b|
      invariant r == Summary(times + BatchTimes(b)[..i])
    {
      TimeOf(b, i);
      SummarySnoc(times + BatchTimes(b)[..i], b[i].time);
      assert times + BatchTimes(b)[..i] + [b[i].time] == times + BatchTimes(b)[..i + 1];
      r := MeetTime(r, initial && i == 0, b[i].time);
    }
    assert BatchTimes(b)[..|b|] == BatchTimes(b);
  }

  lemma {:induction false} TimeOf(b: Batch, i: nat)
    requires i < |b|
    ensures BatchTimes(b)[i] == b[i].time
  {
  }

  /** The frame loop of open: where it stops, and the running times. */
  method ScanWal(w: bytes, after: nat) returns (end: nat, sequence: nat, t: WalTimes, stop: Stop)
    requires |w| >= 32
    ensures var r := ScanFrames(w, 32, after, []);
            end == r.end && sequence == r.sequence && stop == r.stop && t == Summary(r.times)
  {
    hide ReadFrame, Summary, BatchTimes, Records;
    end, sequence, stop := 32, after, AtEnd;
    ghost var times: seq<int> := [];
    t := NoTimes();
    EmptySummary();
    while end < |w|
      invariant 32 <= end && (end == 32 <==> times == [])
      invariant ScanFrames(w, end, sequence, times) == ScanFrames(w, 32, after, [])
      invariant t == Summary(times) && stop == AtEnd
      decreases |w| - end
    {
      match ReadFrame(w, end, |w|, (sequence + 1) % TWO64) {
        case Complete(data, count) =>
          var b := Records(data, count);
          t := MeetRecords(t, end == 32, b, times);
          times := times + BatchTimes(b);
          end := end + |data|;
          sequence := (sequence + 1) % TWO64;
        case Incomplete =>
          stop := Cut;
          return;
        case Damaged =>
          stop := Bad;
          return;
      }
    }
  }

  lemma {:induction false} EmptySummary()
    ensures Summary([]) == NoTimes()
  {
  }

  /** `timelite_batches_open` on an existing pair, up to its first effect. */
  method Examine(d: bytes, w: bytes) returns (o: Option<Opening>)
    ensures o == Recover(d, w) && (o.Some? <==> Acceptable(d, w))
  {
    hide CheckChain, ScanFrames, Summary, Select, Pow2, CheckFrameHeader, Acceptable;
    OpensExactly(d, w);
    var s := ReadManifests(d);
    if s.Unusable? {
      return None;
    }
    var c := SelectedClaim(s);
    SelectionBounded(d);
    var chain := CheckSegments(d, c);
    if chain == None || |w| < 32 || |w| > WAL_CAPACITY {
      return None;
    }
    var stale, sequence: nat := false, c.last;
    if |w| > 32 {
      if |w| < 64 || !CheckFrameHeader(w[32..64]) {
        return None;
      }
      var first := Un(w[32..64][8..16]);
      if first != 0 && first <= c.last {
        stale, sequence := true, first - 1;
      }
    }
    var end, reached, t, stop := ScanWal(w, sequence);
    if stop == Bad || (stop == Cut && stale) || (stale && reached != c.last) {
      return None;
    }
    var phase := if s.Chosen? then PhaseOf(s.m) else NORMAL;
    if |d| > c.end && phase == NORMAL && !(c.enabled && c.generation == 0 && |d| == MARKER_SIZE)
       && (stale || reached == c.last) {
      return None;
    }
    o := Some(Opening(
      s.Legacy?, if s.Chosen? then RevisionOf(s.m) else 0, c.enabled, phase, c.root,
      c.generation, c.end, c.last, chain.value.time, chain.value.tail, chain.value.spanStart, chain.value.live,
      stale, reached, if stale then 32 else end,
      if !stale && reached > c.last then t.last else chain.value.time,
      if stale then t.(ordered := true) else t));
  }
}
