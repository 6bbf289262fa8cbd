/**
 * The per-client sequence tracker of `handle_client` (scripts/server.py): a
 * map from client address to the last accepted sequence number, and the gap
 * report logged when a frame's number is not the successor of the last one.
 * Numbers are unbounded integers, as in Python: a 32-bit counter that wraps
 * to 0 is reported as a gap with a large negative loss.
 */
module SequenceTracker {
  import opened Wrappers

  type Ip = string

  /** The warning "expected E, got G (L packets lost)"; L may be negative. */
  datatype Gap = Gap(expected: int, got: int, lost: int)

  /**
   * One accepted frame: compare with the successor of the last number if the
   * client has one, then record the new number for this client only.
   */
  function Track(lastSeq: map<Ip, int>, ip: Ip, sequence: int): (r: (map<Ip, int>, Option<Gap>))
    ensures r.0.Keys == lastSeq.Keys + {ip} && r.0[ip] == sequence
    ensures forall other :: other in lastSeq && other != ip ==> r.0[other] == lastSeq[other]
    ensures r.1.Some? <==> ip in lastSeq && sequence != lastSeq[ip] + 1
    ensures r.1.Some? ==> r.1.value.expected == lastSeq[ip] + 1 && r.1.value.got == sequence
    ensures r.1.Some? ==> r.1.value.lost == r.1.value.got - r.1.value.expected != 0
  {
    var gap :=
      if ip in lastSeq && sequence != lastSeq[ip] + 1
      then Some(Gap(lastSeq[ip] + 1, sequence, sequence - (lastSeq[ip] + 1)))
      else None;
    (lastSeq[ip := sequence], gap)
  }

  /** A run of accepted frames from one client, in arrival order, with the report for each. */
  function TrackRun(lastSeq: map<Ip, int>, ip: Ip, sequences: seq<int>): (r: (map<Ip, int>, seq<Option<Gap>>))
    ensures |r.1| == |sequences|
    decreases |sequences|
  {
    if sequences == [] then (lastSeq, [])
    else
      var (next, gap) := Track(lastSeq, ip, sequences[0]);
      var (final, gaps) := TrackRun(next, ip, sequences[1..]);
      (final, [gap] + gaps)
  }

  /** The sum of the "packets lost" figures of a list of reports. */
  function TotalLost(gaps: seq<Option<Gap>>): int
  {
    if gaps == [] then 0
    else (if gaps[0].Some? then gaps[0].value.lost else 0) + TotalLost(gaps[1..])
  }

  /** Every number is the successor of the one before it, the first of `start`. */
  predicate Consecutive(start: int, sequences: seq<int>)
  {
    && (sequences != [] ==> sequences[0] == start + 1)
    && forall i :: 0 < i < |sequences| ==> sequences[i] == sequences[i - 1] + 1
  }

  /**
   * The reported losses telescope: over any run from a known client they add
   * up to how far the last number lies beyond the previously recorded one,
   * minus the frames that did arrive.
   */
  lemma {:induction false} TotalLostTelescopes(lastSeq: map<Ip, int>, ip: Ip, sequences: seq<int>)
    requires ip in lastSeq && sequences != []
    ensures TotalLost(TrackRun(lastSeq, ip, sequences).1)
         == sequences[|sequences| - 1] - lastSeq[ip] - |sequences|
    decreases |sequences|
  {
    var (next, gap) := Track(lastSeq, ip, sequences[0]);
    var rest := TrackRun(next, ip, sequences[1..]);
    assert TrackRun(lastSeq, ip, sequences).1 == [gap] + rest.1;
    assert ([gap] + rest.1)[1..] == rest.1;
    if |sequences| > 1 {
      TotalLostTelescopes(next, ip, sequences[1..]);
    }
  }

  /** No report in the list is a gap. */
  predicate NoGaps(gaps: seq<Option<Gap>>)
  {
    forall i :: 0 <= i < |gaps| ==> gaps[i].None?
  }

  /** A known client's run raises no gap report exactly when its numbers are consecutive. */
  lemma {:induction false} NoGapIffConsecutive(lastSeq: map<Ip, int>, ip: Ip, sequences: seq<int>)
    requires ip in lastSeq
    ensures NoGaps(TrackRun(lastSeq, ip, sequences).1) <==> Consecutive(lastSeq[ip], sequences)
    decreases |sequences|
  {
    if sequences != [] {
      var (next, gap) := Track(lastSeq, ip, sequences[0]);
      var rest := TrackRun(next, ip, sequences[1..]).1;
      var gaps := TrackRun(lastSeq, ip, sequences).1;
      assert gaps == [gap] + rest;
      NoGapIffConsecutive(next, ip, sequences[1..]);
      ConsecutiveUnfold(lastSeq[ip], sequences);
      assert NoGaps(gaps) <==> gap.None? && NoGaps(rest) by {
        if NoGaps(gaps) {
          assert gaps[0].None?;
          forall i | 0 <= i < |rest| ensures rest[i].None? {
            assert rest[i] == gaps[i + 1];
          }
        }
        if gap.None? && NoGaps(rest) {
          forall i | 0 <= i < |gaps| ensures gaps[i].None? {
            if i > 0 {
              assert gaps[i] == rest[i - 1];
            }
          }
        }
      }
    }
  }

  lemma ConsecutiveUnfold(start: int, sequences: seq<int>)
    requires sequences != []
    ensures Consecutive(start, sequences)
        <==> sequences[0] == start + 1 && Consecutive(sequences[0], sequences[1..])
  {
    var tail := sequences[1..];
    if sequences[0] == start + 1 && Consecutive(sequences[0], tail) {
      forall i | 0 < i < |sequences| ensures sequences[i] == sequences[i - 1] + 1 {
        if i > 1 {
          assert tail[i - 1] == tail[i - 2] + 1;
        }
      }
    }
    if Consecutive(start, sequences) {
      forall i | 0 < i < |tail| ensures tail[i] == tail[i - 1] + 1 {
        assert sequences[i + 1] == sequences[i] + 1;
      }
    }
  }

  /** After a run, the client's entry is its last number and every other client's entry is untouched. */
  lemma {:induction false} TrackRunRecordsLast(lastSeq: map<Ip, int>, ip: Ip, sequences: seq<int>)
    requires sequences != []
    ensures var final := TrackRun(lastSeq, ip, sequences).0;
      && final.Keys == lastSeq.Keys + {ip}
      && final[ip] == sequences[|sequences| - 1]
      && forall other :: other in lastSeq && other != ip ==> final[other] == lastSeq[other]
    decreases |sequences|
  {
    var (next, gap) := Track(lastSeq, ip, sequences[0]);
    if |sequences| > 1 {
      TrackRunRecordsLast(next, ip, sequences[1..]);
    }
  }

  /** The tracker's documented scenario: 5 then 7 reports expected 6, got 7, 1 lost; 5 then 6 reports nothing. */
  lemma GapScenario(ip: Ip)
    ensures TrackRun(map[], ip, [5, 7]).1 == [None, Some(Gap(6, 7, 1))]
    ensures TrackRun(map[], ip, [5, 6]).1 == [None, None]
  {
    assert [5, 7][1..] == [7];
    assert [5, 6][1..] == [6];
  }

  /** A 32-bit counter wrapping from 0xFFFFFFFF to 0 is reported as a gap of -2^32 packets. */
  lemma WrapIsReportedAsGap(lastSeq: map<Ip, int>, ip: Ip)
    requires ip in lastSeq && lastSeq[ip] == 0xFFFF_FFFF
    ensures Track(lastSeq, ip, 0).1 == Some(Gap(0x1_0000_0000, 0, -0x1_0000_0000))
  {
  }
}
