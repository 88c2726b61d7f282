/**
 What a wire session means, said without the replay state: its accepted diffs, its
 accepted wholes, and the diffs that still count after the last whole.
 */
module BitbankSegments {
  import opened Options
  import opened BitbankReplay

  function SeqOf(f: Frame): int { f.sequence.GetOr(0) }

  function Last<T>(s: seq<T>): T
    requires s != []
  {
    s[|s| - 1]
  }

  /** The frames of the session the stream is in, from where that session began. */
  function Segment(frames: seq<Frame>): (r: seq<Frame>)
    ensures |r| <= |frames| && (frames != [] ==> r != [] && Last(r) == Last(frames))
  {
    if frames == [] then []
    else
      var before := Segment(frames[..|frames| - 1]);
      if before != [] && Last(before).session == Last(frames).session
      then before + [Last(frames)] else [Last(frames)]
  }

  function OfKind(frames: seq<Frame>, kind: string): seq<Frame> {
    if frames == [] then []
    else
      var before := OfKind(frames[..|frames| - 1], kind);
      if Last(frames).kind == kind then before + [Last(frames)] else before
  }

  /** The frames of one room that exceed every earlier one: the rest are duplicates or regressions. */
  function Accepted(room: seq<Frame>): (r: seq<Frame>)
    ensures (r == []) == (room == [])
  {
    if room == [] then []
    else
      var before := Accepted(room[..|room| - 1]);
      if before == [] || SeqOf(Last(before)) < SeqOf(Last(room)) then before + [Last(room)] else before
  }

  function After(frames: seq<Frame>, sequence: int): seq<Frame> {
    if frames == [] then []
    else
      var before := After(frames[..|frames| - 1], sequence);
      if SeqOf(Last(frames)) > sequence then before + [Last(frames)] else before
  }

  function Diffs(segment: seq<Frame>): seq<Frame> { Accepted(OfKind(segment, DELTA)) }

  function Wholes(segment: seq<Frame>): seq<Frame> { Accepted(OfKind(segment, SNAPSHOT)) }

  /** The accepted diffs the last whole has not covered; all of them before the first whole. */
  function Pending(segment: seq<Frame>): seq<Frame> {
    if Wholes(segment) == [] then Diffs(segment) else After(Diffs(segment), SeqOf(Last(Wholes(segment))))
  }

  ghost predicate Rising(frames: seq<Frame>) {
    forall i, j :: 0 <= i < j < |frames| ==> SeqOf(frames[i]) < SeqOf(frames[j])
  }

  ghost predicate IsMaximalSuffix(frames: seq<Frame>, start: nat)
    requires frames != []
  {
    && start < |frames|
    && (forall i :: start <= i < |frames| ==> frames[i].session == Last(frames).session)
    && (start > 0 ==> frames[start - 1].session != Last(frames).session)
  }

  lemma SegmentStep(frames: seq<Frame>)
    requires frames != []
    ensures var front, f := frames[..|frames| - 1], Last(frames);
      Segment(frames) == if front != [] && Last(front).session == f.session then Segment(front) + [f] else [f]
  {
  }

  lemma SuffixGrows(front: seq<Frame>, f: Frame, start: nat)
    requires front != [] && IsMaximalSuffix(front, start)
    ensures IsMaximalSuffix(front + [f], if Last(front).session == f.session then start else |front|)
  {
    assert forall i :: 0 <= i < |front| ==> (front + [f])[i] == front[i];
  }

  /** The segment is the longest suffix of the stream that stays in one session. */
  lemma {:induction false} SegmentIsMaximalSuffix(frames: seq<Frame>)
    requires frames != []
    ensures IsMaximalSuffix(frames, |frames| - |Segment(frames)|)
    ensures Segment(frames) == frames[|frames| - |Segment(frames)|..]
  {
    var front, f := frames[..|frames| - 1], Last(frames);
    SegmentStep(frames);
    hide Segment;
    if front == [] {
      assert frames[0..] == [f];
    } else {
      hide IsMaximalSuffix;
      SegmentIsMaximalSuffix(front);
      var start: nat := |front| - |Segment(front)|;
      assert front + [f] == frames;
      SuffixGrows(front, f, start);
      if Last(front).session == f.session {
        assert front[start..] + [f] == frames[start..];
      } else {
        assert frames[|front|..] == [f];
      }
    }
  }

  /** Frames of the session a stream is already in extend its segment. */
  lemma {:induction false} SegmentGrows(before: seq<Frame>, more: seq<Frame>, session: string)
    requires forall i :: 0 <= i < |more| ==> more[i].session == session
    requires more != []
    ensures Segment(before + more)
         == (if before != [] && Last(before).session == session then Segment(before) else []) + more
  {
    var n := |more| - 1;
    assert (before + more)[..|before + more| - 1] == before + more[..n];
    if n == 0 {
      assert before + more[..n] == before;
      assert before != [] ==> Last(Segment(before)) == Last(before);
    } else {
      SegmentGrows(before, more[..n], session);
      assert more == more[..n] + [more[n]];
    }
  }

  lemma {:induction false} OfKindSplits(a: seq<Frame>, b: seq<Frame>, kind: string)
    ensures OfKind(a + b, kind) == OfKind(a, kind) + OfKind(b, kind)
  {
    if b == [] {
      assert a + b == a;
    } else {
      assert (a + b)[..|a + b| - 1] == a + b[..|b| - 1];
      OfKindSplits(a, b[..|b| - 1], kind);
    }
  }

  lemma {:induction false} OfKindMembers(frames: seq<Frame>, kind: string)
    ensures forall f :: f in OfKind(frames, kind) <==> f in frames && f.kind == kind
  {
    if frames != [] {
      var front := frames[..|frames| - 1];
      OfKindMembers(front, kind);
      assert frames == front + [Last(frames)];
    }
  }

  function Grown(accepted: seq<Frame>, f: Frame): seq<Frame> {
    if accepted == [] || SeqOf(Last(accepted)) < SeqOf(f) then accepted + [f] else accepted
  }

  lemma AcceptedSnoc(room: seq<Frame>, f: Frame)
    ensures Accepted(room + [f]) == Grown(Accepted(room), f)
  {
    assert (room + [f])[..|room|] == room;
  }

  lemma GrownRises(accepted: seq<Frame>, f: Frame)
    requires Rising(accepted)
    ensures Rising(Grown(accepted, f)) && Grown(accepted, f) != []
    ensures SeqOf(f) <= SeqOf(Last(Grown(accepted, f)))
    ensures accepted != [] ==> SeqOf(Last(accepted)) <= SeqOf(Last(Grown(accepted, f)))
    ensures forall g :: g in Grown(accepted, f) ==> g in accepted || g == f
  {
    var n: int := |accepted|;
    assert forall i :: 0 <= i < n - 1 ==> SeqOf(accepted[i]) < SeqOf(accepted[n - 1]);
  }

  lemma {:induction false} AcceptedRises(room: seq<Frame>)
    ensures Rising(Accepted(room))
    ensures forall f :: f in Accepted(room) ==> f in room
    ensures forall i :: 0 <= i < |room| ==> SeqOf(room[i]) <= SeqOf(Last(Accepted(room)))
  {
    if room != [] {
      hide Accepted, Rising, Grown;
      var front, f := room[..|room| - 1], Last(room);
      AcceptedRises(front);
      assert room == front + [f];
      AcceptedSnoc(front, f);
      GrownRises(Accepted(front), f);
    }
  }

  /** A frame is accepted exactly when it exceeds every earlier frame of its room. */
  lemma AcceptedMeansRecord(room: seq<Frame>, f: Frame)
    ensures Accepted(room + [f])
      == if forall j :: 0 <= j < |room| ==> SeqOf(room[j]) < SeqOf(f) then Accepted(room) + [f] else Accepted(room)
  {
    AcceptedRises(room);
    assert (room + [f])[..|room|] == room;
    if room != [] {
      assert Last(Accepted(room)) in room;
    }
  }

  lemma {:induction false} AfterKeeps(frames: seq<Frame>, sequence: int)
    requires Rising(frames)
    ensures Rising(After(frames, sequence))
    ensures forall f :: f in After(frames, sequence) <==> f in frames && SeqOf(f) > sequence
  {
    if frames != [] {
      var front := frames[..|frames| - 1];
      AfterKeeps(front, sequence);
      assert frames == front + [Last(frames)];
      var kept := After(front, sequence);
      forall i | 0 <= i < |kept| ensures SeqOf(kept[i]) < SeqOf(Last(frames)) {
        assert kept[i] in front;
      }
    }
  }

  lemma AfterSnoc(frames: seq<Frame>, f: Frame, sequence: int)
    ensures After(frames + [f], sequence)
         == if SeqOf(f) > sequence then After(frames, sequence) + [f] else After(frames, sequence)
  {
    assert (frames + [f])[..|frames|] == frames;
  }

  lemma {:induction false} AfterTwice(frames: seq<Frame>, low: int, high: int)
    requires low <= high
    ensures After(After(frames, low), high) == After(frames, high)
  {
    if frames != [] {
      AfterTwice(frames[..|frames| - 1], low, high);
      AfterSnoc(After(frames[..|frames| - 1], low), Last(frames), high);
    }
  }

  lemma PendingFacts(segment: seq<Frame>)
    ensures Rising(Pending(segment))
    ensures forall f :: f in Pending(segment) ==> f in segment && f.kind == DELTA
  {
    AcceptedRises(OfKind(segment, DELTA));
    OfKindMembers(segment, DELTA);
    if Wholes(segment) != [] {
      AfterKeeps(Diffs(segment), SeqOf(Last(Wholes(segment))));
    }
  }

  lemma OfKindSnoc(frames: seq<Frame>, f: Frame, kind: string)
    ensures OfKind(frames + [f], kind) == if f.kind == kind then OfKind(frames, kind) + [f] else OfKind(frames, kind)
  {
    assert (frames + [f])[..|frames|] == frames;
  }

  /** One more frame: the room it enters and what that does to the accepted frames. */
  lemma OneFrameMore(segment: seq<Frame>, f: Frame)
    requires Valid(f)
    ensures Diffs(segment + [f]) == if f.kind == DELTA then Grown(Diffs(segment), f) else Diffs(segment)
    ensures Wholes(segment + [f]) == if f.kind == SNAPSHOT then Grown(Wholes(segment), f) else Wholes(segment)
  {
    OfKindSnoc(segment, f, DELTA);
    OfKindSnoc(segment, f, SNAPSHOT);
    AcceptedSnoc(OfKind(segment, DELTA), f);
    AcceptedSnoc(OfKind(segment, SNAPSHOT), f);
  }

  /** A diff becomes pending exactly when it exceeds every diff and every whole before it. */
  lemma PendingGrows(segment: seq<Frame>, f: Frame)
    requires Valid(f) && f.kind == DELTA
    ensures Pending(segment + [f])
      == if (Diffs(segment) == [] || SeqOf(Last(Diffs(segment))) < SeqOf(f))
            && (Wholes(segment) == [] || SeqOf(Last(Wholes(segment))) < SeqOf(f))
         then Pending(segment) + [f] else Pending(segment)
  {
    OneFrameMore(segment, f);
    if Wholes(segment) != [] {
      AfterSnoc(Diffs(segment), f, SeqOf(Last(Wholes(segment))));
    }
  }

  /** A whole that is accepted leaves pending only the diffs beyond it. */
  lemma PendingRebases(segment: seq<Frame>, f: Frame)
    requires Valid(f) && f.kind == SNAPSHOT
    requires Wholes(segment) == [] || SeqOf(Last(Wholes(segment))) < SeqOf(f)
    ensures Pending(segment + [f]) == After(Pending(segment), SeqOf(f))
  {
    OneFrameMore(segment, f);
    if Wholes(segment) != [] {
      AfterTwice(Diffs(segment), SeqOf(Last(Wholes(segment))), SeqOf(f));
    }
  }

  /** Frame `f` stands at place `i` and exceeds every earlier frame of its kind. */
  ghost predicate IsRecord(segment: seq<Frame>, i: int, f: Frame, kind: string) {
    && 0 <= i < |segment| && segment[i] == f && f.kind == kind
    && forall j :: 0 <= j < i && segment[j].kind == kind ==> SeqOf(segment[j]) < SeqOf(f)
  }

  ghost predicate HasRecord(segment: seq<Frame>, f: Frame, kind: string) { exists i :: IsRecord(segment, i, f, kind) }

  lemma RecordSnoc(segment: seq<Frame>, g: Frame, f: Frame, kind: string)
    ensures HasRecord(segment + [g], f, kind)
      <==> HasRecord(segment, f, kind) || (g == f && IsRecord(segment + [g], |segment|, g, kind))
  {
    var all := segment + [g];
    assert forall j :: 0 <= j < |segment| ==> all[j] == segment[j];
    if HasRecord(segment, f, kind) {
      var i :| IsRecord(segment, i, f, kind);
      assert IsRecord(all, i, f, kind);
    }
    if HasRecord(all, f, kind) {
      var i :| IsRecord(all, i, f, kind);
      assert i < |segment| ==> IsRecord(segment, i, f, kind);
    }
  }

  /** The frame exceeds every frame of the segment that is of the given kind. */
  ghost predicate Exceeds(segment: seq<Frame>, f: Frame, kind: string) {
    forall j :: 0 <= j < |segment| && segment[j].kind == kind ==> SeqOf(segment[j]) < SeqOf(f)
  }

  lemma ExceedsLast(segment: seq<Frame>, f: Frame, kind: string)
    ensures var room := Accepted(OfKind(segment, kind));
      Exceeds(segment, f, kind) <==> room == [] || SeqOf(Last(room)) < SeqOf(f)
  {
    var room := OfKind(segment, kind);
    AcceptedRises(room);
    OfKindMembers(segment, kind);
    if Accepted(room) != [] {
      assert Last(Accepted(room)) in segment;
    }
    forall j | 0 <= j < |segment| && segment[j].kind == kind ensures segment[j] in room {
    }
  }

  lemma RecordAtEnd(front: seq<Frame>, g: Frame, kind: string)
    ensures IsRecord(front + [g], |front|, g, kind) <==> g.kind == kind && Exceeds(front, g, kind)
  {
    assert forall j :: 0 <= j < |front| ==> (front + [g])[j] == front[j];
  }

  lemma {:induction false} AcceptedAreRecords(segment: seq<Frame>, f: Frame, kind: string)
    ensures f in Accepted(OfKind(segment, kind)) <==> HasRecord(segment, f, kind)
  {
    if segment != [] {
      hide Accepted, OfKind, HasRecord, IsRecord, Exceeds;
      var front, g := segment[..|segment| - 1], Last(segment);
      assert segment == front + [g];
      AcceptedAreRecords(front, f, kind);
      RecordSnoc(front, g, f, kind);
      OfKindSnoc(front, g, kind);
      AcceptedSnoc(OfKind(front, kind), g);
      ExceedsLast(front, g, kind);
      RecordAtEnd(front, g, kind);
    }
  }

  /**
   What waits on a session's last whole: in ascending sequence, the diffs that exceed every diff before them and
   every whole the session has shown.
   */
  lemma PendingMeans(segment: seq<Frame>, f: Frame)
    ensures Rising(Pending(segment))
    ensures f in Pending(segment) <==> HasRecord(segment, f, DELTA) && Exceeds(segment, f, SNAPSHOT)
  {
    hide OfKind, Accepted, HasRecord, Exceeds, Rising;
    PendingFacts(segment);
    AcceptedAreRecords(segment, f, DELTA);
    ExceedsLast(segment, f, SNAPSHOT);
    AcceptedRises(OfKind(segment, DELTA));
    if Wholes(segment) != [] {
      AfterKeeps(Diffs(segment), SeqOf(Last(Wholes(segment))));
    }
  }
}
