/**
 What the replay amounts to: the state is a function of the two rooms of the
 current wire session, so is the book, and attribution and timing follow.
 */
module BitbankTheory {
  import opened Options
  import opened Sorting
  import opened BitbankReplay
  import opened BitbankSegments

  // ----- The state

  function BySequence(frames: seq<Frame>): map<int, Frame> {
    if frames == [] then map[]
    else BySequence(frames[..|frames| - 1])[SeqOf(Last(frames)) := Last(frames)]
  }

  function Newest(room: seq<Frame>, kind: string): map<string, int> {
    if room == [] then map[] else map[kind := SeqOf(Last(room))]
  }

  /** The state a session in room contents `segment` must be in. */
  function Denoted(session: Option<string>, segment: seq<Frame>): State {
    State(session,
          if Wholes(segment) == [] then None else Some(SeqOf(Last(Wholes(segment)))),
          BySequence(Pending(segment)),
          Latest(Diffs(segment), Wholes(segment)))
  }

  function SessionOf(frames: seq<Frame>): Option<string> {
    if frames == [] then None else Some(Last(frames).session)
  }

  lemma {:induction false} BySequenceEntries(frames: seq<Frame>)
    requires Rising(frames)
    ensures forall i :: 0 <= i < |frames| ==>
      SeqOf(frames[i]) in BySequence(frames) && BySequence(frames)[SeqOf(frames[i])] == frames[i]
    ensures forall k :: k in BySequence(frames) ==> BySequence(frames)[k] in frames && SeqOf(BySequence(frames)[k]) == k
  {
    if frames != [] {
      var front := frames[..|frames| - 1];
      BySequenceEntries(front);
      assert frames == front + [Last(frames)];
    }
  }

  lemma {:induction false} NewerBySequence(frames: seq<Frame>, sequence: int)
    ensures Newer(BySequence(frames), sequence) == BySequence(After(frames, sequence))
  {
    if frames != [] {
      var front := frames[..|frames| - 1];
      NewerBySequence(front, sequence);
      if SeqOf(Last(frames)) > sequence {
        assert After(frames, sequence)[..|After(frames, sequence)| - 1] == After(front, sequence);
      }
    }
  }

  lemma BySequenceSnoc(frames: seq<Frame>, f: Frame)
    ensures BySequence(frames + [f]) == BySequence(frames)[SeqOf(f) := f]
  {
    assert (frames + [f])[..|frames|] == frames;
  }

  lemma EnterDenoted(frames: seq<Frame>, f: Frame)
    ensures Enter(Denoted(SessionOf(frames), Segment(frames)), f)
         == Denoted(Some(f.session), if SessionOf(frames) == Some(f.session) then Segment(frames) else [])
  {
  }

  function Latest(diffs: seq<Frame>, wholes: seq<Frame>): map<string, int> {
    Newest(diffs, DELTA) + Newest(wholes, SNAPSHOT)
  }

  /** `previous_by_kind` rejects a frame exactly when its room's accepted frames would not grow. */
  lemma LatestGrows(diffs: seq<Frame>, wholes: seq<Frame>, f: Frame)
    requires Valid(f)
    ensures var room := if f.kind == DELTA then diffs else wholes;
      var latest := Latest(diffs, wholes);
      (f.kind in latest && SeqOf(f) <= latest[f.kind]) == (Grown(room, f) == room)
    ensures f.kind == DELTA && Grown(diffs, f) != diffs ==>
      Latest(Grown(diffs, f), wholes) == Latest(diffs, wholes)[DELTA := SeqOf(f)]
    ensures f.kind == SNAPSHOT && Grown(wholes, f) != wholes ==>
      Latest(diffs, Grown(wholes, f)) == Latest(diffs, wholes)[SNAPSHOT := SeqOf(f)]
  {
    assert DELTA != SNAPSHOT by { assert DELTA[0] != SNAPSHOT[0]; }
    var room := if f.kind == DELTA then diffs else wholes;
    assert |room + [f]| != |room|;
  }

  lemma StepState(segment: seq<Frame>, f: Frame)
    requires Valid(f)
    ensures Step(Denoted(Some(f.session), segment), f).0 == Denoted(Some(f.session), segment + [f])
  {
    hide OfKind, Accepted, After, Segment, BySequence, Latest, Grown, RebasedAll;
    OneFrameMore(segment, f);
    LatestGrows(Diffs(segment), Wholes(segment), f);
    if f.kind == DELTA {
      StepStateDiff(segment, f);
    } else {
      StepStateWhole(segment, f);
    }
  }

  lemma StepStateDiff(segment: seq<Frame>, f: Frame)
    requires Valid(f) && f.kind == DELTA
    ensures Step(Denoted(Some(f.session), segment), f).0 == Denoted(Some(f.session), segment + [f])
  {
    hide OfKind, Accepted, After, Segment, BySequence, Latest, RebasedAll, Newer;
    OneFrameMore(segment, f);
    LatestGrows(Diffs(segment), Wholes(segment), f);
    PendingGrows(segment, f);
    BySequenceSnoc(Pending(segment), f);
    assert DELTA != SNAPSHOT by { assert DELTA[0] != SNAPSHOT[0]; }
  }

  lemma StepStateWhole(segment: seq<Frame>, f: Frame)
    requires Valid(f) && f.kind == SNAPSHOT
    ensures Step(Denoted(Some(f.session), segment), f).0 == Denoted(Some(f.session), segment + [f])
  {
    hide OfKind, Accepted, After, Segment, BySequence, Latest, RebasedAll, Newer, Diffs;
    OneFrameMore(segment, f);
    LatestGrows(Diffs(segment), Wholes(segment), f);
    assert DELTA != SNAPSHOT by { assert DELTA[0] != SNAPSHOT[0]; }
    if Wholes(segment) == [] || SeqOf(Last(Wholes(segment))) < SeqOf(f) {
      PendingRebases(segment, f);
      NewerBySequence(Pending(segment), SeqOf(f));
    }
  }

  lemma NothingDenoted()
    ensures Denoted(None, []) == INITIAL && Segment([]) == []
  {
  }

  /** Loop invariant of the generator: its variables are a function of the current session's frames. */
  lemma {:induction false} StateIsDenoted(frames: seq<Frame>)
    requires AllValid(frames)
    ensures Run(frames).error == None
    ensures Run(frames).state == Denoted(SessionOf(frames), Segment(frames))
  {
    hide OfKind, Accepted, After, Step, Denoted, Enter, Run, Segment, Rejection;
    RunStarts(frames);
    if frames == [] {
      NothingDenoted();
    } else {
      var front, f := frames[..|frames| - 1], Last(frames);
      StateIsDenoted(front);
      RunExtends(frames, |front|);
      RejectedWhen(f);
      EnterDenoted(front, f);
      StepFromEntered(Run(front).state, f);
      StepState(if SessionOf(front) == Some(f.session) then Segment(front) else [], f);
      SegmentSnoc(front, f);
      assert front + [f] == frames;
    }
  }

  lemma SegmentSnoc(front: seq<Frame>, f: Frame)
    ensures Segment(front + [f]) == (if SessionOf(front) == Some(f.session) then Segment(front) else []) + [f]
  {
    assert (front + [f])[..|front|] == front;
  }

  /** Only the session flag of a step's own action depends on the session before it. */
  lemma StepFromEntered(st: State, f: Frame)
    requires Valid(f)
    ensures Step(st, f).0 == Step(Enter(st, f), f).0
    ensures |Step(st, f).1| == |Step(Enter(st, f), f).1| > 0
    ensures Step(st, f).1[0] == Step(Enter(st, f), f).1[0].(sessionChanged := SessionChanged(st, f))
    ensures Step(st, f).1[1..] == Step(Enter(st, f), f).1[1..]
    ensures !Step(Enter(st, f), f).1[0].sessionChanged
  {
    hide RebasedAll, SortedKeys, Newer;
  }

  // ----- The book

  type Book = map<(Side, real), real>

  /** A zero size or an explicit deletion removes the level. */
  function ApplyLevel(book: Book, l: LevelChange): Book {
    if l.deleted || l.size == 0.0 then book - {(l.side, l.price)} else book[(l.side, l.price) := l.size]
  }

  function ApplyLevels(book: Book, levels: seq<LevelChange>): Book
    decreases levels
  {
    if levels == [] then book else ApplyLevels(ApplyLevel(book, levels[0]), levels[1..])
  }

  function ApplyAction(book: Book, a: Action): Book {
    var kept: Book := if a.sessionChanged then map[] else book;
    if !a.applyLevels then kept else ApplyLevels(if a.resetBook then map[] else kept, a.frame.levels)
  }

  /** The consumer: folds the actions into a book. */
  function Fold(book: Book, actions: seq<Action>): Book {
    if actions == [] then book
    else ApplyAction(Fold(book, actions[..|actions| - 1]), actions[|actions| - 1])
  }

  function ApplyFrames(book: Book, frames: seq<Frame>): Book {
    if frames == [] then book
    else ApplyLevels(ApplyFrames(book, frames[..|frames| - 1]), Last(frames).levels)
  }

  /** The book a session must show: its last whole, then every pending diff in ascending sequence. */
  function BookOf(segment: seq<Frame>): Book {
    if Wholes(segment) == [] then map[]
    else ApplyFrames(ApplyLevels(map[], Last(Wholes(segment)).levels), Pending(segment))
  }

  lemma {:induction false} FoldSplits(book: Book, a: seq<Action>, b: seq<Action>)
    ensures Fold(book, a + b) == Fold(Fold(book, a), b)
  {
    if b == [] {
      assert a + b == a;
    } else {
      assert (a + b)[..|a + b| - 1] == a + b[..|b| - 1];
      FoldSplits(book, a, b[..|b| - 1]);
    }
  }

  function Rebases(frames: seq<Frame>, at: int): seq<Action> {
    seq(|frames|, i requires 0 <= i < |frames| => Action(frames[i], false, true, false, false, at))
  }

  function Sequences(frames: seq<Frame>): seq<int> {
    seq(|frames|, i requires 0 <= i < |frames| => SeqOf(frames[i]))
  }

  lemma KeysAreSequences(frames: seq<Frame>)
    requires Rising(frames)
    ensures SortedKeys(BySequence(frames).Keys) == Sequences(frames)
  {
    hide BySequence, SortedKeys;
    var sequences, buffered := Sequences(frames), BySequence(frames);
    var keys := SortedKeys(buffered.Keys);
    BySequenceEntries(frames);
    forall k | k in sequences ensures k in keys {
      var i :| 0 <= i < |frames| && sequences[i] == k;
      assert SeqOf(frames[i]) in buffered.Keys;
    }
    forall k | k in keys ensures k in sequences {
      assert k in buffered;
      var i :| 0 <= i < |frames| && frames[i] == buffered[k];
      assert sequences[i] == k;
    }
    AscendingIsUnique(keys, sequences);
  }

  /** `sorted(buffered.items())` lists the pending diffs in the order they were accepted. */
  lemma RebasedInOrder(frames: seq<Frame>, at: int)
    requires Rising(frames)
    ensures RebasedAll(SortedKeys(BySequence(frames).Keys), BySequence(frames), at) == Rebases(frames, at)
  {
    hide BySequence, SortedKeys, RebasedAll;
    KeysAreSequences(frames);
    BySequenceEntries(frames);
  }

  lemma {:induction false} FoldRebases(book: Book, frames: seq<Frame>, at: int)
    ensures Fold(book, Rebases(frames, at)) == ApplyFrames(book, frames)
  {
    if frames != [] {
      var front := frames[..|frames| - 1];
      FoldRebases(book, front, at);
      assert Rebases(frames, at)[..|front|] == Rebases(front, at);
    }
  }

  lemma StepBook(segment: seq<Frame>, f: Frame)
    requires Valid(f)
    ensures Fold(BookOf(segment), Step(Denoted(Some(f.session), segment), f).1) == BookOf(segment + [f])
  {
    if f.kind == DELTA {
      StepBookDiff(segment, f);
    } else {
      StepBookWhole(segment, f);
    }
  }

  lemma FoldOne(book: Book, a: Action)
    ensures Fold(book, [a]) == ApplyAction(book, a)
  {
    assert [a][..0] == [];
  }

  lemma StepBookWhole(segment: seq<Frame>, f: Frame)
    requires Valid(f) && f.kind == SNAPSHOT
    ensures Fold(BookOf(segment), Step(Denoted(Some(f.session), segment), f).1) == BookOf(segment + [f])
  {
    hide OfKind, Accepted, After, Segment, BySequence, ApplyLevels, ApplyFrames, Latest, Newer, Diffs, Fold;
    hide RebasedAll, SortedKeys;
    OneFrameMore(segment, f);
    LatestGrows(Diffs(segment), Wholes(segment), f);
    assert DELTA != SNAPSHOT by { assert DELTA[0] != SNAPSHOT[0]; }
    if Wholes(segment) == [] || SeqOf(Last(Wholes(segment))) < SeqOf(f) {
      PendingRebases(segment, f);
      NewerBySequence(Pending(segment), SeqOf(f));
      PendingFacts(segment + [f]);
      var pending := Pending(segment + [f]);
      RebasedInOrder(pending, f.available);
      var own := Action(f, false, true, true, false, f.available);
      assert Step(Denoted(Some(f.session), segment), f).1 == [own] + Rebases(pending, f.available);
      FoldSplits(BookOf(segment), [own], Rebases(pending, f.available));
      FoldOne(BookOf(segment), own);
      FoldRebases(ApplyLevels(map[], f.levels), pending, f.available);
    } else {
      FoldOne(BookOf(segment), Action(f, false, false, false, false, f.available));
      assert Grown(Wholes(segment), f) == Wholes(segment);
      assert Pending(segment + [f]) == Pending(segment);
    }
  }

  lemma StepBookDiff(segment: seq<Frame>, f: Frame)
    requires Valid(f) && f.kind == DELTA
    ensures Fold(BookOf(segment), Step(Denoted(Some(f.session), segment), f).1) == BookOf(segment + [f])
  {
    hide OfKind, Accepted, After, Segment, BySequence, ApplyLevels, Latest, Newer, Fold;
    hide RebasedAll, SortedKeys;
    OneFrameMore(segment, f);
    PendingGrows(segment, f);
    LatestGrows(Diffs(segment), Wholes(segment), f);
    assert DELTA != SNAPSHOT by { assert DELTA[0] != SNAPSHOT[0]; }
    var pending, book := Pending(segment), BookOf(segment);
    assert (pending + [f])[..|pending|] == pending;
    FoldOne(book, Action(f, false, false, false, false, f.available));
    FoldOne(book, Action(f, false, true, false, true, f.available));
  }

  lemma StartsClear(st: State, f: Frame, book: Book)
    requires Valid(f)
    requires st.session == None ==> book == map[]
    ensures Fold(book, Step(st, f).1)
         == Fold(if st.session == Some(f.session) then book else map[], Step(Enter(st, f), f).1)
  {
    StepFromEntered(st, f);
    var a, b := Step(st, f).1, Step(Enter(st, f), f).1;
    assert a == [a[0]] + a[1..] && b == [b[0]] + b[1..];
    FoldSplits(book, [a[0]], a[1..]);
    FoldSplits(if st.session == Some(f.session) then book else map[], [b[0]], b[1..]);
    assert Fold(book, [a[0]]) == ApplyAction(book, a[0]);
  }

  lemma NoBookYet()
    ensures BookOf([]) == map[]
  {
  }

  /**
   Prefix characterisation. After any valid stream the folded actions are exactly the
   last accepted whole of the current session with the later accepted diffs on top of it,
   and nothing before the first whole.
   */
  lemma {:induction false} BookIsLastWholePlusLaterDiffs(frames: seq<Frame>)
    requires AllValid(frames)
    ensures Fold(map[], Run(frames).actions) == BookOf(Segment(frames))
  {
    hide OfKind, Accepted, After, Pending, Step, Enter, ApplyFrames, BookOf;
    NoBookYet();
    if frames == [] {
    } else {
      var front, f := frames[..|frames| - 1], Last(frames);
      var st := Run(front).state;
      BookIsLastWholePlusLaterDiffs(front);
      StateIsDenoted(front);
      FoldSplits(map[], Run(front).actions, Step(st, f).1);
      StartsClear(st, f, BookOf(Segment(front)));
      EnterDenoted(front, f);
      var segment := if SessionOf(front) == Some(f.session) then Segment(front) else [];
      StepBook(segment, f);
      SegmentSnoc(front, f);
      assert front + [f] == frames;
    }
  }

  // ----- Confluence

  lemma {:induction false} KindsCover(frames: seq<Frame>)
    requires AllValid(frames)
    ensures |frames| == |OfKind(frames, DELTA)| + |OfKind(frames, SNAPSHOT)|
  {
    if frames != [] {
      KindsCover(frames[..|frames| - 1]);
    }
  }

  lemma RoomsDecide(session: Option<string>, a: seq<Frame>, b: seq<Frame>)
    requires OfKind(a, DELTA) == OfKind(b, DELTA) && OfKind(a, SNAPSHOT) == OfKind(b, SNAPSHOT)
    ensures Denoted(session, a) == Denoted(session, b) && BookOf(a) == BookOf(b)
  {
    hide OfKind, Accepted, After, BySequence, ApplyFrames, Latest, ApplyLevels;
  }

  lemma SessionAfter(past: seq<Frame>, more: seq<Frame>, session: string)
    requires AllValid(past) && AllValid(more) && more != []
    requires forall i :: 0 <= i < |more| ==> more[i].session == session
    ensures var before := if past != [] && Last(past).session == session then Segment(past) else [];
      && Run(past + more).state == Denoted(Some(session), before + more)
      && Fold(map[], Run(past + more).actions) == BookOf(before + more)
  {
    hide OfKind, Accepted, After, Segment, Run, Fold, BookOf, Denoted;
    SegmentGrows(past, more, session);
    assert Last(past + more) == Last(more);
    StateIsDenoted(past + more);
    BookIsLastWholePlusLaterDiffs(past + more);
  }

  /**
   Confluence. Two ways of interleaving the same diffs and the same wholes of one session,
   after any common past, end in the same replay state and the same book: a whole that
   arrives early or late relative to the diffs changes nothing.
   */
  lemma InterleavingDoesNotMatter(past: seq<Frame>, a: seq<Frame>, b: seq<Frame>, session: string)
    requires AllValid(past) && AllValid(a) && AllValid(b)
    requires forall i :: 0 <= i < |a| ==> a[i].session == session
    requires forall i :: 0 <= i < |b| ==> b[i].session == session
    requires OfKind(a, DELTA) == OfKind(b, DELTA) && OfKind(a, SNAPSHOT) == OfKind(b, SNAPSHOT)
    ensures Run(past + a).state == Run(past + b).state
    ensures Fold(map[], Run(past + a).actions) == Fold(map[], Run(past + b).actions)
  {
    hide OfKind, Segment, Run, Fold, BookOf, Denoted;
    KindsCover(a);
    KindsCover(b);
    if a == [] {
      assert b == [];
    } else {
      SessionAfter(past, a, session);
      SessionAfter(past, b, session);
      var before := if past != [] && Last(past).session == session then Segment(past) else [];
      OfKindSplits(before, a, DELTA);
      OfKindSplits(before, b, DELTA);
      OfKindSplits(before, a, SNAPSHOT);
      OfKindSplits(before, b, SNAPSHOT);
      RoomsDecide(Some(session), before + a, before + b);
    }
  }

  // ----- Attribution

  /** The frames whose changes are attributed, in the order of their actions. */
  function Attributed(actions: seq<Action>): seq<Frame> {
    if actions == [] then []
    else
      var before := Attributed(actions[..|actions| - 1]);
      if actions[|actions| - 1].attributeChanges then before + [actions[|actions| - 1].frame] else before
  }

  /** `f` is a diff beyond everything its session has shown, a whole included. */
  ghost predicate Advances(segment: seq<Frame>, f: Frame) {
    && f.kind == "delta"
    && (exists j :: 0 <= j < |segment| && segment[j].kind == "snapshot")
    && (forall j :: 0 <= j < |segment| ==> SeqOf(segment[j]) < SeqOf(f))
  }

  /** The last frame of the stream advances the book of its session. */
  ghost predicate AdvancesBook(frames: seq<Frame>)
    requires frames != []
  {
    Advances(Segment(frames)[..|Segment(frames)| - 1], Last(frames))
  }

  ghost function AdvancingFrames(frames: seq<Frame>): seq<Frame> {
    if frames == [] then []
    else
      var before := AdvancingFrames(frames[..|frames| - 1]);
      if AdvancesBook(frames) then before + [Last(frames)] else before
  }

  lemma {:induction false} AttributedSplits(a: seq<Action>, b: seq<Action>)
    ensures Attributed(a + b) == Attributed(a) + Attributed(b)
  {
    if b == [] {
      assert a + b == a;
    } else {
      assert (a + b)[..|a + b| - 1] == a + b[..|b| - 1];
      AttributedSplits(a, b[..|b| - 1]);
    }
  }

  lemma {:induction false} NothingAttributed(actions: seq<Action>)
    requires forall i :: 0 <= i < |actions| ==> !actions[i].attributeChanges
    ensures Attributed(actions) == []
  {
    if actions != [] {
      NothingAttributed(actions[..|actions| - 1]);
    }
  }

  lemma BeyondEverything(segment: seq<Frame>, f: Frame)
    requires AllValid(segment)
    ensures (forall j :: 0 <= j < |segment| ==> SeqOf(segment[j]) < SeqOf(f)) <==>
      ((Diffs(segment) == [] || SeqOf(Last(Diffs(segment))) < SeqOf(f))
       && (Wholes(segment) == [] || SeqOf(Last(Wholes(segment))) < SeqOf(f)))
    ensures (exists j :: 0 <= j < |segment| && segment[j].kind == SNAPSHOT) <==> Wholes(segment) != []
  {
    var diffs, wholes := OfKind(segment, DELTA), OfKind(segment, SNAPSHOT);
    AcceptedRises(diffs);
    AcceptedRises(wholes);
    OfKindMembers(segment, DELTA);
    OfKindMembers(segment, SNAPSHOT);
    assert wholes != [] ==> wholes[0] in segment;
    forall j | 0 <= j < |segment|
      ensures segment[j] in (if segment[j].kind == DELTA then diffs else wholes)
    {
    }
    assert diffs != [] ==> Last(Diffs(segment)) in segment;
    assert wholes != [] ==> Last(Wholes(segment)) in segment;
  }

  lemma AdvancesByRooms(segment: seq<Frame>, f: Frame)
    requires Valid(f) && AllValid(segment)
    ensures Advances(segment, f) <==>
      (f.kind == DELTA && Wholes(segment) != [] && SeqOf(Last(Wholes(segment))) < SeqOf(f)
       && Grown(Diffs(segment), f) != Diffs(segment))
  {
    hide OfKind, Accepted;
    BeyondEverything(segment, f);
    assert |Diffs(segment) + [f]| != |Diffs(segment)|;
  }

  lemma OwnAttribution(segment: seq<Frame>, f: Frame)
    requires Valid(f) && AllValid(segment)
    ensures Step(Denoted(Some(f.session), segment), f).1[0].attributeChanges <==> Advances(segment, f)
  {
    hide OfKind, Accepted, After, Segment, BySequence, Latest, RebasedAll, Newer, Advances, Grown;
    AdvancesByRooms(segment, f);
    LatestGrows(Diffs(segment), Wholes(segment), f);
    assert DELTA != SNAPSHOT by { assert DELTA[0] != SNAPSHOT[0]; }
  }

  lemma StepShape(st: State, f: Frame)
    requires Valid(f)
    ensures |Step(st, f).1| > 0 && Step(st, f).1[0].frame == f
    ensures forall i :: 1 <= i < |Step(st, f).1| ==> !Step(st, f).1[i].attributeChanges
  {
  }

  lemma StepAttribution(st: State, segment: seq<Frame>, f: Frame)
    requires Valid(f) && AllValid(segment) && Enter(st, f) == Denoted(Some(f.session), segment)
    ensures Attributed(Step(st, f).1) == if Advances(segment, f) then [f] else []
  {
    hide Step, Denoted, Enter, Advances;
    StepFromEntered(st, f);
    OwnAttribution(segment, f);
    StepShape(st, f);
    var actions := Step(st, f).1;
    assert actions == [actions[0]] + actions[1..];
    AttributedSplits([actions[0]], actions[1..]);
    NothingAttributed(actions[1..]);
    assert [actions[0]][..0] == [];
  }

  lemma {:induction false} SegmentValid(frames: seq<Frame>)
    requires AllValid(frames)
    ensures AllValid(Segment(frames))
  {
    if frames != [] {
      SegmentIsMaximalSuffix(frames);
    }
  }

  /**
   Attribution. Over a whole run the attributed frames are, in order and once each, exactly
   the diffs that arrive after a whole of their session and beyond everything it has shown;
   the replays a whole triggers are never attributed.
   */
  lemma {:induction false} AttributedExactlyOnce(frames: seq<Frame>)
    requires AllValid(frames)
    ensures Attributed(Run(frames).actions) == AdvancingFrames(frames)
  {
    hide OfKind, Accepted, After, Step, Enter, Denoted, Advances, Segment, Run, Rejection;
    RunStarts(frames);
    if frames == [] {
    } else {
      var front, f := frames[..|frames| - 1], Last(frames);
      AttributedExactlyOnce(front);
      StateIsDenoted(front);
      RunExtends(frames, |front|);
      RejectedWhen(f);
      EnterDenoted(front, f);
      SegmentValid(front);
      var segment := if SessionOf(front) == Some(f.session) then Segment(front) else [];
      StepAttribution(Run(front).state, segment, f);
      AttributedSplits(Run(front).actions, Step(Run(front).state, f).1);
      SegmentSnoc(front, f);
      assert front + [f] == frames;
      assert Segment(frames)[..|Segment(frames)| - 1] == segment;
    }
  }

  // ----- The whole list of actions

  /** The frame's own action, and after an accepted whole the replay of every diff still pending. */
  function TurnOf(f: Frame, changed: bool, whole: bool, diff: bool, pending: seq<Frame>): seq<Action> {
    [Action(f, changed, whole || diff, whole, diff, f.available)] + if whole then Rebases(pending, f.available) else []
  }

  /**
   The actions of a stream, said from its frames: a frame is marked where its session differs from the frame
   before; it resets the book if it is a whole beyond every whole of its session so far; it applies and is
   attributed if it advances the book; otherwise it is only listed.
   */
  ghost function Script(frames: seq<Frame>): seq<Action> {
    if frames == [] then []
    else
      var n := |frames| - 1;
      var f, segment := frames[n], Segment(frames);
      var past := segment[..|segment| - 1];
      Script(frames[..n])
      + TurnOf(f, n > 0 && frames[n - 1].session != f.session, f.kind == "snapshot" && Exceeds(past, f, "snapshot"),
               Advances(past, f), Pending(segment))
  }

  lemma TurnOfWhole(segment: seq<Frame>, f: Frame)
    requires Valid(f) && f.kind == SNAPSHOT
    ensures Step(Denoted(Some(f.session), segment), f).1
      == TurnOf(f, false, Exceeds(segment, f, SNAPSHOT), false, Pending(segment + [f]))
  {
    hide OfKind, Accepted, After, Segment, BySequence, Latest, Newer, Diffs, RebasedAll, SortedKeys, Exceeds;
    ExceedsLast(segment, f, SNAPSHOT);
    LatestGrows(Diffs(segment), Wholes(segment), f);
    assert DELTA != SNAPSHOT by { assert DELTA[0] != SNAPSHOT[0]; }
    if Wholes(segment) == [] || SeqOf(Last(Wholes(segment))) < SeqOf(f) {
      PendingRebases(segment, f);
      NewerBySequence(Pending(segment), SeqOf(f));
      PendingFacts(segment + [f]);
      RebasedInOrder(Pending(segment + [f]), f.available);
    } else {
      assert Grown(Wholes(segment), f) == Wholes(segment);
    }
  }

  lemma TurnOfDiff(segment: seq<Frame>, f: Frame)
    requires Valid(f) && AllValid(segment) && f.kind == DELTA
    ensures Step(Denoted(Some(f.session), segment), f).1 == TurnOf(f, false, false, Advances(segment, f), [])
  {
    hide OfKind, Accepted, After, Segment, BySequence, Latest, RebasedAll, Newer, Advances, Grown;
    AdvancesByRooms(segment, f);
    LatestGrows(Diffs(segment), Wholes(segment), f);
    assert DELTA != SNAPSHOT by { assert DELTA[0] != SNAPSHOT[0]; }
  }

  lemma TurnOfFrame(st: State, segment: seq<Frame>, f: Frame)
    requires Valid(f) && AllValid(segment) && Enter(st, f) == Denoted(Some(f.session), segment)
    ensures Step(st, f).1
      == TurnOf(f, SessionChanged(st, f), f.kind == SNAPSHOT && Exceeds(segment, f, SNAPSHOT), Advances(segment, f),
                Pending(segment + [f]))
  {
    hide Step, Denoted, Enter, Pending, Exceeds, Rebases, SessionChanged;
    StepFromEntered(st, f);
    assert DELTA != SNAPSHOT by { assert DELTA[0] != SNAPSHOT[0]; }
    if f.kind == SNAPSHOT {
      TurnOfWhole(segment, f);
    } else {
      TurnOfDiff(segment, f);
    }
    var a, b := Step(st, f).1, Step(Enter(st, f), f).1;
    assert a == [a[0]] + a[1..] && b == [b[0]] + b[1..];
    assert a[0] == b[0].(sessionChanged := SessionChanged(st, f));
  }

  lemma ScriptSnoc(front: seq<Frame>, f: Frame)
    ensures var past := if SessionOf(front) == Some(f.session) then Segment(front) else [];
      Script(front + [f]) == Script(front)
        + TurnOf(f, front != [] && Last(front).session != f.session, f.kind == SNAPSHOT && Exceeds(past, f, SNAPSHOT),
                 Advances(past, f), Pending(past + [f]))
  {
    hide Exceeds, Advances, TurnOf, Segment, Pending;
    var frames := front + [f];
    assert frames[..|front|] == front;
    assert front != [] ==> Last(front) == frames[|front| - 1];
    SegmentSnoc(front, f);
    assert Segment(frames)[..|Segment(frames)| - 1] == if SessionOf(front) == Some(f.session) then Segment(front) else [];
  }

  /** The generator yields exactly the script of its frames: nothing is missing, doubled or out of turn. */
  lemma {:induction false} RunIsScript(frames: seq<Frame>)
    requires AllValid(frames)
    ensures Run(frames).actions == Script(frames)
  {
    hide Step, Enter, Advances, Segment, Run, Rejection, Exceeds, TurnOf, Pending, Script, Denoted;
    RunStarts(frames);
    if frames == [] {
      NothingScripted();
    } else {
      var front, f := frames[..|frames| - 1], Last(frames);
      assert front + [f] == frames;
      RunIsScript(front);
      StateIsDenoted(front);
      RunExtends(frames, |front|);
      RejectedWhen(f);
      EnterDenoted(front, f);
      SegmentValid(front);
      ScriptSnoc(front, f);
      SessionDenoted(front);
      TurnOfFrame(Run(front).state, if SessionOf(front) == Some(f.session) then Segment(front) else [], f);
    }
  }

  lemma NothingScripted()
    ensures Script([]) == []
  {
  }

  lemma SessionDenoted(frames: seq<Frame>)
    ensures Denoted(SessionOf(frames), Segment(frames)).session == SessionOf(frames)
  {
  }

  // ----- One level of the book

  ghost predicate Changes(levels: seq<LevelChange>, i: int, side: Side, price: real) {
    0 <= i < |levels| && levels[i].side == side && levels[i].price == price
  }

  /** A level no change is about stays as it was. */
  lemma {:induction false} UnchangedStays(book: Book, levels: seq<LevelChange>, side: Side, price: real)
    requires forall j :: 0 <= j < |levels| ==> !Changes(levels, j, side, price)
    ensures var after, key := ApplyLevels(book, levels), (side, price);
      (key in after <==> key in book) && (key in book ==> after[key] == book[key])
    decreases levels
  {
    if levels != [] {
      var rest := levels[1..];
      assert !Changes(levels, 0, side, price);
      forall j | 0 <= j < |rest| ensures !Changes(rest, j, side, price) {
        assert !Changes(levels, j + 1, side, price);
      }
      UnchangedStays(ApplyLevel(book, levels[0]), rest, side, price);
    }
  }

  /** The last change of a price decides its level: a size other than zero stands, a deletion or a zero takes it away. */
  lemma {:induction false} LastChangeDecides(book: Book, levels: seq<LevelChange>, i: nat, side: Side, price: real)
    requires Changes(levels, i, side, price)
    requires forall j :: i < j < |levels| ==> !Changes(levels, j, side, price)
    ensures var after, key := ApplyLevels(book, levels), (side, price);
      && (key in after <==> !levels[i].deleted && levels[i].size != 0.0)
      && (key in after ==> after[key] == levels[i].size)
    decreases levels
  {
    var rest := levels[1..];
    forall j | i - 1 < j < |rest| ensures !Changes(rest, j, side, price) {
      assert !Changes(levels, j + 1, side, price);
    }
    if i == 0 {
      UnchangedStays(ApplyLevel(book, levels[0]), rest, side, price);
    } else {
      LastChangeDecides(ApplyLevel(book, levels[0]), rest, i - 1, side, price);
    }
  }

  // ----- Timing

  lemma StepTimes(st: State, f: Frame)
    requires Valid(f)
    ensures forall i :: 0 <= i < |Step(st, f).1| ==>
      var a := Step(st, f).1[i];
      && a.effectiveAvailable == f.available
      && (a.frame == f || exists k :: k in Enter(st, f).buffered && a.frame == Enter(st, f).buffered[k])
  {
  }

  lemma BufferedWereSeen(frames: seq<Frame>)
    requires AllValid(frames)
    ensures forall k :: k in Run(frames).state.buffered ==> Run(frames).state.buffered[k] in frames
  {
    StateIsDenoted(frames);
    PendingFacts(Segment(frames));
    BySequenceEntries(Pending(Segment(frames)));
    if frames != [] {
      SegmentIsMaximalSuffix(frames);
    }
  }

  ghost predicate ArriveInOrder(frames: seq<Frame>) {
    forall i, j :: 0 <= i < j < |frames| ==> frames[i].available <= frames[j].available
  }

  /** Actions in time order, none before its own frame arrived and none after `latest`. */
  ghost predicate TimelyUpTo(actions: seq<Action>, latest: int) {
    && (forall i, j :: 0 <= i < j < |actions| ==> actions[i].effectiveAvailable <= actions[j].effectiveAvailable)
    && (forall i :: 0 <= i < |actions| ==> actions[i].frame.available <= actions[i].effectiveAvailable <= latest)
  }

  lemma TimelyJoins(a: seq<Action>, b: seq<Action>, earlier: int, now: int)
    requires TimelyUpTo(a, earlier) && (a != [] ==> earlier <= now)
    requires forall i :: 0 <= i < |b| ==> b[i].frame.available <= b[i].effectiveAvailable == now
    ensures TimelyUpTo(a + b, now)
  {
  }

  lemma StepTimely(frames: seq<Frame>, f: Frame)
    requires AllValid(frames) && Valid(f)
    requires forall i :: 0 <= i < |frames| ==> frames[i].available <= f.available
    ensures forall i :: 0 <= i < |Step(Run(frames).state, f).1| ==>
      var a := Step(Run(frames).state, f).1[i];
      a.frame.available <= a.effectiveAvailable == f.available
  {
    hide Step, Run;
    var st := Run(frames).state;
    BufferedWereSeen(frames);
    StepTimes(st, f);
    forall k | k in Enter(st, f).buffered ensures Enter(st, f).buffered[k].available <= f.available {
      assert st.buffered[k] in frames;
    }
  }

  /**
   No look-ahead. When frames arrive in time order, the actions are in time order too, no action
   takes effect before its own frame arrived, and none after the frame that triggered it.
   */
  lemma {:induction false} NoLookAhead(frames: seq<Frame>)
    requires AllValid(frames) && ArriveInOrder(frames)
    ensures TimelyUpTo(Run(frames).actions, if frames == [] then 0 else Last(frames).available)
  {
    if frames == [] {
    } else {
      hide Step, TimelyUpTo, Enter;
      var front, f := frames[..|frames| - 1], Last(frames);
      NoLookAhead(front);
      StateIsDenoted(front);
      StepTimely(front, f);
      TimelyJoins(Run(front).actions, Step(Run(front).state, f).1,
                  if front == [] then 0 else Last(front).available, f.available);
    }
  }
}
