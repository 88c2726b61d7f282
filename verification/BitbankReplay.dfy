/**
 The bitbank `depth_whole` / `depth_diff` replay rules: frames are interpreted in
 the order they arrived on the wire, diffs wait in a buffer for their whole, and
 every whole rebases the book.
 */
module BitbankReplay {
  import opened Options
  import opened Sorting

  const DELTA := "delta"
  const SNAPSHOT := "snapshot"

  datatype Side = Ask | Bid

  datatype LevelChange = LevelChange(side: Side, price: real, size: real, deleted: bool)

  /** `sequence` is `None` when the wire carried no usable sequence number. */
  datatype Frame = Frame(
    session: string, kind: string, sequence: Option<int>, available: int, levels: seq<LevelChange>)

  datatype Action = Action(
    frame: Frame, sessionChanged: bool, applyLevels: bool, resetBook: bool,
    attributeChanges: bool, effectiveAvailable: int)

  datatype ReplayError = MissingSequence | UnsupportedKind(kind: string)

  /** The four variables the generator carries from frame to frame. */
  datatype State = State(
    session: Option<string>, whole: Option<int>, buffered: map<int, Frame>, previous: map<string, int>)

  const INITIAL := State(None, None, map[], map[])

  /** What has been yielded so far, and the exception that ended the run, if any. */
  datatype Replay = Replay(state: State, actions: seq<Action>, error: Option<ReplayError>)

  predicate Valid(f: Frame) {
    f.sequence.Some? && f.kind in {DELTA, SNAPSHOT}
  }

  predicate AllValid(frames: seq<Frame>) {
    forall i :: 0 <= i < |frames| ==> Valid(frames[i])
  }

  function Rejection(f: Frame): Option<ReplayError> {
    if f.sequence.None? then Some(MissingSequence)
    else if f.kind !in {DELTA, SNAPSHOT} then Some(UnsupportedKind(f.kind))
    else None
  }

  /** A frame of a new session starts from an empty state. */
  function Enter(st: State, f: Frame): State {
    if st.session == Some(f.session) then st else INITIAL.(session := Some(f.session))
  }

  predicate SessionChanged(st: State, f: Frame) {
    st.session.Some? && st.session.value != f.session
  }

  function Newer(buffered: map<int, Frame>, sequence: int): map<int, Frame> {
    map s | s in buffered && s > sequence :: buffered[s]
  }

  function Rebased(f: Frame, at: int): Action {
    Action(f, false, true, false, false, at)
  }

  /** The buffered frames named by `keys`, replayed at time `at`. */
  function RebasedAll(keys: seq<int>, buffered: map<int, Frame>, at: int): (r: seq<Action>)
    requires forall i :: 0 <= i < |keys| ==> keys[i] in buffered
    ensures |r| == |keys|
    ensures forall i :: 0 <= i < |r| ==> r[i] == Rebased(buffered[keys[i]], at)
  {
    if keys == [] then []
    else [Rebased(buffered[keys[0]], at)] + RebasedAll(keys[1..], buffered, at)
  }

  /** One turn of the loop on a frame the generator does not reject. */
  function Step(st: State, f: Frame): (r: (State, seq<Action>))
    requires Valid(f)
  {
    var changed := SessionChanged(st, f);
    var now := Enter(st, f);
    var sequence := f.sequence.value;
    if f.kind in now.previous && sequence <= now.previous[f.kind] then
      (now, [Action(f, changed, false, false, false, f.available)])
    else
      var seen := now.(previous := now.previous[f.kind := sequence]);
      if f.kind == SNAPSHOT then
        var kept := Newer(now.buffered, sequence);
        (seen.(whole := Some(sequence), buffered := kept),
         [Action(f, changed, true, true, false, f.available)]
         + RebasedAll(SortedKeys(kept.Keys), kept, f.available))
      else if now.whole.None? then
        (seen.(buffered := now.buffered[sequence := f]), [Action(f, changed, false, false, false, f.available)])
      else if sequence <= now.whole.value then
        (seen, [Action(f, changed, false, false, false, f.available)])
      else
        (seen.(buffered := now.buffered[sequence := f]), [Action(f, changed, true, false, true, f.available)])
  }

  /** The run over a whole stream; a rejected frame ends it after what was yielded before. */
  function Run(frames: seq<Frame>): Replay {
    if frames == [] then Replay(INITIAL, [], None)
    else
      var before := Run(frames[..|frames| - 1]);
      var f := frames[|frames| - 1];
      if before.error.Some? then before
      else if Rejection(f).Some? then Replay(Enter(before.state, f), before.actions, Rejection(f))
      else
        var (st, actions) := Step(before.state, f);
        Replay(st, before.actions + actions, None)
  }

  lemma RunStarts(frames: seq<Frame>)
    ensures Run(frames[..0]) == Replay(INITIAL, [], None)
    ensures frames[..|frames|] == frames
  {
  }

  lemma RunExtends(frames: seq<Frame>, at: nat)
    requires at < |frames| && Run(frames[..at]).error == None
    ensures Rejection(frames[at]) == None ==>
      var (st, actions) := Step(Run(frames[..at]).state, frames[at]);
      Run(frames[..at + 1]) == Replay(st, Run(frames[..at]).actions + actions, None)
    ensures Rejection(frames[at]).Some? ==>
      && Run(frames[..at + 1]).actions == Run(frames[..at]).actions
      && Run(frames[..at + 1]).error == Rejection(frames[at])
  {
    assert frames[..at + 1][..at] == frames[..at];
  }

  /** Once a frame has been rejected no later frame is looked at. */
  lemma {:induction false} RejectedForGood(frames: seq<Frame>, more: seq<Frame>)
    requires Run(frames).error.Some?
    ensures Run(frames + more) == Run(frames)
  {
    if more == [] {
      assert frames + more == frames;
    } else {
      hide Step, Enter, Rejection;
      assert (frames + more)[..|frames + more| - 1] == frames + more[..|more| - 1];
      RejectedForGood(frames, more[..|more| - 1]);
    }
  }

  /** A missing sequence is rejected first, then an unknown kind; every other frame is taken. */
  lemma RejectedWhen(f: Frame)
    ensures f.sequence.None? ==> Rejection(f) == Some(MissingSequence)
    ensures f.sequence.Some? && f.kind != "delta" && f.kind != "snapshot" ==>
      Rejection(f) == Some(UnsupportedKind(f.kind))
    ensures f.sequence.Some? && (f.kind == "delta" || f.kind == "snapshot") ==> Rejection(f) == None
    ensures Valid(f) <==> Rejection(f) == None
  {
  }

  lemma Assembled(before: seq<Action>, own: seq<Action>, replays: seq<Action>)
    ensures before + own + replays[..|replays|] == before + (own + replays)
  {
  }

  lemma OneMore(before: seq<Action>, replays: seq<Action>, k: nat)
    requires k < |replays|
    ensures before + replays[..k] + [replays[k]] == before + replays[..k + 1]
  {
  }

  /** The generator itself, with its yields collected. */
  method BitbankReplayActions(frames: seq<Frame>) returns (actions: seq<Action>, error: Option<ReplayError>)
    ensures actions == Run(frames).actions && error == Run(frames).error
  {
    hide Run, RebasedAll, SortedKeys, Rejection;
    RunStarts(frames);
    var currentSession: Option<string> := None;
    var wholeSequence: Option<int> := None;
    var buffered: map<int, Frame> := map[];
    var previousByKind: map<string, int> := map[];
    actions, error := [], None;
    for at := 0 to |frames|
      invariant error == None
      invariant Run(frames[..at])
             == Replay(State(currentSession, wholeSequence, buffered, previousByKind), actions, None)
    {
      RunExtends(frames, at);
      ghost var st := State(currentSession, wholeSequence, buffered, previousByKind);
      var frame := frames[at];
      var changed := currentSession.Some? && frame.session != currentSession.value;
      if currentSession.None? || changed {
        currentSession := Some(frame.session);
        wholeSequence := None;
        buffered := map[];
        previousByKind := map[];
      }
      assert State(currentSession, wholeSequence, buffered, previousByKind) == Enter(st, frame);
      RejectedWhen(frame);
      if frame.sequence.None? {
        RejectedForGood(frames[..at + 1], frames[at + 1..]);
        assert frames[..at + 1] + frames[at + 1..] == frames;
        return actions, Some(MissingSequence);
      }
      if frame.kind !in {DELTA, SNAPSHOT} {
        RejectedForGood(frames[..at + 1], frames[at + 1..]);
        assert frames[..at + 1] + frames[at + 1..] == frames;
        return actions, Some(UnsupportedKind(frame.kind));
      }
      var sequence := frame.sequence.value;
      if frame.kind in previousByKind && sequence <= previousByKind[frame.kind] {
        actions := actions + [Action(frame, changed, false, false, false, frame.available)];
        continue;
      }
      previousByKind := previousByKind[frame.kind := sequence];
      if frame.kind == DELTA {
        if wholeSequence.None? {
          buffered := buffered[sequence := frame];
          actions := actions + [Action(frame, changed, false, false, false, frame.available)];
        } else if sequence <= wholeSequence.value {
          actions := actions + [Action(frame, changed, false, false, false, frame.available)];
        } else {
          buffered := buffered[sequence := frame];
          actions := actions + [Action(frame, changed, true, false, true, frame.available)];
        }
        continue;
      }
      wholeSequence := Some(sequence);
      ghost var own := [Action(frame, changed, true, true, false, frame.available)];
      ghost var yielded := actions + own;
      actions := actions + [Action(frame, changed, true, true, false, frame.available)];
      buffered := map s | s in buffered && s > sequence :: buffered[s];
      var keys := SortedKeys(buffered.Keys);
      ghost var rebased := RebasedAll(keys, buffered, frame.available);
      for k := 0 to |keys|
        invariant actions == yielded + rebased[..k]
      {
        actions := actions + [Action(buffered[keys[k]], false, true, false, false, frame.available)];
        OneMore(yielded, rebased, k);
      }
      Assembled(Run(frames[..at]).actions, own, rebased);
    }
  }
}
