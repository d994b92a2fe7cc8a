/** The utterance segmenter: a state machine over classified frames that
    buffers speech frames and, once a run of silence frames reaches
    SilenceThreshold, emits the buffered speech as one segment. */
module Segmenter {

  import opened FrameAssembler

  /** Trailing silence frames that end an utterance (10 x 30 ms = 300 ms). */
  const SilenceThreshold: nat := 10

  datatype Option<T> = None | Some(value: T)

  /** The segmenter's state: the speech frames buffered so far and the length
      of the silence run since the last speech frame. "Idle" is an empty
      speech buffer. */
  datatype SegState = SegState(speech: seq<Frame>, silence: nat)

  /** The state a connection starts in, and returns to after each segment. */
  const Idle: SegState := SegState([], 0)

  /** The invariant between frames: the counter stays below the threshold,
      it is 0 while nothing is buffered, and only whole frames are buffered. */
  predicate WellFormed(st: SegState)
  {
    && st.silence < SilenceThreshold
    && (st.speech == [] ==> st.silence == 0)
    && AllFrames(st.speech)
  }

  /** The new state after one frame, and the segment it completes, if any. */
  datatype StepResult = StepResult(next: SegState, segment: Option<seq<Byte>>)

  /** One pass of the per-frame body: a speech frame is buffered and resets
      the counter; a silence frame after speech counts towards the threshold
      and, on reaching it, emits the joined speech frames and resets the
      state; a silence frame while idle is ignored. */
  function Step(st: SegState, frame: Frame, speech: bool): (r: StepResult)
  {
    if speech then
      StepResult(SegState(st.speech + [frame], 0), None)
    else if st.speech != [] then
      if st.silence + 1 >= SilenceThreshold then
        StepResult(Idle, Some(Join(st.speech)))
      else
        StepResult(SegState(st.speech, st.silence + 1), None)
    else
      StepResult(st, None)
  }

  /** The segments a step emits, as a list of zero or one. */
  function Emitted(segment: Option<seq<Byte>>): (r: seq<seq<Byte>>)
  {
    if segment.Some? then [segment.value] else []
  }

  /** The final state after a run of frames, and every segment emitted on
      the way, in order. */
  datatype Trace = Trace(state: SegState, segments: seq<seq<Byte>>)

  /** Feeding frames one at a time, in order, through Step with the
      classifier's verdict on each. */
  function Run(isSpeech: Frame -> bool, st: SegState, frames: seq<Frame>): (r: Trace)
    decreases |frames|
  {
    if frames == [] then Trace(st, [])
    else
      var before := Run(isSpeech, st, frames[..|frames| - 1]);
      var last := frames[|frames| - 1];
      var s := Step(before.state, last, isSpeech(last));
      Trace(s.next, before.segments + Emitted(s.segment))
  }

  /** Running one more frame is one more step. */
  lemma RunSnoc(isSpeech: Frame -> bool, st: SegState, frames: seq<Frame>, frame: Frame)
    ensures var before := Run(isSpeech, st, frames);
      var s := Step(before.state, frame, isSpeech(frame));
      Run(isSpeech, st, frames + [frame]) == Trace(s.next, before.segments + Emitted(s.segment))
  {
    assert (frames + [frame])[..|frames|] == frames;
  }

  /** A whole frame keeps the invariant. */
  lemma StepKeepsWellFormed(st: SegState, frame: Frame, speech: bool)
    requires WellFormed(st) && |frame| == FrameBytes
    ensures WellFormed(Step(st, frame, speech).next)
  {
    var r := Step(st, frame, speech);
    if speech {
      assert forall f | f in st.speech + [frame] :: f in st.speech || f == frame;
    }
  }

  /** A speech frame is appended to the buffer, zeroes the counter and never
      completes a segment, whatever the state. */
  lemma SpeechFrameBuffers(st: SegState, frame: Frame)
    ensures Step(st, frame, true).next.speech == st.speech + [frame]
    ensures Step(st, frame, true).next.silence == 0
    ensures Step(st, frame, true).segment == None
  {
  }

  /** A silence frame while idle changes nothing and emits nothing. */
  lemma IdleSilenceIgnored(st: SegState, frame: Frame)
    requires st.speech == []
    ensures Step(st, frame, false) == StepResult(st, None)
  {
  }

  /** A silence frame after speech either counts one more silence frame and
      keeps the buffer, or, when the count reaches the threshold, emits
      exactly the buffered speech frames joined and returns to idle. */
  lemma TrailingSilence(st: SegState, frame: Frame)
    requires WellFormed(st) && st.speech != []
    ensures var r := Step(st, frame, false);
      if st.silence == SilenceThreshold - 1
      then r == StepResult(Idle, Some(Join(st.speech)))
      else r.next == SegState(st.speech, st.silence + 1) && r.segment == None
  {
  }

  /** Running a + b is running a, then running b from where a stopped. */
  lemma {:induction false} RunAppend(isSpeech: Frame -> bool, st: SegState, a: seq<Frame>, b: seq<Frame>)
    ensures var ra := Run(isSpeech, st, a);
      var rb := Run(isSpeech, ra.state, b);
      Run(isSpeech, st, a + b) == Trace(rb.state, ra.segments + rb.segments)
    decreases |b|
  {
    var ra := Run(isSpeech, st, a);
    if b == [] {
      assert a + b == a;
      assert ra.segments + [] == ra.segments;
    } else {
      var init := b[..|b| - 1];
      var last := b[|b| - 1];
      RunAppend(isSpeech, st, a, init);
      var ri := Run(isSpeech, ra.state, init);
      var s := Step(ri.state, last, isSpeech(last));
      assert Run(isSpeech, ra.state, b) == Trace(s.next, ri.segments + Emitted(s.segment));
      assert Run(isSpeech, st, a + b) == Trace(s.next, ra.segments + ri.segments + Emitted(s.segment)) by {
        assert (a + b)[..|a + b| - 1] == a + init;
        assert (a + b)[|a + b| - 1] == last;
      }
      assert ra.segments + ri.segments + Emitted(s.segment)
          == ra.segments + (ri.segments + Emitted(s.segment));
    }
  }

  /** Whole frames keep the invariant over any run. */
  lemma {:induction false} RunKeepsWellFormed(isSpeech: Frame -> bool, st: SegState, frames: seq<Frame>)
    requires WellFormed(st) && AllFrames(frames)
    ensures WellFormed(Run(isSpeech, st, frames).state)
    decreases |frames|
  {
    if frames != [] {
      var init := frames[..|frames| - 1];
      var last := frames[|frames| - 1];
      assert last in frames;
      assert AllFrames(init) by {
        forall f | f in init ensures |f| == FrameBytes {
          assert f in frames;
        }
      }
      RunKeepsWellFormed(isSpeech, st, init);
      StepKeepsWellFormed(Run(isSpeech, st, init).state, last, isSpeech(last));
    }
  }

  /** Every emitted segment is the join of at least one buffered whole
      frame: it is non-empty and a whole number of frames long. */
  lemma {:induction false} SegmentsAreWholeFrames(isSpeech: Frame -> bool, st: SegState, frames: seq<Frame>)
    requires WellFormed(st) && AllFrames(frames)
    ensures forall seg | seg in Run(isSpeech, st, frames).segments ::
      |seg| >= FrameBytes && |seg| % FrameBytes == 0
    decreases |frames|
  {
    if frames != [] {
      var init := frames[..|frames| - 1];
      var last := frames[|frames| - 1];
      assert AllFrames(init) by {
        forall f | f in init ensures |f| == FrameBytes {
          assert f in frames;
        }
      }
      SegmentsAreWholeFrames(isSpeech, st, init);
      RunKeepsWellFormed(isSpeech, st, init);
      var before := Run(isSpeech, st, init);
      var s := Step(before.state, last, isSpeech(last));
      if s.segment.Some? {
        var buffered := before.state.speech;
        assert buffered != [] && buffered[0] in buffered;
        JoinOfFrames(buffered);
        assert |buffered| >= 1;
      }
    }
  }

  /** Silence from an idle state: nothing is emitted and the state does not
      change, however long the silence lasts. */
  lemma {:induction false} IdleSilenceRun(isSpeech: Frame -> bool, st: SegState, frames: seq<Frame>)
    requires st.speech == []
    requires forall f | f in frames :: !isSpeech(f)
    ensures Run(isSpeech, st, frames) == Trace(st, [])
    decreases |frames|
  {
    if frames != [] {
      var init := frames[..|frames| - 1];
      assert frames[|frames| - 1] in frames;
      assert forall f | f in init :: f in frames;
      IdleSilenceRun(isSpeech, st, init);
    }
  }

  /** A run of speech frames is buffered after whatever was buffered before,
      leaves the counter at 0 and emits nothing. */
  lemma {:induction false} SpeechRun(isSpeech: Frame -> bool, st: SegState, frames: seq<Frame>)
    requires frames != []
    requires forall f | f in frames :: isSpeech(f)
    ensures Run(isSpeech, st, frames) == Trace(SegState(st.speech + frames, 0), [])
    decreases |frames|
  {
    var init := frames[..|frames| - 1];
    var last := frames[|frames| - 1];
    assert last in frames;
    assert frames == init + [last];
    if init == [] {
      assert Run(isSpeech, st, init) == Trace(st, []);
    } else {
      assert forall f | f in init :: f in frames;
      SpeechRun(isSpeech, st, init);
      assert st.speech + init + [last] == st.speech + frames;
    }
  }

  /** Fewer silence frames than it takes to reach the threshold only count:
      the buffer is kept and nothing is emitted. */
  lemma {:induction false} ShortSilenceRun(isSpeech: Frame -> bool, st: SegState, frames: seq<Frame>)
    requires st.speech != []
    requires st.silence + |frames| < SilenceThreshold
    requires forall f | f in frames :: !isSpeech(f)
    ensures Run(isSpeech, st, frames) == Trace(SegState(st.speech, st.silence + |frames|), [])
    decreases |frames|
  {
    if frames != [] {
      var init := frames[..|frames| - 1];
      assert frames[|frames| - 1] in frames;
      assert forall f | f in init :: f in frames;
      ShortSilenceRun(isSpeech, st, init);
    }
  }

  /** With speech buffered and the counter at 0, exactly SilenceThreshold
      silence frames emit the buffered speech, joined, as one segment and
      return the segmenter to idle. */
  lemma EndOfUtterance(isSpeech: Frame -> bool, st: SegState, frames: seq<Frame>)
    requires st.speech != [] && st.silence == 0
    requires |frames| == SilenceThreshold
    requires forall f | f in frames :: !isSpeech(f)
    ensures Run(isSpeech, st, frames) == Trace(Idle, [Join(st.speech)])
  {
    var init := frames[..|frames| - 1];
    var last := frames[|frames| - 1];
    assert last in frames;
    assert forall f | f in init :: f in frames;
    ShortSilenceRun(isSpeech, st, init);
  }

  /** Endpointing: from idle, N >= 1 speech frames followed by exactly
      SilenceThreshold silence frames emit exactly one segment, the join of
      the N speech frames (the silence frames are not part of it), and leave
      the segmenter idle. */
  lemma Endpointing(isSpeech: Frame -> bool, speech: seq<Frame>, silence: seq<Frame>)
    requires speech != [] && forall f | f in speech :: isSpeech(f)
    requires |silence| == SilenceThreshold && forall f | f in silence :: !isSpeech(f)
    ensures Run(isSpeech, Idle, speech + silence) == Trace(Idle, [Join(speech)])
  {
    var buffered := SegState(speech, 0);
    assert Run(isSpeech, Idle, speech) == Trace(buffered, []) by {
      SpeechRun(isSpeech, Idle, speech);
      assert Idle.speech + speech == speech;
    }
    assert Run(isSpeech, buffered, silence) == Trace(Idle, [Join(speech)]) by {
      EndOfUtterance(isSpeech, buffered, silence);
    }
    RunAppend(isSpeech, Idle, speech, silence);
    assert [] + [Join(speech)] == [Join(speech)];
  }

  /** Early re-speech: a silence run that stops short of the threshold and
      is followed by a speech frame emits nothing; the counter is back to 0
      and the new frame joins the same utterance. */
  lemma EarlySpeechResets(isSpeech: Frame -> bool, st: SegState, silence: seq<Frame>, frame: Frame)
    requires st.speech != []
    requires st.silence + |silence| < SilenceThreshold
    requires forall f | f in silence :: !isSpeech(f)
    requires isSpeech(frame)
    ensures Run(isSpeech, st, silence + [frame]) == Trace(SegState(st.speech + [frame], 0), [])
  {
    RunAppend(isSpeech, st, silence, [frame]);
    ShortSilenceRun(isSpeech, st, silence);
    assert Run(isSpeech, SegState(st.speech, st.silence + |silence|), [frame])
        == Trace(SegState(st.speech + [frame], 0), []) by {
      assert [frame][..0] == [];
    }
  }
}
