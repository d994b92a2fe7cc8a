/** One connection's audio pipeline as its receive loop runs it: received
    bytes are appended to the backlog, whole frames are cut off its front and
    classified one at a time, and each completed segment is transcribed and
    answered before the next frame is looked at. */
module Connection {

  import opened FrameAssembler
  import opened Segmenter
  import opened TurnOutput

  /** The per-connection state of the receive loop. */
  class Session {

    /** The voice-activity classifier, the speech recogniser and the reply
        generator: capabilities the connection calls but does not implement. */
    const isSpeech: Frame -> bool
    const transcribe: seq<Byte> -> string
    const generate: string -> seq<string>

    /** Received bytes not yet cut into a frame. */
    var buffer: seq<Byte>
    /** Speech frames of the utterance in progress. */
    var speechFrames: seq<Frame>
    /** Silence frames since the last speech frame. */
    var silenceFrames: nat
    /** Text messages sent to the client, in order. */
    var sent: seq<string>

    /** Every byte received so far. */
    ghost var received: seq<Byte>
    /** Every frame cut so far. */
    ghost var frames: seq<Frame>
    /** Every segment completed so far. */
    ghost var emitted: seq<seq<Byte>>
    /** Every prompt given to the generator so far. */
    ghost var prompts: seq<string>

    /** The segmenter's part of the state. */
    function State(): (r: SegState)
      reads this
    {
      SegState(speechFrames, silenceFrames)
    }

    /** The session is the pipeline applied to everything received: the
        frames and the backlog are the chopped input, the segmenter state and
        the segments are the run over those frames from idle, and the
        messages and prompts are the turns of those segments. */
    ghost predicate Valid()
      reads this
    {
      && Chop(received) == Split(frames, buffer)
      && Run(isSpeech, Idle, frames) == Trace(State(), emitted)
      && WellFormed(State())
      && sent == Replies(transcribe, generate, emitted)
      && prompts == Prompts(transcribe, emitted)
    }

    /** A freshly accepted connection: empty backlog, idle segmenter,
        nothing sent. */
    constructor (isSpeech: Frame -> bool, transcribe: seq<Byte> -> string,
                 generate: string -> seq<string>)
      ensures Valid()
      ensures this.isSpeech == isSpeech && this.transcribe == transcribe
      ensures this.generate == generate
      ensures buffer == [] && State() == Idle && sent == []
      ensures received == [] && frames == [] && emitted == [] && prompts == []
    {
      this.isSpeech := isSpeech;
      this.transcribe := transcribe;
      this.generate := generate;
      buffer := [];
      speechFrames := [];
      silenceFrames := 0;
      sent := [];
      received := [];
      frames := [];
      emitted := [];
      prompts := [];
    }

    /** One turn: transcribe the segment; if the transcript is not empty,
        send it, prompt the generator with it and send each non-empty token
        of the reply as it comes. */
    method Respond(segment: seq<Byte>)
      modifies this`sent, this`prompts
      ensures sent == old(sent) + Turn(transcribe, generate, segment)
      ensures prompts == old(prompts) + Prompt(transcribe, segment)
    {
      var text := transcribe(segment);
      if text != "" {
        sent := sent + [text];
        prompts := prompts + [text];
        var reply := generate(text);
        for i := 0 to |reply|
          invariant sent == old(sent) + [text] + NonEmpty(reply[..i])
          invariant prompts == old(prompts) + [text]
        {
          var token := reply[i];
          if token != "" {
            sent := sent + [token];
          }
          NonEmptyPrefix(reply, i);
          AppendAssoc(old(sent) + [text], NonEmpty(reply[..i]), if token != "" then [token] else []);
        }
        assert reply[..|reply|] == reply;
      }
    }

    /** The body of the slicing loop for one frame: classify it and update
        the segmenter; when the frame completes a segment, run its turn and
        reset the segmenter. */
    method OnFrame(frame: Frame)
      modifies this`speechFrames, this`silenceFrames, this`sent, this`emitted, this`prompts
      ensures var s := Step(old(State()), frame, isSpeech(frame));
        && State() == s.next
        && emitted == old(emitted) + Emitted(s.segment)
        && sent == old(sent) + Replies(transcribe, generate, Emitted(s.segment))
        && prompts == old(prompts) + Prompts(transcribe, Emitted(s.segment))
    {
      if isSpeech(frame) {
        speechFrames := speechFrames + [frame];
        silenceFrames := 0;
      } else if speechFrames != [] {
        silenceFrames := silenceFrames + 1;
        if silenceFrames >= SilenceThreshold {
          var segment := Join(speechFrames);
          Respond(segment);
          emitted := emitted + [segment];
          speechFrames := [];
          silenceFrames := 0;
          RepliesOne(transcribe, generate, segment);
        }
      }
    }

    /** One receive: append the data to the backlog, then cut and process
        frames while a whole frame remains. The frames cut are exactly those
        Chop gives for the old backlog followed by the data, so the new
        frames followed by the new backlog are the old backlog followed by
        the data; the session stays the pipeline applied to everything
        received. */
    method Push(data: seq<Byte>)
      requires Valid()
      modifies this
      ensures Valid()
      ensures received == old(received) + data
      ensures frames == old(frames) + Chop(old(buffer) + data).frames
      ensures buffer == Chop(old(buffer) + data).rest
      ensures var t := Run(isSpeech, old(State()), Chop(old(buffer) + data).frames);
        && State() == t.state
        && emitted == old(emitted) + t.segments
        && sent == old(sent) + Replies(transcribe, generate, t.segments)
        && prompts == old(prompts) + Prompts(transcribe, t.segments)
    {
      received := received + data;
      buffer := buffer + data;
      ChopResume(old(received), data);
      while |buffer| >= FrameBytes
        invariant received == old(received) + data
        invariant Chop(received) == Split(frames + Chop(buffer).frames, Chop(buffer).rest)
        invariant Run(isSpeech, Idle, frames) == Trace(State(), emitted)
        invariant sent == Replies(transcribe, generate, emitted)
        invariant prompts == Prompts(transcribe, emitted)
        decreases |buffer|
      {
        var frame := buffer[..FrameBytes];
        ghost var whole := buffer;
        buffer := buffer[FrameBytes..];
        assert Chop(received) == Split(frames + [frame] + Chop(buffer).frames, Chop(buffer).rest) by {
          ChopNext(whole);
          AppendAssoc(frames, [frame], Chop(buffer).frames);
        }
        ghost var emitted0 := emitted;
        OnFrame(frame);
        ghost var e := Step(Run(isSpeech, Idle, frames).state, frame, isSpeech(frame)).segment;
        RunSnoc(isSpeech, Idle, frames, frame);
        RepliesAppend(transcribe, generate, emitted0, Emitted(e));
        PromptsAppend(transcribe, emitted0, Emitted(e));
        frames := frames + [frame];
      }
      assert Chop(received) == Split(frames, buffer) by {
        assert frames + [] == frames;
      }
      RunKeepsWellFormed(isSpeech, Idle, frames);
      ghost var t := Run(isSpeech, old(State()), Chop(old(buffer) + data).frames);
      assert Run(isSpeech, Idle, frames) == Trace(t.state, old(emitted) + t.segments) by {
        RunAppend(isSpeech, Idle, old(frames), Chop(old(buffer) + data).frames);
      }
      RepliesAppend(transcribe, generate, old(emitted), t.segments);
      PromptsAppend(transcribe, old(emitted), t.segments);
    }
  }

  /** The end-to-end scenario, on the pipeline's functions: 40 speech frames
      then 10 silence frames, with the recogniser hearing "hello there" and
      the generator replying "Hi", " there", "!", give exactly the transcript
      and then the three tokens. */
  lemma HelloThereReplies(isSpeech: Frame -> bool, transcribe: seq<Byte> -> string,
                          generate: string -> seq<string>,
                          speech: seq<Frame>, silence: seq<Frame>)
    requires |speech| == 40 && AllFrames(speech) && forall f | f in speech :: isSpeech(f)
    requires |silence| == SilenceThreshold && AllFrames(silence)
    requires forall f | f in silence :: !isSpeech(f)
    requires transcribe(Join(speech)) == "hello there"
    requires generate("hello there") == ["Hi", " there", "!"]
    ensures Replies(transcribe, generate,
                    Run(isSpeech, Idle, Chop(Join(speech + silence)).frames).segments)
         == ["hello there", "Hi", " there", "!"]
  {
    var audio := speech + silence;
    var segment := Join(speech);
    assert Run(isSpeech, Idle, Chop(Join(audio)).frames) == Trace(Idle, [segment]) by {
      assert AllFrames(audio) by {
        forall g | g in audio ensures |g| == FrameBytes {
          assert g in speech || g in silence;
        }
      }
      assert Chop(Join(audio)).frames == audio by {
        ChopUnique(audio, []);
        assert Join(audio) + [] == Join(audio);
      }
      Endpointing(isSpeech, speech, silence);
    }
    HelloThereReply();
    RepliesOne(transcribe, generate, segment);
  }

  /** The same scenario on a session: the audio arrives in one receive. */
  method HelloThere(isSpeech: Frame -> bool, transcribe: seq<Byte> -> string,
                    generate: string -> seq<string>,
                    speech: seq<Frame>, silence: seq<Frame>)
    returns (sent: seq<string>)
    requires |speech| == 40 && AllFrames(speech) && forall f | f in speech :: isSpeech(f)
    requires |silence| == SilenceThreshold && AllFrames(silence)
    requires forall f | f in silence :: !isSpeech(f)
    requires transcribe(Join(speech)) == "hello there"
    requires generate("hello there") == ["Hi", " there", "!"]
    ensures sent == ["hello there", "Hi", " there", "!"]
  {
    var session := new Session(isSpeech, transcribe, generate);
    var audio := Join(speech + silence);
    session.Push(audio);
    assert session.received == audio;
    HelloThereReplies(isSpeech, transcribe, generate, speech, silence);
    sent := session.sent;
  }
}
