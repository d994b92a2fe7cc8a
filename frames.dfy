/** The frame assembler: a per-connection backlog of received PCM bytes is
    cut, from the front, into frames of exactly FrameBytes bytes; whatever is
    left over waits for the next receive. */
module FrameAssembler {

  type Byte = bv8

  /** One frame of 16-bit mono PCM; the frames the assembler cuts all have
      FrameBytes bytes (see AllFrames). */
  type Frame = seq<Byte>

  /** Sample rate of the incoming PCM stream, in Hz. */
  const SampleRate: nat := 16000

  /** Duration of one frame, in milliseconds. */
  const FrameMs: nat := 30

  /** Bytes in one frame: 30 ms of 16-bit samples at 16 kHz. */
  const FrameBytes: nat := 960

  /** FrameBytes is the source's SAMPLE_RATE * 2 * FRAME_MS / 1000. The source
      divides in floating point and truncates with int(); for these constants
      the division is exact, so integer division gives the same value. */
  lemma FrameBytesFromRate()
    ensures FrameBytes == SampleRate * 2 * FrameMs / 1000
    ensures (SampleRate * 2 * FrameMs) % 1000 == 0
  {
  }

  /** Concatenation is associative (stated once, so that proofs about long
      concatenations can cite it instead of rediscovering it). */
  lemma AppendAssoc<T>(a: seq<T>, b: seq<T>, c: seq<T>)
    ensures a + b + c == a + (b + c)
  {
  }

  /** Every frame has exactly FrameBytes bytes. */
  predicate AllFrames(frames: seq<Frame>)
  {
    forall f | f in frames :: |f| == FrameBytes
  }

  /** The concatenation of a list of byte strings, as b"".join does it. */
  function Join(parts: seq<seq<Byte>>): (r: seq<Byte>)
  {
    if parts == [] then [] else parts[0] + Join(parts[1..])
  }

  /** Joining is a homomorphism from concatenation of lists to concatenation
      of bytes. */
  lemma {:induction false} JoinAppend(a: seq<seq<Byte>>, b: seq<seq<Byte>>)
    ensures Join(a + b) == Join(a) + Join(b)
  {
    if a == [] {
      assert a + b == b;
    } else {
      assert (a + b)[0] == a[0];
      assert (a + b)[1..] == a[1..] + b;
      JoinAppend(a[1..], b);
    }
  }

  /** Joining whole frames gives a whole number of frames' worth of bytes. */
  lemma {:induction false} JoinOfFrames(frames: seq<Frame>)
    requires AllFrames(frames)
    ensures |Join(frames)| == |frames| * FrameBytes
    ensures |Join(frames)| % FrameBytes == 0
  {
    if frames != [] {
      assert frames[0] in frames;
      assert AllFrames(frames[1..]) by {
        forall f | f in frames[1..] ensures |f| == FrameBytes {
          assert f in frames;
        }
      }
      JoinOfFrames(frames[1..]);
    }
  }

  /** The result of slicing a backlog: the frames cut off its front, in
      order, and the remainder kept for the next receive. */
  datatype Split = Split(frames: seq<Frame>, rest: seq<Byte>)

  /** The slicing loop: while at least FrameBytes bytes remain, cut one frame
      off the front. Every frame it cuts is whole, and the remainder is too
      short to be a frame, so a partial frame is never classified; that it
      loses, duplicates and reorders no byte is ChopKeepsBytes. */
  function Chop(buf: seq<Byte>): (r: Split)
    ensures AllFrames(r.frames)
    ensures |r.rest| < FrameBytes
    decreases |buf|
  {
    if |buf| < FrameBytes then Split([], buf)
    else
      var tail := Chop(buf[FrameBytes..]);
      Split([buf[..FrameBytes]] + tail.frames, tail.rest)
  }

  /** A backlog of at least one frame loses its first frame to the next cut. */
  lemma ChopNext(buf: seq<Byte>)
    requires |buf| >= FrameBytes
    ensures Chop(buf) == Split([buf[..FrameBytes]] + Chop(buf[FrameBytes..]).frames,
                               Chop(buf[FrameBytes..]).rest)
  {
  }

  /** No byte is lost, duplicated or reordered: the frames cut, followed by
      the remainder, are the backlog. */
  lemma {:induction false} ChopKeepsBytes(buf: seq<Byte>)
    ensures Join(Chop(buf).frames) + Chop(buf).rest == buf
    decreases |buf|
  {
    if |buf| >= FrameBytes {
      var head, tail := buf[..FrameBytes], buf[FrameBytes..];
      var c := Chop(tail);
      ChopKeepsBytes(tail);
      var frames := [head] + c.frames;
      assert Chop(buf).frames == frames;
      assert frames[0] == head && frames[1..] == c.frames;
      assert Join(frames) == head + Join(c.frames);
      assert buf == head + tail;
    }
  }

  /** Chopping bytes that begin with one whole frame cuts that frame first. */
  lemma ChopFront(f: Frame, rest: seq<Byte>)
    requires |f| == FrameBytes
    ensures Chop(f + rest) == Split([f] + Chop(rest).frames, Chop(rest).rest)
  {
    var buf := f + rest;
    assert buf[..FrameBytes] == f && buf[FrameBytes..] == rest;
  }

  /** The contract of Chop determines its result: whole frames followed by a
      remainder shorter than a frame are chopped back into exactly those
      frames and that remainder. */
  lemma {:induction false} ChopUnique(frames: seq<Frame>, rest: seq<Byte>)
    requires AllFrames(frames) && |rest| < FrameBytes
    ensures Chop(Join(frames) + rest) == Split(frames, rest)
  {
    if frames == [] {
      assert Join(frames) + rest == rest;
    } else {
      var f := frames[0];
      assert f in frames;
      assert AllFrames(frames[1..]) by {
        forall g | g in frames[1..] ensures |g| == FrameBytes {
          assert g in frames;
        }
      }
      var tail := Join(frames[1..]) + rest;
      assert Join(frames) + rest == f + tail;
      ChopFront(f, tail);
      ChopUnique(frames[1..], rest);
      assert frames == [f] + frames[1..];
    }
  }

  /** Whole frames followed by a tail are the frames followed by what
      chopping the tail gives, as bytes. */
  lemma JoinBeforeChop(frames: seq<Frame>, tail: seq<Byte>)
    ensures Join(frames) + tail == Join(frames + Chop(tail).frames) + Chop(tail).rest
  {
    var c := Chop(tail);
    calc {
      Join(frames) + tail;
      { ChopKeepsBytes(tail); }
      Join(frames) + (Join(c.frames) + c.rest);
      (Join(frames) + Join(c.frames)) + c.rest;
      { JoinAppend(frames, c.frames); }
      Join(frames + c.frames) + c.rest;
    }
  }

  /** Bytes that begin with whole frames are chopped into exactly those
      frames, followed by whatever chopping the tail gives. */
  lemma ChopAfterFrames(frames: seq<Frame>, tail: seq<Byte>)
    requires AllFrames(frames)
    ensures Chop(Join(frames) + tail)
         == Split(frames + Chop(tail).frames, Chop(tail).rest)
  {
    var c := Chop(tail);
    var whole := frames + c.frames;
    assert AllFrames(whole) by {
      forall g | g in whole ensures |g| == FrameBytes {
        assert g in frames || g in c.frames;
      }
    }
    JoinBeforeChop(frames, tail);
    ChopUnique(whole, c.rest);
  }

  /** Receiving in pieces cuts the same frames as receiving everything at
      once: chopping a + b is chopping a, then chopping its remainder
      followed by b. */
  lemma ChopResume(a: seq<Byte>, b: seq<Byte>)
    ensures Chop(a + b)
         == Split(Chop(a).frames + Chop(Chop(a).rest + b).frames,
                  Chop(Chop(a).rest + b).rest)
  {
    var c := Chop(a);
    ChopKeepsBytes(a);
    assert a + b == Join(c.frames) + (c.rest + b);
    ChopAfterFrames(c.frames, c.rest + b);
  }
}
