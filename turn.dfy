/** What one completed segment sends to the client: its transcript, then the
    generated reply token by token, or nothing at all when the transcript is
    empty. */
module TurnOutput {

  import opened FrameAssembler

  /** The tokens that are sent: the non-empty ones, in their order. */
  function NonEmpty(tokens: seq<string>): (r: seq<string>)
    decreases |tokens|
  {
    if tokens == [] then []
    else
      var last := tokens[|tokens| - 1];
      NonEmpty(tokens[..|tokens| - 1]) + (if last != "" then [last] else [])
  }

  /** The messages one turn sends, given the transcript and the reply's
      token stream. */
  function Reply(transcript: string, tokens: seq<string>): (r: seq<string>)
  {
    if transcript == "" then [] else [transcript] + NonEmpty(tokens)
  }

  /** One turn for a segment: transcribe it and, if there is anything to
      say, prompt the generator with the transcript. */
  function Turn(transcribe: seq<Byte> -> string, generate: string -> seq<string>,
                segment: seq<Byte>): (r: seq<string>)
  {
    var text := transcribe(segment);
    Reply(text, generate(text))
  }

  /** The prompts one turn gives the generator: the transcript, unless it is
      empty, in which case the generator is not called. */
  function Prompt(transcribe: seq<Byte> -> string, segment: seq<Byte>): (r: seq<string>)
  {
    var text := transcribe(segment);
    if text == "" then [] else [text]
  }

  /** All messages sent for a list of segments, turn after turn. */
  function Replies(transcribe: seq<Byte> -> string, generate: string -> seq<string>,
                   segments: seq<seq<Byte>>): (r: seq<string>)
    decreases |segments|
  {
    if segments == [] then []
    else
      Replies(transcribe, generate, segments[..|segments| - 1])
      + Turn(transcribe, generate, segments[|segments| - 1])
  }

  /** All prompts given to the generator for a list of segments. */
  function Prompts(transcribe: seq<Byte> -> string, segments: seq<seq<Byte>>): (r: seq<string>)
    decreases |segments|
  {
    if segments == [] then []
    else
      Prompts(transcribe, segments[..|segments| - 1])
      + Prompt(transcribe, segments[|segments| - 1])
  }

  /** Looking at one more token of the stream sends it if it is not empty. */
  lemma NonEmptyPrefix(tokens: seq<string>, i: nat)
    requires i < |tokens|
    ensures NonEmpty(tokens[..i + 1])
         == NonEmpty(tokens[..i]) + (if tokens[i] != "" then [tokens[i]] else [])
  {
    assert tokens[..i + 1][..i] == tokens[..i];
  }

  /** The messages of a single segment are that segment's turn. */
  lemma RepliesOne(transcribe: seq<Byte> -> string, generate: string -> seq<string>,
                   segment: seq<Byte>)
    ensures Replies(transcribe, generate, [segment]) == Turn(transcribe, generate, segment)
    ensures Prompts(transcribe, [segment]) == Prompt(transcribe, segment)
  {
    assert [segment][..0] == [];
  }

  /** Filtering distributes over concatenation, so the order of the kept
      tokens is the order of the stream. */
  lemma {:induction false} NonEmptyAppend(a: seq<string>, b: seq<string>)
    ensures NonEmpty(a + b) == NonEmpty(a) + NonEmpty(b)
    decreases |b|
  {
    if b == [] {
      assert a + b == a;
    } else {
      var init := b[..|b| - 1];
      var last := b[|b| - 1];
      assert (a + b)[..|a + b| - 1] == a + init;
      assert (a + b)[|a + b| - 1] == last;
      NonEmptyAppend(a, init);
      var kept := if last != "" then [last] else [];
      assert NonEmpty(a) + NonEmpty(init) + kept == NonEmpty(a) + (NonEmpty(init) + kept);
    }
  }

  /** A token is sent exactly when it occurs in the stream and is not empty. */
  lemma {:induction false} NonEmptyMembers(tokens: seq<string>, t: string)
    ensures t in NonEmpty(tokens) <==> t in tokens && t != ""
    decreases |tokens|
  {
    if tokens != [] {
      var init := tokens[..|tokens| - 1];
      var last := tokens[|tokens| - 1];
      assert tokens == init + [last];
      NonEmptyMembers(init, t);
    }
  }

  /** A stream without empty tokens is sent whole. */
  lemma {:induction false} NonEmptyKeepsAll(tokens: seq<string>)
    requires forall i | 0 <= i < |tokens| :: tokens[i] != ""
    ensures NonEmpty(tokens) == tokens
    decreases |tokens|
  {
    if tokens != [] {
      var init := tokens[..|tokens| - 1];
      NonEmptyKeepsAll(init);
      assert init + [tokens[|tokens| - 1]] == tokens;
    }
  }

  /** Only non-empty tokens are sent. */
  lemma {:induction false} NonEmptyHasNoEmpty(tokens: seq<string>)
    ensures "" !in NonEmpty(tokens)
    ensures |NonEmpty(tokens)| <= |tokens|
    decreases |tokens|
  {
    if tokens != [] {
      NonEmptyHasNoEmpty(tokens[..|tokens| - 1]);
    }
  }

  /** An empty transcript sends nothing, whatever the reply would have been. */
  lemma EmptyTranscriptIsSilent(tokens: seq<string>)
    ensures Reply("", tokens) == []
  {
  }

  /** A non-empty transcript is sent first, followed by exactly the
      non-empty tokens of the reply stream, in order. */
  lemma TranscriptThenTokens(transcript: string, tokens: seq<string>)
    requires transcript != ""
    ensures var r := Reply(transcript, tokens);
      && |r| >= 1 && r[0] == transcript
      && (forall i | 1 <= i < |r| :: r[i] != "")
      && (forall t :: t in r[1..] <==> t in tokens && t != "")
  {
    var r := Reply(transcript, tokens);
    assert r[1..] == NonEmpty(tokens);
    NonEmptyHasNoEmpty(tokens);
    forall t ensures t in r[1..] <==> t in tokens && t != "" {
      NonEmptyMembers(tokens, t);
    }
    forall i | 1 <= i < |r| ensures r[i] != "" {
      assert r[i] == r[1..][i - 1];
    }
  }

  /** The reply of the end-to-end scenario: transcript "hello there",
      tokens "Hi", " there", "!". */
  lemma HelloThereReply()
    ensures Reply("hello there", ["Hi", " there", "!"]) == ["hello there", "Hi", " there", "!"]
  {
    var tokens := ["Hi", " there", "!"];
    assert |tokens[1]| == 6;
    NonEmptyKeepsAll(tokens);
  }

  /** Turns are sent in the order their segments were emitted: the messages
      of earlier segments all come before those of later ones. */
  lemma {:induction false} RepliesAppend(transcribe: seq<Byte> -> string, generate: string -> seq<string>,
                                         a: seq<seq<Byte>>, b: seq<seq<Byte>>)
    ensures Replies(transcribe, generate, a + b)
         == Replies(transcribe, generate, a) + Replies(transcribe, generate, b)
    decreases |b|
  {
    if b == [] {
      assert a + b == a;
    } else {
      var init := b[..|b| - 1];
      var last := b[|b| - 1];
      assert (a + b)[..|a + b| - 1] == a + init;
      assert (a + b)[|a + b| - 1] == last;
      RepliesAppend(transcribe, generate, a, init);
      var ra := Replies(transcribe, generate, a);
      var ri := Replies(transcribe, generate, init);
      var t := Turn(transcribe, generate, last);
      assert ra + ri + t == ra + (ri + t);
    }
  }

  /** The generator is prompted in the order the segments were emitted. */
  lemma {:induction false} PromptsAppend(transcribe: seq<Byte> -> string, a: seq<seq<Byte>>, b: seq<seq<Byte>>)
    ensures Prompts(transcribe, a + b) == Prompts(transcribe, a) + Prompts(transcribe, b)
    decreases |b|
  {
    if b == [] {
      assert a + b == a;
    } else {
      var init := b[..|b| - 1];
      var last := b[|b| - 1];
      assert (a + b)[..|a + b| - 1] == a + init;
      assert (a + b)[|a + b| - 1] == last;
      PromptsAppend(transcribe, a, init);
      var pa := Prompts(transcribe, a);
      var pi := Prompts(transcribe, init);
      var p := Prompt(transcribe, last);
      assert pa + pi + p == pa + (pi + p);
    }
  }

  /** Every prompt given to the generator is a non-empty transcript that was
      also sent to the client. */
  lemma {:induction false} PromptsAreSentTranscripts(transcribe: seq<Byte> -> string,
                                                     generate: string -> seq<string>,
                                                     segments: seq<seq<Byte>>)
    ensures forall p | p in Prompts(transcribe, segments) ::
      p != "" && p in Replies(transcribe, generate, segments)
    decreases |segments|
  {
    if segments != [] {
      var init := segments[..|segments| - 1];
      var last := segments[|segments| - 1];
      PromptsAreSentTranscripts(transcribe, generate, init);
      var text := transcribe(last);
      if text != "" {
        assert Turn(transcribe, generate, last)[0] == text;
      }
    }
  }
}
