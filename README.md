# live-voice-ai: the audio segmentation loop, in Dafny

This project models `process_audio_stream` in `api/main.py`. That is the
per-connection loop of a real-time voice assistant. The client streams raw
16 kHz, 16-bit mono PCM over a websocket. The server:

- cuts the stream into 30 ms frames of 960 bytes;
- classifies each frame as speech or silence;
- buffers speech frames until 10 consecutive silence frames (300 ms) end the
  utterance;
- transcribes the joined speech frames;
- if the transcript is not empty, sends it back, prompts a language model
  with it, and streams every non-empty reply token back.

The model has four modules, one per part of the loop:

- `FrameAssembler` (`frames.dfy`) is the backlog slicer. `Chop` cuts whole
  frames off the front of a backlog and keeps the remainder. The lemmas say
  that every frame has 960 bytes, that no byte is lost, duplicated or
  reordered, and that the remainder is shorter than a frame. They also say
  that the cut is unique, and that receiving in pieces gives the same frames
  as receiving everything at once.
- `Segmenter` (`segmenter.dfy`) is the speech/silence state machine. `Step`
  is one pass of the per-frame body. `Run` feeds a list of frames through
  `Step`. The lemmas give the invariant between frames, the idle-silence
  no-op, the speech-frame rule, endpointing, and how early speech resets the
  count.
- `TurnOutput` (`turn.dfy`) is the rule for what one completed segment
  sends. An empty transcript sends nothing. Otherwise the transcript is sent,
  followed by the non-empty tokens in order. This module also says which
  prompts reach the generator.
- `Connection` (`session.dfy`) holds the imperative loop itself. Class
  `Session` has the fields the Python function keeps in local variables:
  `buffer`, `speechFrames`, `silenceFrames`, and the outbound message list
  `sent`. `Push` is one `receive_bytes` plus the slicing `while` loop.
  `OnFrame` is the loop body. `Respond` is the transcribe-and-stream block
  with its token loop.

`Session.Valid()` states the invariant of a connection. The session is the
pipeline applied to every byte received so far:

- its frames and backlog are `Chop(received)`;
- its segmenter state and segments are `Run` over those frames from `Idle`;
- its sent messages are the turns of those segments.

The classifier, the recogniser and the language model are capabilities the
loop calls but does not implement. They are the `const` fields `isSpeech`,
`transcribe` and `generate` of `Session`, given to its constructor.

Three facts about the code shape the model:

- A turn runs inline. The loop blocks on the transcription and awaits the
  whole token stream before it looks at the next frame (api/main.py:62-83).
  `OnFrame` therefore runs `Respond` to completion before it returns.
- No error is turned into an empty transcript. Only `WebSocketDisconnect` is
  caught (api/main.py:91), so any other exception ends the connection. The
  model has no error path: the source handles no error except the
  disconnect, which is left out with the transport.
- Pauses inside an utterance are cut from the segment audio, because only
  speech frames are buffered. `EarlySpeechResets` states this for a pause
  under the threshold. `Endpointing` states it for the silence run that ends
  the utterance.

## Model

| member | source | states |
|---|---|---|
| `FrameAssembler.FrameBytesFromRate` | api/main.py:16-32 | FRAME_BYTES is 16000 * 2 * 30 / 1000 = 960, and that division is exact, so the source's float division and int() truncation lose nothing |
| `FrameAssembler.Join` | api/main.py:59 | definition of b"".join over a list of byte strings; its properties are JoinAppend, JoinOfFrames, ChopKeepsBytes and ChopUnique |
| `FrameAssembler.JoinAppend` | api/main.py:59 | b"".join of two lists in sequence is the join of the first followed by the join of the second |
| `FrameAssembler.JoinOfFrames` | api/main.py:59 | joining n whole frames gives exactly n * 960 bytes, a multiple of the frame size |
| `FrameAssembler.Chop` | api/main.py:45-47 | every frame the slicing loop cuts has exactly FRAME_BYTES bytes, and the backlog it leaves is shorter than FRAME_BYTES, so a partial frame is never classified |
| `FrameAssembler.ChopNext` | api/main.py:45-47 | while at least one frame's worth remains, the next frame is the first FRAME_BYTES bytes and slicing goes on from the rest |
| `FrameAssembler.ChopKeepsBytes` | api/main.py:42-47 | no byte is lost, duplicated or reordered: the frames cut, joined, followed by the leftover backlog, are the backlog the loop started with |
| `FrameAssembler.ChopFront` | api/main.py:45-47 | bytes that start with one whole frame have that frame cut first |
| `FrameAssembler.ChopUnique` | api/main.py:45-47 | the slicing is fully determined: any whole frames followed by fewer than FRAME_BYTES bytes are cut back into exactly those frames and that remainder |
| `FrameAssembler.ChopAfterFrames` | api/main.py:45-47 | bytes that start with whole frames are cut into those frames, then whatever cutting the tail gives |
| `FrameAssembler.ChopResume` | api/main.py:40-47 | receiving a then b cuts the same frames and leaves the same backlog as receiving a + b at once, since the remainder of one receive is prefixed to the next |
| `Segmenter.Step` | api/main.py:49-89 | definition of one frame's transition (speech, silence after speech, idle silence); its properties are StepKeepsWellFormed, SpeechFrameBuffers, IdleSilenceIgnored and TrailingSilence |
| `Segmenter.StepKeepsWellFormed` | api/main.py:35-89 | one whole frame keeps the invariant between frames: 0 <= silence_frames < SILENCE_THRESHOLD, silence_frames == 0 while speech_frames is empty, and only whole frames are buffered |
| `Segmenter.SpeechFrameBuffers` | api/main.py:49-52 | a speech frame is appended to speech_frames, sets silence_frames to 0 and never completes a segment, whatever the state |
| `Segmenter.IdleSilenceIgnored` | api/main.py:54-89 | a silence frame while speech_frames is empty changes neither speech_frames nor silence_frames and emits nothing |
| `Segmenter.TrailingSilence` | api/main.py:54-87 | a silence frame after speech either counts one more silence frame and keeps the buffer, or, as the count reaches SILENCE_THRESHOLD, emits the buffered frames joined and resets the state to empty / 0 |
| `Segmenter.Run` | api/main.py:45-89 | definition of the frame loop: Step applied to each frame in order, collecting the segments emitted; its properties are RunSnoc, RunAppend, RunKeepsWellFormed, SegmentsAreWholeFrames, IdleSilenceRun, SpeechRun, ShortSilenceRun, EndOfUtterance, Endpointing and EarlySpeechResets |
| `Segmenter.RunSnoc` | api/main.py:45-89 | processing one more frame is one more pass of the per-frame body on the state the earlier frames left |
| `Segmenter.RunAppend` | api/main.py:45-89 | processing frames a then b is processing a + b: the state carries over and the segments of a come before those of b |
| `Segmenter.RunKeepsWellFormed` | api/main.py:35-89 | the between-frame invariant holds after any sequence of whole frames |
| `Segmenter.SegmentsAreWholeFrames` | api/main.py:51-59 | every emitted segment is non-empty and a whole number of frames long |
| `Segmenter.IdleSilenceRun` | api/main.py:54-89 | any run of silence frames while idle emits nothing and leaves the state unchanged |
| `Segmenter.SpeechRun` | api/main.py:49-52 | a run of speech frames is appended to the buffer in order, leaves silence_frames at 0 and emits nothing |
| `Segmenter.ShortSilenceRun` | api/main.py:54-57 | silence after speech that stays below the threshold only counts: buffer kept, counter advanced by the run length, nothing emitted |
| `Segmenter.EndOfUtterance` | api/main.py:54-87 | with speech buffered and the counter at 0, exactly SILENCE_THRESHOLD silence frames emit the buffered speech, joined, as one segment and reset the state |
| `Segmenter.Endpointing` | api/main.py:49-87 | from idle, N >= 1 speech frames then exactly SILENCE_THRESHOLD silence frames emit exactly one segment, the join of the N speech frames with the silence excluded, and leave the state empty / 0 |
| `Segmenter.EarlySpeechResets` | api/main.py:49-57 | a silence run shorter than the threshold followed by a speech frame emits nothing, resets the counter to 0 and keeps the utterance going |
| `TurnOutput.NonEmpty` | api/main.py:80-83 | definition of the token filter: the non-empty tokens of the stream, in order; its properties are NonEmptyPrefix, NonEmptyAppend, NonEmptyMembers, NonEmptyKeepsAll and NonEmptyHasNoEmpty |
| `TurnOutput.Reply` | api/main.py:68-83 | definition of one turn's messages given its transcript and token stream; its properties are EmptyTranscriptIsSilent, TranscriptThenTokens and HelloThereReply |
| `TurnOutput.Turn` | api/main.py:61-83 | definition of one segment's messages: Reply of its transcript and of the generator's stream for that transcript; Session.Respond is proved against it |
| `TurnOutput.Prompt` | api/main.py:68-76 | definition of the prompts one segment gives the generator: its transcript, or none when it is empty; Session.Respond is proved against it |
| `TurnOutput.Replies` | api/main.py:45-87 | definition of all messages for a list of segments, turn after turn; its properties are RepliesOne, RepliesAppend and PromptsAreSentTranscripts |
| `TurnOutput.Prompts` | api/main.py:45-87 | definition of all prompts for a list of segments, in order; its properties are RepliesOne, PromptsAppend and PromptsAreSentTranscripts |
| `TurnOutput.NonEmptyPrefix` | api/main.py:80-83 | taking one more token from the reply stream sends it exactly when it is non-empty |
| `TurnOutput.NonEmptyAppend` | api/main.py:80-83 | the tokens sent for a stream a then b are those sent for a followed by those sent for b, so their order is the stream's order |
| `TurnOutput.NonEmptyMembers` | api/main.py:80-83 | a token is sent if and only if it occurs in the reply stream and is not empty |
| `TurnOutput.NonEmptyKeepsAll` | api/main.py:80-83 | a stream with no empty tokens is sent unchanged |
| `TurnOutput.NonEmptyHasNoEmpty` | api/main.py:82-83 | no empty token is ever sent, and no more tokens are sent than the stream had |
| `TurnOutput.EmptyTranscriptIsSilent` | api/main.py:66-68 | an empty transcript sends nothing, whatever the generator would have replied |
| `TurnOutput.TranscriptThenTokens` | api/main.py:68-83 | a non-empty transcript is sent first, and every later message is non-empty and is a non-empty token of the reply, each such token appearing |
| `TurnOutput.HelloThereReply` | api/main.py:68-83 | transcript "hello there" with tokens "Hi", " there", "!" sends "hello there", "Hi", " there", "!" |
| `TurnOutput.RepliesOne` | api/main.py:59-83 | one segment's messages and prompts are those of its own turn |
| `TurnOutput.RepliesAppend` | api/main.py:45-87 | turns are sent in the order their segments were emitted; an earlier turn's messages never interleave with a later one's |
| `TurnOutput.PromptsAppend` | api/main.py:72-76 | the generator is prompted in the order the segments were emitted |
| `TurnOutput.PromptsAreSentTranscripts` | api/main.py:66-76 | the generator is only prompted with non-empty transcripts, each of which was sent to the client |
| `Connection.Session.Valid` | api/main.py:34-89 | definition of the connection invariant: frames and backlog are Chop of all bytes received, the segmenter state and segments are Run over those frames from idle, and the messages and prompts are Replies and Prompts of those segments; the constructor establishes it and Push keeps it |
| `Connection.Session.constructor` | api/main.py:34-37 | a new connection has an empty backlog, no buffered speech, a zero silence counter and nothing sent, and satisfies the session invariant |
| `Connection.Session.Respond` | api/main.py:61-83 | one turn sends exactly the segment's reply (transcript, then the non-empty tokens, or nothing), and prompts the generator once with the transcript only when it is non-empty |
| `Connection.Session.OnFrame` | api/main.py:49-89 | the per-frame body moves the segmenter state by Step, records the segment it completes, and sends that segment's turn |
| `Connection.Session.Push` | api/main.py:41-89 | one receive keeps the session invariant; the frames it cuts followed by the new backlog are the old backlog followed by the data; the new state, segments, messages and prompts are those of running the segmenter from the old state over the frames cut |
| `Connection.HelloThereReplies` | api/main.py:40-89 | 40 speech frames then 10 silence frames, heard as "hello there" and answered "Hi", " there", "!", send "hello there", "Hi", " there", "!" |
| `Connection.HelloThere` | api/main.py:40-89 | the same scenario on a session receiving all the audio at once sends exactly those four messages |

## Left out

- The websocket transport is not modelled: accept, receive_bytes, send_text and the WebSocketDisconnect handler (api/main.py:29, 41, 69, 83, 91-92). A receive is a call to `Push`. The messages sent are the `sent` list. A disconnect is the absence of further calls, so the unfinished backlog and speech buffer are simply dropped.
- The FastAPI app, the `/ws` route, the static-file mount and the uvicorn launch (api/main.py:10-13, 94-109) are server plumbing with no pipeline logic.
- webrtcvad is not modelled (api/main.py:22, 49). The classifier is `isSpeech`, a function of the frame alone. The sample-rate argument is fixed at 16000. Any state the shared `Vad` object keeps between calls is not modelled.
- Vosk is not modelled (api/main.py:17-19, 62-66): model loading, `KaldiRecognizer` construction, `AcceptWaveform`, and JSON parsing of the result. The recogniser is `transcribe`, a function of the segment bytes. A result without a "text" key is the empty string, folded into `transcribe`.
- The Ollama client is not modelled (api/main.py:25, 72-81). The reply stream is `generate`, a function from the prompt to a finite list of token strings. This makes the reply deterministic in the prompt, while a real model is not. Async iteration over the stream becomes a loop over that list.
- Exceptions from the recogniser, the generator or the classifier are not modelled. The source does not catch them: they end the connection.
- Async scheduling and concurrent connections are not modelled. One connection is processed sequentially, which is also what the awaited inline turn does within one connection.
- `Connection.Session.Push`: the contract does not say what happens to messages already sent if the connection fails mid-turn, because failure is not modelled.
