# Ultranova MIDI bridge: the byte decoder

`midi_bridge.c` reads raw MIDI bytes from the USB interrupt endpoint of a
Novation Ultranova and forwards them as events to an ALSA sequencer port.
This project models the decoder at its centre and proves properties of it:

- **the assembler** `parse_midi_byte`, which keeps a 3-byte buffer
  `midi_msg` and a counter `msg_pos` in globals and turns the fragmented
  byte stream into complete 3-byte messages. A status byte (high bit set)
  restarts assembly. A data byte extends a message in progress and is
  dropped when none is. The third byte completes the message, which is
  handed to `send_to_alsa`, and the counter goes back to 0;
- **the per-chunk loop** of `poll_usb`, which calls the assembler once for
  each byte of a USB chunk;
- **the classification** in `send_to_alsa`, which splits the status byte
  into command and channel nibbles and outputs a Note On, a Note Off or a
  Controller event, or nothing. It follows the Channel Voice Message
  encodings of the MIDI 1.0 Detailed Specification, including the rule that
  a Note On with velocity 0 is a Note Off.

Files:

- `midi_bytes.dfy` (module `MidiBytes`): bytes as integers 0..255,
  status/data classification, command and channel nibbles, the 3-byte
  `Message`. The C masks `& 0x80`, `& 0xF0` and `& 0x0F` are written in
  arithmetic form (`>= 0x80`, `b - b % 16`, `b % 16`), and
  `MasksAreArithmetic` proves that on every 8-bit value the masks agree
  with `IsStatus`, `Command` and `Channel`.
- `event_translator.dfy` (module `EventTranslator`): the `Event` datatype,
  `Translate`, its inverse `Encode` and the two round-trip lemmas, and
  `Events` for a run of messages.
- `message_assembler.dfy` (module `MessageAssembler`): the globals as a
  value `AsmState`, the pure step function `Step` and its fold `Feed`, the
  chunking lemmas, and the reference definition `Windows`. `Windows` says a
  message is emitted for every status byte followed directly by two data
  bytes. `FeedFromInit` proves that the assembler emits exactly those.
- `midi_bridge.dfy` (module `MidiBridge`): class `Assembler`. It holds the
  globals as an array of 3 bytes and an `int` counter.
  `ParseByte` updates them in place with the post-increment writes of the C
  code. `FeedChunk` is the per-byte loop. Both are proved against `Step`
  and `Feed`.
- `bridge_examples.dfy` (module `BridgeExamples`): concrete streams.

The code is modelled as written. It implements only 3-byte messages.
MIDI 1.0 features that the code does not implement are not in the model
either, and the example lemmas show what the code does with them instead:

- running status: a bare data byte after a completed message is dropped;
- System Real-Time bytes: 0xF8 in the middle of a message restarts
  assembly like any other status byte;
- two-byte messages (Program Change, Channel Pressure): such a message
  completes only when another data byte follows it. It is then passed on
  as a 3-byte message with that byte third, and `send_to_alsa` outputs no
  event for it;
- Pitch Bend: it completes as a message, and `send_to_alsa` outputs no
  event for it.

## Model

| member | source | states |
|---|---|---|
| MidiBytes.Command | midi_bridge.c:74 | the command nibble has its low four bits clear and is at most the status byte |
| MidiBytes.Channel | midi_bridge.c:75 | the channel is 0..15 and, added to the command nibble, gives back the status byte |
| MidiBytes.MasksAreArithmetic | midi_bridge.c:74-75 | for every 8-bit value `x`, `x & 0x80` is set exactly when `IsStatus` holds (the test at lines 117 and 122), `x & 0xF0` equals `Command` and `x & 0x0F` equals `Channel` |
| EventTranslator.Translate | midi_bridge.c:74-104 | every event carries channel `b1 & 0x0F` (0..15) and `b2` as note or param. A Note On never has velocity 0 and a Note Off always has velocity 0 |
| EventTranslator.TranslateTable | midi_bridge.c:77-104 | the full branch table, both directions. Note On exactly for 0x9n with third byte non-zero, carrying that velocity. Note Off exactly for 0x8n, or 0x9n with third byte 0, with velocity forced to 0. Controller exactly for 0xBn, with the third byte as value. No event exactly for every other command (0xA0, 0xC0, 0xD0, 0xE0, 0xF0) |
| EventTranslator.Encode | midi_bridge.c:77-98 | the canonical message of an event keeps its channel and second byte |
| EventTranslator.TranslateEncode | midi_bridge.c:77-98 | every event of the shape Translate produces is the translation of its encoding |
| EventTranslator.EncodeTranslate | midi_bridge.c:77-98 | translating is a normalisation. Re-encoding a translated message and translating again gives the same event. The encoding equals the message, except that a Note Off is written as 0x8n with velocity 0 |
| EventTranslator.Events | midi_bridge.c:100-108 | at most one event is output per completed message |
| EventTranslator.EventsNormal | midi_bridge.c:74-91 | every event output has a channel 0..15 and follows the Note On / Note Off velocity convention |
| EventTranslator.EventsAppend | midi_bridge.c:130 | events are produced message by message: two runs of messages give the concatenation of their events |
| MessageAssembler.Step | midi_bridge.c:115-133 | the counter stays in 0..2 between calls, so the writes `midi_msg[msg_pos++]` stay inside the buffer. A message is emitted exactly when a data byte arrives with the counter at 2 |
| MessageAssembler.StepSpec | midi_bridge.c:115-133 | the reachable-state invariant is kept. A status byte restarts assembly: counter 1, byte stored first, partial message discarded, nothing emitted. A data byte at counter 0 is dropped with the state unchanged. A data byte at counter 1 is stored second. A data byte at counter 2 completes the message (stored status byte, stored data byte, new byte) and resets the counter to 0. From a reachable state that message is one status byte and two data bytes |
| MessageAssembler.Feed | midi_bridge.c:156-158 | feeding a chunk byte by byte keeps the counter in 0..2 |
| MessageAssembler.FeedInvariant | midi_bridge.c:156-158 | feeding keeps the reachable-state invariant and emits only well-formed messages. Each message consumes three bytes, counting those already buffered |
| MessageAssembler.FeedAppend | midi_bridge.c:156-158 | chunking invariance: feeding A and then B from the resulting state gives the same final state and message sequence as feeding A ++ B |
| MessageAssembler.FeedChunks | midi_bridge.c:144-158 | feeding successive chunks, each from the state the previous one left, keeps the counter in 0..2 |
| MessageAssembler.FlattenAppend | midi_bridge.c:156-158 | two runs of chunks give the concatenation of their bytes |
| MessageAssembler.FeedChunksFlatten | midi_bridge.c:144-158 | chunking invariance for any split of a stream into chunks fed in order |
| MessageAssembler.DataRunDropped | midi_bridge.c:121-124 | no running status: with no message in progress, a run of data bytes of any length emits nothing and leaves the state unchanged |
| MessageAssembler.Windows | midi_bridge.c:126-131 | reference definition: one well-formed message per status byte directly followed by two data bytes, in stream order |
| MessageAssembler.Pending | midi_bridge.c:116-124 | the length of the unfinished message at the end of a stream is 0..2 |
| MessageAssembler.FeedFromInit | midi_bridge.c:27-28 | from the zero-initialised globals, the emitted messages are exactly `Windows` of the stream. The counter is `Pending` of the stream, and the used part of the buffer is the stream's last `Pending` bytes |
| MidiBridge.Assembler.constructor | midi_bridge.c:27-28 | the globals start as a zeroed 3-byte buffer and counter 0, satisfying the invariant |
| MidiBridge.Assembler.ParseByte | midi_bridge.c:115-133 | the in-place update of `midi_msg` and `msg_pos` does what `Step` says, with every array write in bounds. It keeps the invariant and the same buffer, and returns a well-formed message or nothing |
| MidiBridge.Assembler.FeedChunk | midi_bridge.c:156-158 | the loop over a chunk ends in the state and with the messages `Feed` gives, and returns the events `send_to_alsa` outputs for them |
| BridgeExamples.Decode | midi_bridge.c:156-158 | a stream fed from the start yields at most one event per three bytes |
| BridgeExamples.NoteOnZeroVelocity | midi_bridge.c:85-91 | 0x90 0x3C 0x00 yields a Note Off with velocity 0 |
| BridgeExamples.ControllerOnChannel3 | midi_bridge.c:93-98 | 0xB3 0x07 0x64 yields Controller 7 = 100 on channel 3 |
| BridgeExamples.RunningStatusNotApplied | midi_bridge.c:121-124 | 0x90 0x40 0x7F 0x41 0x50 yields one Note On only |
| BridgeExamples.RealTimeByteRestarts | midi_bridge.c:116-119 | 0x90 0xF8 0x40 0x7F emits the message 0xF8 0x40 0x7F and no event |
| BridgeExamples.TwoByteMessageDropped | midi_bridge.c:126-131 | 0xC0 0x05 yields nothing, and a Note On after it is still decoded |
| BridgeExamples.TwoByteMessageCompletedByNextData | midi_bridge.c:121-131 | 0xC0 0x05 0x06 emits the message 0xC0 0x05 0x06, for which no event is output |

## Left out

- USB transport: device discovery and opening, kernel-driver detach,
  interface claim and release, and `libusb_interrupt_transfer` with its
  timeout and error handling (midi_bridge.c:138-167, 170-221). These are I/O
  over a library that is not part of this model. A chunk is a parameter of
  `FeedChunk`, and the model does not bound its length by the 64-byte
  buffer.
- ALSA sequencer output: `setup_alsa_midi`, `snd_seq_ev_*`,
  `snd_seq_event_output` and `snd_seq_drain_output` (midi_bridge.c:33-58,
  65-71, 106-108). These are foreign calls. The model returns the event
  value that `send_to_alsa` would output, and `FeedChunk` returns them as a
  sequence.
- `printf`/`fprintf` logging (e.g. midi_bridge.c:129). It has no effect on
  the decoder.
- The endless `while (1)` polling loop and the process lifetime. Only the
  per-chunk loop is modelled. `FeedChunks` folds a finite list of chunks.
- Integer widths: `msg_pos` is a C `int` that only takes the values 0..3,
  so it cannot wrap. Bytes are `unsigned char`, modelled as integers
  0..255.
