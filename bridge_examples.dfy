/** Streams that show what the bridge does with MIDI it does not implement:
    running status, System Real-Time bytes between the bytes of a message,
    and two-byte messages. Each is a whole stream fed from the
    zero-initialised globals. */
module BridgeExamples {
  import opened MidiBytes
  import opened EventTranslator
  import opened MessageAssembler

  /** The events a stream yields from the zero-initialised globals. */
  function Decode(bytes: seq<Byte>): (es: seq<Event>)
    ensures |es| <= |bytes| / 3
  {
    FeedInvariant(Init, bytes);
    Events(Feed(Init, bytes).msgs)
  }

  /** A Note On with velocity 0 is output as a Note Off. */
  lemma NoteOnZeroVelocity()
    ensures Decode([0x90, 0x3C, 0x00]) == [NoteOff(0, 0x3C, 0)]
  {
  }

  /** A Controller on channel 3. */
  lemma ControllerOnChannel3()
    ensures Decode([0xB3, 0x07, 0x64]) == [Controller(3, 0x07, 0x64)]
  {
  }

  /** Without running status, the second Note On of a running-status stream
      is lost: only the first message is emitted. */
  lemma RunningStatusNotApplied()
    ensures Decode([0x90, 0x40, 0x7F, 0x41, 0x50]) == [NoteOn(0, 0x40, 0x7F)]
  {
  }

  /** A timing clock byte (0xF8) in the middle of a Note On restarts assembly:
      the completed message has status 0xF8 and yields no event. */
  lemma RealTimeByteRestarts()
    ensures Feed(Init, [0x90, 0xF8, 0x40, 0x7F]).msgs == [Message(0xF8, 0x40, 0x7F)]
    ensures Decode([0x90, 0xF8, 0x40, 0x7F]) == []
  {
  }

  /** A Program Change (two bytes) completes no message; the Note On that
      follows it is still decoded. */
  lemma TwoByteMessageDropped()
    ensures Decode([0xC0, 0x05]) == []
    ensures Decode([0xC0, 0x05, 0x90, 0x3C, 0x40]) == [NoteOn(0, 0x3C, 0x40)]
  {
  }

  /** A Program Change completes only when a further data byte follows it:
      it is then passed on as a three-byte message with that byte third, and
      no event is output for it. */
  lemma TwoByteMessageCompletedByNextData()
    ensures Feed(Init, [0xC0, 0x05, 0x06]).msgs == [Message(0xC0, 0x05, 0x06)]
    ensures Decode([0xC0, 0x05, 0x06]) == []
  {
  }
}
