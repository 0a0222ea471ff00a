/** The parser globals of the bridge as an object: the 3-byte buffer
    `midi_msg` and the counter `msg_pos`, updated in place by `ParseByte`
    (the C `parse_midi_byte`) and by `FeedChunk` (the per-byte loop of
    `poll_usb` over one USB chunk). Each method is proved against the pure
    `Step` and `Feed` of MessageAssembler. */
module MidiBridge {
  import opened MidiBytes
  import opened EventTranslator
  import opened MessageAssembler

  class Assembler {
    /** `midi_msg`: the message being assembled. */
    var midiMsg: array<Byte>
    /** `msg_pos`: how many bytes of it have arrived. */
    var msgPos: int

    /** The globals as a value. */
    ghost function State(): AsmState
      reads this, midiMsg
    {
      AsmState(midiMsg[..], msgPos)
    }

    /** The invariant kept between calls: a 3-byte buffer, a counter in
        0..2, and a status byte followed by data bytes in the used part. */
    ghost predicate Valid()
      reads this, midiMsg
    {
      State().Valid()
    }

    /** The zero-initialised globals. */
    constructor ()
      ensures Valid() && fresh(midiMsg)
      ensures State() == Init
    {
      midiMsg := new Byte[3](_ => 0);
      msgPos := 0;
    }

    /** `parse_midi_byte(b)`: the message passed to `send_to_alsa`, if this
        byte completes one. */
    method ParseByte(b: Byte) returns (m: Option<Message>)
      requires Valid()
      modifies this, midiMsg
      ensures Valid() && midiMsg == old(midiMsg)
      ensures StepResult(State(), m) == Step(old(State()), b)
      ensures m.Some? ==> m.value.WellFormed()
    {
      StepSpec(State(), b);
      if IsStatus(b) {  // byte & 0x80
        msgPos := 0;
        midiMsg[msgPos] := b;
        msgPos := msgPos + 1;
      } else if msgPos > 0 {
        midiMsg[msgPos] := b;
        msgPos := msgPos + 1;
      }
      if msgPos == 3 {
        m := Some(Message(midiMsg[0], midiMsg[1], midiMsg[2]));
        msgPos := 0;
      } else {
        m := None;
      }
    }

    /** The loop `for (i = 0; i < actual_length; i++) parse_midi_byte(buffer[i])`
        over one chunk: the messages completed, in order, and the events
        `send_to_alsa` outputs for them. */
    method FeedChunk(chunk: seq<Byte>) returns (msgs: seq<Message>, events: seq<Event>)
      requires Valid()
      modifies this, midiMsg
      ensures Valid() && midiMsg == old(midiMsg)
      ensures FeedResult(State(), msgs) == Feed(old(State()), chunk)
      ensures events == Events(msgs)
    {
      ghost var s0 := State();
      msgs, events := [], [];
      var i := 0;
      while i < |chunk|
        invariant 0 <= i <= |chunk|
        invariant Valid() && midiMsg == old(midiMsg)
        invariant FeedResult(State(), msgs) == Feed(s0, chunk[..i])
        invariant events == Events(msgs)
      {
        var m := ParseByte(chunk[i]);
        ghost var out := if m.Some? then [m.value] else [];
        assert FeedResult(State(), msgs + out) == Feed(s0, chunk[..i + 1]) by {
          FeedSnoc(s0, chunk[..i], chunk[i]);
          assert chunk[..i + 1] == chunk[..i] + [chunk[i]];
        }
        if m.Some? {
          EventsSnoc(msgs, m.value);
          var e := Translate(m.value.status, m.value.data1, m.value.data2);
          msgs := msgs + [m.value];
          if e.Some? {
            events := events + [e.value];
          }
        }
        i := i + 1;
      }
      assert chunk[..i] == chunk;
    }
  }
}
