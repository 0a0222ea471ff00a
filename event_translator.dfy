/** The classification done by `send_to_alsa`: a completed three-byte message
    becomes a Note On, Note Off or Controller sequencer event, or nothing.
    The encodings are the Channel Voice Messages of the MIDI 1.0 Detailed
    Specification, including its rule that a Note On with velocity 0 is a
    Note Off. */
module EventTranslator {
  import opened MidiBytes

  /** The sequencer events the bridge emits; each carries its channel. */
  datatype Event =
    | NoteOn(channel: Byte, note: Byte, velocity: Byte)
    | NoteOff(channel: Byte, note: Byte, velocity: Byte)
    | Controller(channel: Byte, param: Byte, value: Byte)
  {
    /** The shape of every event the translator produces: a channel 0..15,
        a Note On never has velocity 0 and a Note Off always does. */
    predicate Normal() {
      channel < 16 &&
      (NoteOn? ==> velocity > 0) &&
      (NoteOff? ==> velocity == 0)
    }

    /** The second byte of the message the event came from. */
    function Key(): Byte {
      match this
      case NoteOn(_, n, _) => n
      case NoteOff(_, n, _) => n
      case Controller(_, p, _) => p
    }
  }

  /** `send_to_alsa(b1, b2, b3)`: the event it outputs, or None when it
      returns without output. Every event carries the channel nibble of the
      status byte and the second byte as note or controller number. */
  function Translate(b1: Byte, b2: Byte, b3: Byte): (r: Option<Event>)
    ensures r.Some? ==> r.value.Normal() && r.value.channel == Channel(b1) && r.value.Key() == b2
  {
    var command := Command(b1);
    var channel := Channel(b1);
    if command == 0x90 && b3 > 0 then
      Some(NoteOn(channel, b2, b3))
    else if command == 0x80 || (command == 0x90 && b3 == 0) then
      Some(NoteOff(channel, b2, 0))
    else if command == 0xB0 then
      Some(Controller(channel, b2, b3))
    else
      None
  }

  /** The branch table of `send_to_alsa`, by command nibble. Note On is
      0x9n with a non-zero third byte, which becomes the velocity; Note Off
      is 0x8n, or 0x9n with third byte 0, with velocity forced to 0;
      Controller is 0xBn with the third byte as value; every other command
      yields nothing. */
  lemma TranslateTable(b1: Byte, b2: Byte, b3: Byte)
    ensures var r := Translate(b1, b2, b3);
      (r.Some? <==> Command(b1) == 0x80 || Command(b1) == 0x90 || Command(b1) == 0xB0) &&
      (r.Some? && r.value.NoteOn? <==> Command(b1) == 0x90 && b3 != 0) &&
      (r.Some? && r.value.NoteOn? ==> r.value.velocity == b3) &&
      (r.Some? && r.value.NoteOff? <==> Command(b1) == 0x80 || (Command(b1) == 0x90 && b3 == 0)) &&
      (r.Some? && r.value.NoteOff? ==> r.value.velocity == 0) &&
      (r.Some? && r.value.Controller? <==> Command(b1) == 0xB0) &&
      (r.Some? && r.value.Controller? ==> r.value.value == b3)
  {
  }

  /** The canonical message for an event: the inverse of Translate on the
      events Translate produces. A Note Off is written with command 0x80. */
  function Encode(e: Event): (m: Message)
    requires e.channel < 16
    ensures Channel(m.status) == e.channel && m.data1 == e.Key()
  {
    match e
    case NoteOn(ch, n, v) => Message(0x90 + ch, n, v)
    case NoteOff(ch, n, v) => Message(0x80 + ch, n, v)
    case Controller(ch, p, v) => Message(0xB0 + ch, p, v)
  }

  /** Every normal event is produced by Translate from its encoding. */
  lemma TranslateEncode(e: Event)
    requires e.Normal()
    ensures var m := Encode(e); Translate(m.status, m.data1, m.data2) == Some(e)
  {
  }

  /** Translation is a normalisation: the encoding of a translated message
      translates back to the same event, and agrees with the message on
      every byte except a Note Off's command and velocity. */
  lemma EncodeTranslate(b1: Byte, b2: Byte, b3: Byte)
    requires Translate(b1, b2, b3).Some?
    ensures var e := Translate(b1, b2, b3).value;
      var m := Encode(e);
      Translate(m.status, m.data1, m.data2) == Some(e) &&
      (e.NoteOff? ==> Encode(e) == Message(0x80 + Channel(b1), b2, 0)) &&
      (!e.NoteOff? ==> Encode(e) == Message(b1, b2, b3))
  {
    TranslateEncode(Translate(b1, b2, b3).value);
  }

  /** The events output for a sequence of parsed messages, in order; messages
      Translate does not map output nothing. */
  function Events(msgs: seq<Message>): (es: seq<Event>)
    ensures |es| <= |msgs|
  {
    if msgs == [] then []
    else
      var e := Translate(msgs[0].status, msgs[0].data1, msgs[0].data2);
      (if e.Some? then [e.value] else []) + Events(msgs[1..])
  }

  /** Every event output has a channel 0..15 and follows the Note On /
      Note Off velocity convention. */
  lemma {:induction false} EventsNormal(msgs: seq<Message>)
    ensures forall i :: 0 <= i < |Events(msgs)| ==> Events(msgs)[i].Normal()
  {
    if msgs != [] {
      EventsNormal(msgs[1..]);
    }
  }

  /** Translating is message by message: the events of two consecutive runs of
      messages are the events of each run, concatenated. */
  lemma {:induction false} EventsAppend(a: seq<Message>, b: seq<Message>)
    ensures Events(a + b) == Events(a) + Events(b)
  {
    if a == [] {
      assert a + b == b;
    } else {
      var e := Translate(a[0].status, a[0].data1, a[0].data2);
      var head := if e.Some? then [e.value] else [];
      assert (a + b)[0] == a[0];
      assert (a + b)[1..] == a[1..] + b;
      EventsAppend(a[1..], b);
      assert Events(a + b) == head + (Events(a[1..]) + Events(b));
      assert Events(a) == head + Events(a[1..]);
      assert head + (Events(a[1..]) + Events(b)) == (head + Events(a[1..])) + Events(b);
    }
  }

  /** One more message adds its translation, if any, at the end. */
  lemma EventsSnoc(msgs: seq<Message>, m: Message)
    ensures var e := Translate(m.status, m.data1, m.data2);
      Events(msgs + [m]) == Events(msgs) + if e.Some? then [e.value] else []
  {
    EventsAppend(msgs, [m]);
    assert [m][1..] == [];
  }
}
