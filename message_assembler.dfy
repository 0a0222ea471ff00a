/** The byte-at-a-time assembler `parse_midi_byte`, as a pure transition
    function over its two globals: the 3-byte buffer `midi_msg` and the
    counter `msg_pos`. A status byte restarts assembly, a data byte extends a
    message in progress (and is dropped otherwise), and the message is handed
    on when the third byte is in. Feeding a stream is the left-to-right fold
    of that step. */
module MessageAssembler {
  import opened MidiBytes

  /** The parser globals: `midi_msg` as a sequence and `msg_pos`. */
  datatype AsmState = AsmState(msg: seq<Byte>, pos: int) {
    /** Between calls the counter is 0, 1 or 2, so the write
        `midi_msg[msg_pos++]` stays inside the 3-byte buffer. */
    predicate InBounds() {
      |msg| == 3 && 0 <= pos <= 2
    }

    /** The states reachable from the start: the collected bytes are a
        status byte followed by data bytes. */
    predicate Valid() {
      InBounds() &&
      (pos >= 1 ==> IsStatus(msg[0])) &&
      (pos == 2 ==> IsData(msg[1]))
    }
  }

  /** The zero-initialised globals at program start. */
  const Init := AsmState([0, 0, 0], 0)

  datatype StepResult = StepResult(next: AsmState, out: Option<Message>)

  datatype FeedResult = FeedResult(next: AsmState, msgs: seq<Message>)

  /** One call of `parse_midi_byte(b)`: the new globals and the message it
      passes to `send_to_alsa`, if any. The counter stays in 0..2 between
      calls, so the writes `midi_msg[msg_pos++]` stay inside the buffer, and
      a message is emitted exactly when a data byte arrives as the third. */
  function Step(s: AsmState, b: Byte): (r: StepResult)
    requires s.InBounds()
    ensures r.next.InBounds()
    ensures r.out.Some? <==> IsData(b) && s.pos == 2
  {
    var (msg1, pos1) :=
      if IsStatus(b) then (s.msg[0 := b], 1)
      else if s.pos > 0 then (s.msg[s.pos := b], s.pos + 1)
      else (s.msg, s.pos);
    if pos1 == 3 then
      StepResult(AsmState(msg1, 0), Some(Message(msg1[0], msg1[1], msg1[2])))
    else
      StepResult(AsmState(msg1, pos1), None)
  }

  /** What one call of `parse_midi_byte` does, case by case. */
  lemma StepSpec(s: AsmState, b: Byte)
    requires s.InBounds()
    ensures var r := Step(s, b);
      // the reachable-state invariant is kept
      (s.Valid() ==> r.next.Valid()) &&
      // a status byte restarts assembly and discards the partial message
      (IsStatus(b) ==>
        r.out == None && r.next.pos == 1 && r.next.msg[0] == b && r.next.msg[1..] == s.msg[1..]) &&
      // a data byte with nothing in progress is dropped
      (IsData(b) && s.pos == 0 ==> r == StepResult(s, None)) &&
      // a data byte after the status byte is stored second
      (IsData(b) && s.pos == 1 ==> r == StepResult(AsmState(s.msg[1 := b], 2), None)) &&
      // the third byte completes the message and resets the counter
      (IsData(b) && s.pos == 2 ==>
        r == StepResult(AsmState(s.msg[2 := b], 0), Some(Message(s.msg[0], s.msg[1], b)))) &&
      // from a reachable state the message is a status byte and two data bytes
      (s.Valid() && r.out.Some? ==> r.out.value.WellFormed())
  {
  }

  /** Feeding the bytes of a stream one by one, in order: the final globals
      and the messages emitted. */
  function Feed(s: AsmState, bytes: seq<Byte>): (r: FeedResult)
    requires s.InBounds()
    ensures r.next.InBounds()
    decreases |bytes|
  {
    if bytes == [] then
      FeedResult(s, [])
    else
      var st := Step(s, bytes[0]);
      var rest := Feed(st.next, bytes[1..]);
      FeedResult(rest.next, (if st.out.Some? then [st.out.value] else []) + rest.msgs)
  }

  /** Feeding keeps the reachable-state invariant and emits only well-formed
      messages. Each message needs three bytes, of which `s.pos` may already
      be in the buffer. */
  lemma {:induction false} FeedInvariant(s: AsmState, bytes: seq<Byte>)
    requires s.InBounds()
    ensures var r := Feed(s, bytes);
      (s.Valid() ==> r.next.Valid() && forall i :: 0 <= i < |r.msgs| ==> r.msgs[i].WellFormed()) &&
      3 * |r.msgs| + r.next.pos <= |bytes| + s.pos
    decreases |bytes|
  {
    if bytes != [] {
      StepSpec(s, bytes[0]);
      FeedInvariant(Step(s, bytes[0]).next, bytes[1..]);
    }
  }

  /** Chunking invariance: since the state persists between calls, feeding
      `a` and then `b` ends in the same state and emits the same messages as
      feeding `a + b`. */
  lemma {:induction false} FeedAppend(s: AsmState, a: seq<Byte>, b: seq<Byte>)
    requires s.InBounds()
    ensures var ra := Feed(s, a);
      var rb := Feed(ra.next, b);
      Feed(s, a + b) == FeedResult(rb.next, ra.msgs + rb.msgs)
    decreases |a|
  {
    if a == [] {
      assert a + b == b;
    } else {
      var st := Step(s, a[0]);
      var out := if st.out.Some? then [st.out.value] else [];
      assert (a + b)[0] == a[0];
      assert (a + b)[1..] == a[1..] + b;
      FeedAppend(st.next, a[1..], b);
      var ra := Feed(st.next, a[1..]);
      var rb := Feed(ra.next, b);
      assert Feed(s, a) == FeedResult(ra.next, out + ra.msgs);
      assert Feed(s, a + b) == FeedResult(rb.next, out + (ra.msgs + rb.msgs));
      assert out + (ra.msgs + rb.msgs) == (out + ra.msgs) + rb.msgs;
    }
  }

  /** Feeding a single byte is one step. */
  lemma FeedOne(s: AsmState, b: Byte)
    requires s.InBounds()
    ensures var st := Step(s, b);
      Feed(s, [b]) == FeedResult(st.next, if st.out.Some? then [st.out.value] else [])
  {
    assert [b][1..] == [];
  }

  /** Feeding one more byte after a prefix is one more step. */
  lemma FeedSnoc(s: AsmState, p: seq<Byte>, b: Byte)
    requires s.InBounds()
    ensures var r := Feed(s, p);
      var st := Step(r.next, b);
      Feed(s, p + [b]) == FeedResult(st.next, r.msgs + if st.out.Some? then [st.out.value] else [])
  {
    FeedAppend(s, p, [b]);
    FeedOne(Feed(s, p).next, b);
  }

  /** Concatenation of the chunks the transport delivers, in order. */
  function Flatten(chunks: seq<seq<Byte>>): seq<Byte>
  {
    if chunks == [] then [] else chunks[0] + Flatten(chunks[1..])
  }

  /** Two runs of chunks flatten to the concatenation of their bytes. */
  lemma {:induction false} FlattenAppend(a: seq<seq<Byte>>, b: seq<seq<Byte>>)
    ensures Flatten(a + b) == Flatten(a) + Flatten(b)
  {
    if a == [] {
      assert a + b == b;
    } else {
      assert (a + b)[0] == a[0];
      assert (a + b)[1..] == a[1..] + b;
      FlattenAppend(a[1..], b);
    }
  }

  /** Feeding a list of chunks, each to the state the previous one left. */
  function FeedChunks(s: AsmState, chunks: seq<seq<Byte>>): (r: FeedResult)
    requires s.InBounds()
    ensures r.next.InBounds()
    decreases |chunks|
  {
    if chunks == [] then
      FeedResult(s, [])
    else
      var r0 := Feed(s, chunks[0]);
      var rest := FeedChunks(r0.next, chunks[1..]);
      FeedResult(rest.next, r0.msgs + rest.msgs)
  }

  /** Chunking invariance for any split of the stream into chunks. */
  lemma {:induction false} FeedChunksFlatten(s: AsmState, chunks: seq<seq<Byte>>)
    requires s.InBounds()
    ensures FeedChunks(s, chunks) == Feed(s, Flatten(chunks))
    decreases |chunks|
  {
    if chunks != [] {
      FeedAppend(s, chunks[0], Flatten(chunks[1..]));
      FeedChunksFlatten(Feed(s, chunks[0]).next, chunks[1..]);
    }
  }

  /** There is no running status: once no message is in progress, a run of
      data bytes of any length emits nothing and changes nothing. */
  lemma {:induction false} DataRunDropped(s: AsmState, run: seq<Byte>)
    requires s.InBounds() && s.pos == 0
    requires forall i :: 0 <= i < |run| ==> IsData(run[i])
    ensures Feed(s, run) == FeedResult(s, [])
    decreases |run|
  {
    if run != [] {
      assert IsData(run[0]);
      StepSpec(s, run[0]);
      DataRunDropped(s, run[1..]);
    }
  }

  /** Reference definition of the emitted messages: one message for every
      status byte that is immediately followed by two data bytes, in stream
      order. */
  function Windows(bytes: seq<Byte>): (ms: seq<Message>)
    ensures forall i :: 0 <= i < |ms| ==> ms[i].WellFormed()
    decreases |bytes|
  {
    if |bytes| < 3 then []
    else
      var n := |bytes|;
      Windows(bytes[..n - 1]) +
      (if IsStatus(bytes[n - 3]) && IsData(bytes[n - 2]) && IsData(bytes[n - 1])
       then [Message(bytes[n - 3], bytes[n - 2], bytes[n - 1])] else [])
  }

  /** How many bytes of an unfinished message the end of a stream leaves:
      1 after a status byte, 2 after a status byte and one data byte. */
  function Pending(bytes: seq<Byte>): (p: int)
    ensures 0 <= p <= 2 && p <= |bytes|
  {
    var n := |bytes|;
    if n == 0 then 0
    else if IsStatus(bytes[n - 1]) then 1
    else if n >= 2 && IsStatus(bytes[n - 2]) then 2
    else 0
  }

  /** From the zero-initialised globals, the assembler emits exactly the
      status-data-data windows of the stream, and its buffer holds the tail
      of the stream that is an unfinished message. */
  lemma {:induction false} FeedFromInit(bytes: seq<Byte>)
    ensures var r := Feed(Init, bytes);
      r.msgs == Windows(bytes) &&
      r.next.pos == Pending(bytes) &&
      r.next.msg[..r.next.pos] == bytes[|bytes| - r.next.pos..]
    decreases |bytes|
  {
    var n := |bytes|;
    if n > 0 {
      var p, b := bytes[..n - 1], bytes[n - 1];
      assert bytes == p + [b];
      FeedFromInit(p);
      var s := Feed(Init, p).next;
      FeedSnoc(Init, p, b);
      StepWindows(p, b, s);
      StepPending(p, b, s);
      StepBuffer(p, b, s);
    }
  }

  /** Windows of a stream extended by one byte. */
  lemma WindowsSnoc(p: seq<Byte>, b: Byte)
    ensures var n := |p| + 1;
      Windows(p + [b]) == Windows(p) +
        if n >= 3 && IsStatus(p[n - 3]) && IsData(p[n - 2]) && IsData(b)
        then [Message(p[n - 3], p[n - 2], b)] else []
  {
    assert (p + [b])[..|p|] == p;
  }

  /** Pending of a stream extended by one byte. */
  lemma PendingSnoc(p: seq<Byte>, b: Byte)
    ensures Pending(p + [b]) ==
      if IsStatus(b) then 1 else if Pending(p) == 1 then 2 else 0
  {
  }

  /** One more byte, from a state that agrees with the stream so far:
      the step emits the new window, if any. */
  lemma StepWindows(p: seq<Byte>, b: Byte, s: AsmState)
    requires s.InBounds() && s.pos == Pending(p) && s.msg[..s.pos] == p[|p| - s.pos..]
    ensures var st := Step(s, b);
      Windows(p + [b]) == Windows(p) + (if st.out.Some? then [st.out.value] else [])
  {
    WindowsSnoc(p, b);
    StepSpec(s, b);
    if IsData(b) && s.pos == 0 {
      assert |p| >= 1 ==> !IsStatus(p[|p| - 1]);
    } else if IsData(b) && s.pos == 2 {
      assert p[|p| - 2] == s.msg[0] && p[|p| - 1] == s.msg[1];
    }
  }

  /** One more byte: the counter still counts the unfinished message. */
  lemma StepPending(p: seq<Byte>, b: Byte, s: AsmState)
    requires s.InBounds() && s.pos == Pending(p)
    ensures Step(s, b).next.pos == Pending(p + [b])
  {
    PendingSnoc(p, b);
    StepSpec(s, b);
  }

  /** One more byte: the buffer still holds the unfinished message. */
  lemma StepBuffer(p: seq<Byte>, b: Byte, s: AsmState)
    requires s.InBounds() && s.pos == Pending(p) && s.msg[..s.pos] == p[|p| - s.pos..]
    ensures var st := Step(s, b);
      st.next.msg[..st.next.pos] == (p + [b])[|p| + 1 - st.next.pos..]
  {
    StepSpec(s, b);
  }
}
