/** Raw MIDI bytes and the three-byte messages the bridge assembles from them.
    The bridge works on C `unsigned char` values and classifies them with the
    masks `& 0x80`, `& 0xF0` and `& 0x0F`. A byte is an integer 0..255 here and
    each mask is written in its arithmetic form, which MasksAreArithmetic
    shows to be the same on 8-bit values. */
module MidiBytes {

  /** A value that may be absent: a completed message, an output event. */
  datatype Option<T> = None | Some(value: T)

  /** One `unsigned char` of the USB stream. */
  newtype Byte = x: int | 0 <= x < 0x100

  /** A status byte has its high bit set (`byte & 0x80`). */
  predicate IsStatus(b: Byte) {
    b >= 0x80
  }

  /** A data byte has its high bit clear; its value is 0..127. */
  predicate IsData(b: Byte) {
    b < 0x80
  }

  /** The command nibble of a status byte, kept in place (`b1 & 0xF0`). */
  function Command(b: Byte): (c: Byte)
    ensures c % 16 == 0
    ensures c <= b
  {
    b - b % 16
  }

  /** The channel nibble of a status byte (`b1 & 0x0F`). */
  function Channel(b: Byte): (ch: Byte)
    ensures ch < 16
    ensures Command(b) + ch == b
  {
    b % 16
  }

  /** A completed message, the three bytes `midi_msg[0..2]` that the parser
      hands to the translator. */
  datatype Message = Message(status: Byte, data1: Byte, data2: Byte) {
    /** One status byte followed by two data bytes. */
    predicate WellFormed() {
      IsStatus(status) && IsData(data1) && IsData(data2)
    }
  }

  /** The arithmetic forms used above are the C masks on an 8-bit
      `unsigned char`: `x & 0x80` is set exactly when IsStatus holds,
      `x & 0xF0` is Command and `x & 0x0F` is Channel. */
  lemma MasksAreArithmetic(x: bv8)
    ensures (x & 0x80 != 0) == IsStatus(x as int as Byte)
    ensures (x & 0xF0) as int == Command(x as int as Byte) as int
    ensures (x & 0x0F) as int == Channel(x as int as Byte) as int
  {
  }
}
