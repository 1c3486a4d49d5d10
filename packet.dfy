/** The packet stream of scenario.py (lines 67-98): a 4-digit message-count
    header, then for each message a 4-digit length header and the message's
    bytes, every piece PREPENDED to the text built so far. The latest byte of
    the latest message therefore stands leftmost and the count header
    rightmost. */
module Packet {
  import opened HexText
  import opened Prepend

  /** One drawn byte: two `randint(0, 15)` nibbles, high one first. */
  datatype Byte = Byte(high: Nibble, low: Nibble)

  type Message = seq<Byte>

  /** The generator's configuration (scenario.py:12-15): `min_msg_length`,
      `max_msg_length` and `max_nb_msg` bound the random draws. */
  const MinMsgLength := 8
  const MaxMsgLength := 32
  const MaxNbMsg := 40

  /** Width of the count and length headers, `int_to_str(_, 4)`. */
  const HeaderWidth := 4

  /** Values that fit in a header: below 16^4. */
  const HeaderLimit := 0x1_0000

  /** `rand_byte` (scenario.py:94): the two nibbles' hex digits. */
  function ByteHex(b: Byte): (s: string)
    ensures |s| == 2 && IsLowerHex(s)
    ensures DigitValue(s[0]) == b.high && DigitValue(s[1]) == b.low
  {
    assert Hex(b.high) == [HexDigit(b.high)] && Hex(b.low) == [HexDigit(b.low)];
    Hex(b.high) + Hex(b.low)
  }

  /** The string `msg` once all of a message's bytes have been prepended
      (scenario.py:93-98): the last byte's digits come first. */
  function MsgHex(m: Message): (s: string)
    ensures |s| == 2 * |m| && IsLowerHex(s)
  {
    MsgHexShape(m);
    Prepended(m, ByteHex)
  }

  lemma {:induction false} MsgHexShape(m: Message)
    ensures |Prepended(m, ByteHex)| == 2 * |m| && IsLowerHex(Prepended(m, ByteHex))
    decreases |m|
  {
    if m != [] {
      MsgHexShape(m[..|m| - 1]);
    }
  }

  function Header(x: nat): string {
    IntToStr(x, HeaderWidth)
  }

  /** What one message adds to the left of the stream: its bytes, then its
      length header (scenario.py:90 and 97). */
  function Frame(m: Message): string {
    MsgHex(m) + Header(|m|)
  }

  /** The frames of a sequence of messages, the latest leftmost. */
  function Body(msgs: seq<Message>): string {
    Prepended(msgs, Frame)
  }

  /** A packet's whole stream: every frame, then the count header. */
  function Stream(msgs: seq<Message>): string {
    Body(msgs) + Header(|msgs|)
  }

  /** The bounds under which every header takes exactly four digits; the
      generator's ranges (at most 40 messages of at most 32 bytes) meet them. */
  predicate WellSized(msgs: seq<Message>) {
    |msgs| < HeaderLimit && forall j :: 0 <= j < |msgs| ==> |msgs[j]| < HeaderLimit
  }

  function TotalBytes(msgs: seq<Message>): nat {
    if msgs == [] then 0 else TotalBytes(msgs[..|msgs| - 1]) + |msgs[|msgs| - 1]|
  }

  /** A header of a value below 16^4 is four lower-case digits that read back
      as the value. */
  lemma HeaderShape(x: nat)
    requires x < HeaderLimit
    ensures |Header(x)| == HeaderWidth && IsLowerHex(Header(x))
    ensures HexValue(Header(x)) == x
  {
    assert Pow16(4) == HeaderLimit;
    IntToStrWidth(x, HeaderWidth);
    IntToStrSpec(x, HeaderWidth);
  }

  /** Each message costs 4 digits of header and 2 digits per byte, and the
      count header 4 more; so the stream length is always even. */
  lemma {:induction false} StreamLength(msgs: seq<Message>)
    requires WellSized(msgs)
    ensures |Body(msgs)| == 4 * |msgs| + 2 * TotalBytes(msgs)
    ensures |Stream(msgs)| == 4 + 4 * |msgs| + 2 * TotalBytes(msgs)
    ensures |Stream(msgs)| % 2 == 0
  {
    var k := 2 + 2 * |msgs| + TotalBytes(msgs);
    assert (2 * k) % 2 == 0;
    BodyLength(msgs);
    HeaderShape(|msgs|);
    assert |Stream(msgs)| == 2 * k;
  }

  /** A frame takes 2 digits per byte and 4 for the header: an even number. */
  lemma FrameLength(m: Message)
    requires |m| < HeaderLimit
    ensures |Frame(m)| == 2 * |m| + HeaderWidth && |Frame(m)| % 2 == 0
  {
    assert (2 * (|m| + 2)) % 2 == 0;
    HeaderShape(|m|);
    assert |Frame(m)| == 2 * (|m| + 2);
  }

  lemma {:induction false} BodyLength(msgs: seq<Message>)
    requires WellSized(msgs)
    ensures |Body(msgs)| == 4 * |msgs| + 2 * TotalBytes(msgs)
    decreases |msgs|
  {
    if msgs != [] {
      var init := msgs[..|msgs| - 1];
      var x := msgs[|msgs| - 1];
      assert WellSized(init) by {
        forall j | 0 <= j < |init| ensures |init[j]| < HeaderLimit {
          assert init[j] == msgs[j];
        }
      }
      BodyLength(init);
      HeaderShape(|x|);
      assert |Frame(x)| == 2 * |x| + 4;
      assert Body(msgs) == Frame(x) + Body(init);
    }
  }

  /** Message j's frame (its `msg` followed by its length header) appears
      contiguously in the stream, between the frames of the messages after it
      and those before it; the count header stays rightmost. */
  lemma FrameAt(msgs: seq<Message>, j: nat)
    requires j < |msgs|
    ensures Stream(msgs) == Body(msgs[j + 1..]) + Frame(msgs[j]) + Body(msgs[..j]) + Header(|msgs|)
  {
    PrependedAt(msgs, j, Frame);
  }
}
