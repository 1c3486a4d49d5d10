/** A reader of the packet stream: the inverse of the builder in
    scenario.py (lines 67-98), as the testbench consuming scenario.in would
    apply it. Reading goes from the right: the count header, then message 0's
    length header and bytes, then message 1's, and so on. The generator has
    no such reader; it is the partner the builder's round trip is stated
    against. */
module Deframe {
  import opened HexText
  import opened Prepend
  import opened Packet

  datatype Option<T> = None | Some(value: T)

  /** Two hex digits, high nibble first, of either case. */
  function ParseByte(s: string): Byte
    requires |s| == 2
  {
    Byte(DigitValue(s[0]), DigitValue(s[1]))
  }

  /** The bytes of a message's text: the rightmost two digits are its first
      byte. */
  function DecodeBytes(s: string): seq<Byte>
    decreases |s|
  {
    if |s| < 2 then [] else DecodeBytes(s[2..]) + [ParseByte(s[..2])]
  }

  /** The messages of a packet stream, or None when it is not well formed. */
  function Decode(s: string): Option<seq<Message>> {
    if |s| < HeaderWidth then None
    else DecodeMessages(s[..|s| - HeaderWidth], HexValue(s[|s| - HeaderWidth..]))
  }

  /** `count` frames, each a length header with that many bytes to its left,
      read from the right end of s, which they must use up exactly. */
  function DecodeMessages(s: string, count: nat): Option<seq<Message>>
    decreases count
  {
    if count == 0 then
      if s == [] then Some([]) else None
    else if |s| < HeaderWidth then None
    else
      var n := HexValue(s[|s| - HeaderWidth..]);
      var t := s[..|s| - HeaderWidth];
      if |t| < 2 * n then None
      else
        match DecodeMessages(t[..|t| - 2 * n], count - 1)
        case None => None
        case Some(rest) => Some([DecodeBytes(t[|t| - 2 * n..])] + rest)
  }

  /** A message's `msg` text reads back as the message. */
  lemma {:induction false} DecodeMsgHex(m: Message)
    ensures DecodeBytes(MsgHex(m)) == m
    decreases |m|
  {
    if m != [] {
      var init, x := m[..|m| - 1], m[|m| - 1];
      var s := MsgHex(m);
      assert s == ByteHex(x) + MsgHex(init);
      assert s[..2] == ByteHex(x) && s[2..] == MsgHex(init);
      DecodeMsgHex(init);
      assert ParseByte(ByteHex(x)) == x;
      assert init + [x] == m;
    }
  }

  /** Upper-cased text reads back as the same bytes. */
  lemma {:induction false} DecodeUpper(s: string)
    ensures DecodeBytes(Upper(s)) == DecodeBytes(s)
    decreases |s|
  {
    if |s| >= 2 {
      assert Upper(s)[2..] == Upper(s[2..]);
      assert Upper(s)[..2] == Upper(s[..2]);
      UpperDigit(s[0]);
      UpperDigit(s[1]);
      DecodeUpper(s[2..]);
    }
  }

  /** One frame peeled off the right of a body: the message it carries
      joins the front of those read from the text to its left. */
  lemma DecodeFrame(before: string, m: Message, count: nat, rest: seq<Message>)
    requires |m| < HeaderLimit && count > 0
    requires DecodeMessages(before, count - 1) == Some(rest)
    ensures DecodeMessages(before + Frame(m), count) == Some([m] + rest)
  {
    var s, t := before + Frame(m), before + MsgHex(m);
    FrameSlices(before, m);
    HeaderShape(|m|);
    DecodeMsgHex(m);
    assert HexValue(s[|s| - HeaderWidth..]) == |m|;
    assert DecodeBytes(t[|t| - 2 * |m|..]) == m;
  }

  /** Where a frame's pieces sit in the text it ends. */
  lemma FrameSlices(before: string, m: Message)
    requires |m| < HeaderLimit
    ensures var s, t := before + Frame(m), before + MsgHex(m);
      && |s| == |t| + HeaderWidth && |t| == |before| + 2 * |m|
      && s[..|s| - HeaderWidth] == t && s[|s| - HeaderWidth..] == Header(|m|)
      && t[..|t| - 2 * |m|] == before && t[|t| - 2 * |m|..] == MsgHex(m)
  {
    HeaderShape(|m|);
    assert before + Frame(m) == before + MsgHex(m) + Header(|m|);
  }

  /** The frames of well-sized messages read back as those messages. */
  lemma {:induction false} DecodeBody(msgs: seq<Message>)
    requires WellSized(msgs)
    ensures DecodeMessages(Body(msgs), |msgs|) == Some(msgs)
    decreases |msgs|
  {
    if msgs != [] {
      var tail := msgs[1..];
      assert [msgs[0]] + tail == msgs;
      WellSizedTail(msgs);
      DecodeBody(tail);
      DecodeFrame(Body(tail), msgs[0], |msgs|, tail);
      PrependedFirst(msgs, Frame);
    } else {
      assert Body(msgs) == [];
    }
  }

  lemma WellSizedTail(msgs: seq<Message>)
    requires WellSized(msgs) && msgs != []
    ensures WellSized(msgs[1..])
  {
    var tail := msgs[1..];
    forall j | 0 <= j < |tail| ensures |tail[j]| < HeaderLimit {
      assert tail[j] == msgs[j + 1];
    }
  }

  /** Round trip: a packet stream reads back as the messages it was built
      from. */
  lemma StreamRoundTrip(msgs: seq<Message>)
    requires WellSized(msgs)
    ensures Decode(Stream(msgs)) == Some(msgs)
  {
    var s := Stream(msgs);
    HeaderShape(|msgs|);
    assert s[..|s| - HeaderWidth] == Body(msgs);
    assert s[|s| - HeaderWidth..] == Header(|msgs|);
    DecodeBody(msgs);
  }
}
