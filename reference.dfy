/** The reference record of scenario.py (line 101): one scenario.ref line per
    message, holding the message's text zero-padded on the left to twice the
    largest message length, then its 4-digit length, all upper-cased. */
module Reference {
  import opened HexText
  import opened Packet
  import opened Deframe

  /** Width of a reference line for messages of at most MaxMsgLength bytes. */
  const RefWidth := 2 * MaxMsgLength + HeaderWidth

  /** A scenario.ref line, without its newline. A `msg` longer than the
      padding width gets no padding, as Python's `'0' * n` gives nothing for
      a negative n. */
  function RefLine(msg: string, msgLength: nat): string {
    Rep('0', 2 * MaxMsgLength - |msg|) + Upper(msg) + Upper(IntToStr(msgLength, HeaderWidth))
  }

  /** For a message of at most 32 bytes the line is 68 upper-case hex
      characters: zeros, then the message's digits, which read back as the
      message, then its length, which reads back as the length. */
  lemma RefLineLayout(m: Message)
    requires |m| <= MaxMsgLength
    ensures |RefLine(MsgHex(m), |m|)| == RefWidth
    ensures IsUpperHex(RefLine(MsgHex(m), |m|))
    ensures forall i :: 0 <= i < 2 * MaxMsgLength - 2 * |m| ==> RefLine(MsgHex(m), |m|)[i] == '0'
    ensures DecodeBytes(RefLine(MsgHex(m), |m|)[2 * MaxMsgLength - 2 * |m|..2 * MaxMsgLength]) == m
    ensures HexValue(RefLine(MsgHex(m), |m|)[2 * MaxMsgLength..]) == |m|
  {
    RefLineParts(m);
    RefLineUpper(m);
    RefLineMessage(m);
    RefLineLength(m);
  }

  lemma RefLineUpper(m: Message)
    requires |m| <= MaxMsgLength
    ensures IsUpperHex(RefLine(MsgHex(m), |m|))
  {
    var z := Rep('0', 2 * MaxMsgLength - 2 * |m|);
    UpperHex(MsgHex(m));
    HeaderShape(|m|);
    UpperHex(Header(|m|));
    assert IsUpperHex(z);
    UpperConcat(z, Upper(MsgHex(m)));
    UpperConcat(z + Upper(MsgHex(m)), Upper(Header(|m|)));
  }

  lemma UpperConcat(a: string, b: string)
    requires IsUpperHex(a) && IsUpperHex(b)
    ensures IsUpperHex(a + b)
  {
    forall i | 0 <= i < |a + b| ensures IsUpperHexDigit((a + b)[i]) {
      if i < |a| {
        assert (a + b)[i] == a[i];
      } else {
        assert (a + b)[i] == b[i - |a|];
      }
    }
  }

  lemma RefLineMessage(m: Message)
    requires |m| <= MaxMsgLength
    ensures DecodeBytes(RefLine(MsgHex(m), |m|)[2 * MaxMsgLength - 2 * |m|..2 * MaxMsgLength]) == m
  {
    RefLineParts(m);
    DecodeUpper(MsgHex(m));
    DecodeMsgHex(m);
  }

  lemma RefLineLength(m: Message)
    requires |m| <= MaxMsgLength
    ensures HexValue(RefLine(MsgHex(m), |m|)[2 * MaxMsgLength..]) == |m|
  {
    RefLineParts(m);
    HeaderShape(|m|);
    UpperHex(Header(|m|));
  }

  lemma RefLineParts(m: Message)
    requires |m| <= MaxMsgLength
    ensures |RefLine(MsgHex(m), |m|)| == RefWidth
    ensures RefLine(MsgHex(m), |m|)[..2 * MaxMsgLength - 2 * |m|] == Rep('0', 2 * MaxMsgLength - 2 * |m|)
    ensures RefLine(MsgHex(m), |m|)[2 * MaxMsgLength - 2 * |m|..2 * MaxMsgLength] == Upper(MsgHex(m))
    ensures RefLine(MsgHex(m), |m|)[2 * MaxMsgLength..] == Upper(Header(|m|))
  {
    HeaderShape(|m|);
  }
}
