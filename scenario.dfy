/** The generator loop of scenario.py (lines 64-113). For each packet it
    builds the stream in `data` by prepending, writes one reference line per
    message, pops 16-digit words off the right of `data` after each message,
    and after the packet's last message writes the padded final word. The
    random draws are inputs: a packet is its sequence of messages, a
    message its sequence of bytes. */
module Scenario {
  import opened HexText
  import opened Prepend
  import opened Packet
  import opened Framer
  import opened Reference
  import opened Deframe

  /** A packet as random mode draws it (scenario.py:72 and 85). */
  predicate RandomShaped(msgs: seq<Message>) {
    1 <= |msgs| <= MaxNbMsg &&
    forall j :: 0 <= j < |msgs| ==> MinMsgLength <= |msgs[j]| <= MaxMsgLength
  }

  /** What the generator holds once a number of messages of a packet are
      done: the digits left in `data` and the words written so far. */
  datatype Progress = Progress(data: string, words: seq<Word>)

  /** The state after the first j messages of the packet msgs. */
  function Run(msgs: seq<Message>, j: nat): Progress
    requires j <= |msgs|
    decreases j
  {
    if j == 0 then Progress(Header(|msgs|), [])
    else
      var before := Run(msgs, j - 1);
      var data := Frame(msgs[j - 1]) + before.data;
      var rest := SplitRest(data);
      var final := if j == |msgs| then [FinalWord(rest)] else [];
      Progress(rest, before.words + SplitWords(data) + final)
  }

  /** The words a packet puts into scenario.in, in order. */
  function PacketWords(msgs: seq<Message>): seq<Word> {
    Run(msgs, |msgs|).words
  }

  /** The lines a packet puts into scenario.ref, in order. */
  function RefLines(msgs: seq<Message>): (lines: seq<string>)
    ensures |lines| == |msgs|
  {
    if msgs == [] then []
    else RefLines(msgs[..|msgs| - 1]) + [RefLine(MsgHex(msgs[|msgs| - 1]), |msgs[|msgs| - 1]|)]
  }

  /** Message j's reference line follows those of the messages before it. */
  lemma RefLinesStep(msgs: seq<Message>, j: nat)
    requires j < |msgs|
    ensures RefLines(msgs[..j + 1]) == RefLines(msgs[..j]) + [RefLine(MsgHex(msgs[j]), |msgs[j]|)]
  {
    assert msgs[..j + 1][..j] == msgs[..j];
  }

  /** Message j's frame joins the left of the frames before it. */
  lemma BodyStep(msgs: seq<Message>, j: nat)
    requires j < |msgs|
    ensures Body(msgs[..j + 1]) == Frame(msgs[j]) + Body(msgs[..j])
  {
    assert msgs[..j + 1][..j] == msgs[..j];
  }

  /** Prepending a message's frame to an even text gives a non-empty even
      text. */
  lemma FramedEven(m: Message, data: string)
    requires |m| < HeaderLimit && |data| % 2 == 0
    ensures |Frame(m) + data| > 0 && |Frame(m) + data| % 2 == 0
  {
    var k := |data| / 2;
    assert |data| == 2 * k && (2 * (|m| + 2 + k)) % 2 == 0;
    FrameLength(m);
    assert |Frame(m) + data| == 2 * (|m| + 2 + k);
  }

  /** Before the packet's last message, `data` followed by what the words
      written so far carry (the latest leftmost) is the stream of the
      messages done so far; `data` holds 2 to 16 digits, an even number; and
      every word written is a full one. */
  lemma {:induction false} RunInvariant(msgs: seq<Message>, j: nat)
    requires WellSized(msgs) && j < |msgs|
    ensures Run(msgs, j).data + Reassemble(Run(msgs, j).words) == Body(msgs[..j]) + Header(|msgs|)
    ensures 0 < |Run(msgs, j).data| <= WordWidth && |Run(msgs, j).data| % 2 == 0
    ensures AllFull(Run(msgs, j).words)
    decreases j
  {
    HeaderShape(|msgs|);
    if j == 0 {
      assert msgs[..0] == [];
      assert Body([]) == [];
    } else {
      RunInvariant(msgs, j - 1);
      RunStep(msgs, j - 1);
    }
  }

  /** One message's worth of the invariant above. */
  lemma RunStep(msgs: seq<Message>, j: nat)
    requires WellSized(msgs) && j + 1 < |msgs|
    requires Run(msgs, j).data + Reassemble(Run(msgs, j).words) == Body(msgs[..j]) + Header(|msgs|)
    requires 0 < |Run(msgs, j).data| <= WordWidth && |Run(msgs, j).data| % 2 == 0
    requires AllFull(Run(msgs, j).words)
    ensures Run(msgs, j + 1).data + Reassemble(Run(msgs, j + 1).words) == Body(msgs[..j + 1]) + Header(|msgs|)
    ensures 0 < |Run(msgs, j + 1).data| <= WordWidth && |Run(msgs, j + 1).data| % 2 == 0
    ensures AllFull(Run(msgs, j + 1).words)
  {
    var before := Run(msgs, j);
    var data := Frame(msgs[j]) + before.data;
    assert Run(msgs, j + 1) == Progress(SplitRest(data), before.words + SplitWords(data));
    FramedEven(msgs[j], before.data);
    SplitRestParity(data);
    Absorb(msgs, j, before.data, before.words);
    SplitWordsFull(data);
    AllFullAppend(before.words, SplitWords(data));
  }

  /** Conservation across one message: prepending message j's frame to the
      digits held, then cutting words off the right, loses and duplicates
      nothing. */
  lemma Absorb(msgs: seq<Message>, j: nat, data: string, words: seq<Word>)
    requires j < |msgs|
    requires data + Reassemble(words) == Body(msgs[..j]) + Header(|msgs|)
    ensures var next := Frame(msgs[j]) + data;
      SplitRest(next) + Reassemble(words + SplitWords(next)) == Body(msgs[..j + 1]) + Header(|msgs|)
  {
    var next := Frame(msgs[j]) + data;
    var emitted := SplitWords(next);
    SplitConserves(next);
    PrependedAppend(words, emitted, Kept);
    BodyStep(msgs, j);
    calc {
      SplitRest(next) + Reassemble(words + emitted);
      SplitRest(next) + (Reassemble(emitted) + Reassemble(words));
      { Associative(SplitRest(next), Reassemble(emitted), Reassemble(words)); }
      (SplitRest(next) + Reassemble(emitted)) + Reassemble(words);
      next + Reassemble(words);
      { Associative(Frame(msgs[j]), data, Reassemble(words)); }
      Frame(msgs[j]) + (data + Reassemble(words));
      Frame(msgs[j]) + (Body(msgs[..j]) + Header(|msgs|));
      { Associative(Frame(msgs[j]), Body(msgs[..j]), Header(|msgs|)); }
      Body(msgs[..j + 1]) + Header(|msgs|);
    }
  }

  lemma AllFullAppend(a: seq<Word>, b: seq<Word>)
    requires AllFull(a) && AllFull(b)
    ensures AllFull(a + b)
  {
    forall i | 0 <= i < |a + b| ensures IsFullWord((a + b)[i]) {
      if i < |a| {
        assert (a + b)[i] == a[i];
      } else {
        assert (a + b)[i] == b[i - |a|];
      }
    }
  }

  /** The packet's words as the last message leaves them: the full words
      written before and during it, then the final word. */
  lemma LastStep(msgs: seq<Message>)
    requires msgs != []
    ensures var before := Run(msgs, |msgs| - 1);
            var data := Frame(msgs[|msgs| - 1]) + before.data;
            PacketWords(msgs) == before.words + SplitWords(data) + [FinalWord(SplitRest(data))]
  {
  }

  /** Full words closed by the final word of a remainder: every word is 16
      digits, only the final one is last, it keeps exactly the remainder, and
      its mask marks between one and eight bytes. */
  lemma {:induction false} CloseWords(full: seq<Word>, rest: string)
    requires AllFull(full) && 0 < |rest| <= WordWidth && |rest| % 2 == 0
    ensures var ws := full + [FinalWord(rest)];
      && (forall i :: 0 <= i < |ws| ==> |ws[i].payload| == WordWidth)
      && (forall i :: 0 <= i < |ws| - 1 ==> IsFullWord(ws[i]))
      && ws[|ws| - 1].last && |ws[|ws| - 1].keep| == 2
      && Reassemble(ws) == rest + Reassemble(full)
      && |Reassemble(full)| == WordWidth * |full|
      && 2 * PopCount(HexValue(ws[|ws| - 1].keep)) == |rest|
  {
    var ws := full + [FinalWord(rest)];
    FinalWordShape(rest);
    KeepMaskShape(|rest|);
    assert forall i :: 0 <= i < |ws| - 1 ==> ws[i] == full[i];
    PrependedAppend(full, [FinalWord(rest)], Kept);
    PrependedSingle(FinalWord(rest), Kept);
    FullWordsLength(full);
  }

  /** The packet theorem: every word is 16 digits; only the final word is
      flagged last and every other word keeps "ff"; reading each word's kept
      digits, the latest leftmost, gives back exactly the packet's stream;
      and the final word's keep mask marks one to eight bytes, exactly those
      left after the full words. */
  lemma PacketFraming(msgs: seq<Message>)
    requires WellSized(msgs) && msgs != []
    ensures var ws := PacketWords(msgs);
      && |ws| > 0
      && (forall i :: 0 <= i < |ws| ==> |ws[i].payload| == WordWidth)
      && (forall i :: 0 <= i < |ws| - 1 ==> IsFullWord(ws[i]))
      && ws[|ws| - 1].last && |ws[|ws| - 1].keep| == 2
      && Reassemble(ws) == Stream(msgs)
      && 1 <= PopCount(HexValue(ws[|ws| - 1].keep)) <= 8
      && WordWidth * (|ws| - 1) + 2 * PopCount(HexValue(ws[|ws| - 1].keep)) == |Stream(msgs)|
  {
    var n := |msgs| - 1;
    RunInvariant(msgs, n);
    var before := Run(msgs, n);
    var data := Frame(msgs[n]) + before.data;
    var full := before.words + SplitWords(data);
    var rest := SplitRest(data);
    FramedEven(msgs[n], before.data);
    SplitRestParity(data);
    SplitWordsFull(data);
    AllFullAppend(before.words, SplitWords(data));
    Absorb(msgs, n, before.data, before.words);
    assert msgs[..n + 1] == msgs;
    LastStep(msgs);
    CloseWords(full, rest);
  }

  /** Full words carry 16 digits each. */
  lemma {:induction false} FullWordsLength(ws: seq<Word>)
    requires AllFull(ws)
    ensures |Reassemble(ws)| == 16 * |ws|
  {
    forall i | 0 <= i < |ws| ensures |Kept(ws[i])| == 16 {
      KeptAll(ws[i]);
    }
    PrependedLength(ws, Kept, 16);
  }

  /** End to end: the messages read back from a packet's words are the
      packet's messages. */
  lemma PacketRoundTrip(msgs: seq<Message>)
    requires WellSized(msgs) && msgs != []
    ensures Decode(Reassemble(PacketWords(msgs))) == Some(msgs)
  {
    PacketFraming(msgs);
    StreamRoundTrip(msgs);
  }

  /** The packet takes one word per 16 digits of stream, rounding up. */
  lemma WordCount(msgs: seq<Message>)
    requires WellSized(msgs) && msgs != []
    ensures |PacketWords(msgs)| == (|Stream(msgs)| + 15) / 16
  {
    PacketFraming(msgs);
  }

  /** Message j's reference line is the j-th one. */
  lemma {:induction false} RefLinesAt(msgs: seq<Message>, j: nat)
    requires j < |msgs|
    ensures RefLines(msgs)[j] == RefLine(MsgHex(msgs[j]), |msgs[j]|)
    decreases |msgs|
  {
    var init := msgs[..|msgs| - 1];
    if j < |init| {
      RefLinesAt(init, j);
      assert init[j] == msgs[j];
    }
  }

  /** A packet as random mode draws it meets the header bounds, and each of
      its scenario.ref lines is 68 upper-case hex characters. */
  lemma RandomPacket(msgs: seq<Message>)
    requires RandomShaped(msgs)
    ensures WellSized(msgs)
    ensures forall j :: 0 <= j < |msgs| ==>
      |RefLines(msgs)[j]| == RefWidth && IsUpperHex(RefLines(msgs)[j])
  {
    forall j | 0 <= j < |msgs|
      ensures |RefLines(msgs)[j]| == RefWidth && IsUpperHex(RefLines(msgs)[j])
    {
      RefLinesAt(msgs, j);
      RefLineLayout(msgs[j]);
    }
  }

  /** Word i's line is the i-th one. */
  lemma {:induction false} LinesAt(ws: seq<Word>, i: nat)
    requires i < |ws|
    ensures Lines(ws)[i] == Line(ws[i])
    decreases |ws|
  {
    var init := ws[..|ws| - 1];
    if i < |init| {
      LinesAt(init, i);
      assert init[i] == ws[i];
    }
  }

  /** Every scenario.in line of a packet is 25 characters wide, and only its
      last line has the last flag set. */
  lemma PacketLines(msgs: seq<Message>)
    requires WellSized(msgs) && msgs != []
    ensures var lines := Lines(PacketWords(msgs));
      && (forall i :: 0 <= i < |lines| ==> |lines[i]| == 25)
      && (forall i :: 0 <= i < |lines| ==> (lines[i][2] == '1' <==> i == |lines| - 1))
  {
    var ws := PacketWords(msgs);
    PacketFraming(msgs);
    forall i | 0 <= i < |ws|
      ensures |Lines(ws)[i]| == 25 && (Lines(ws)[i][2] == '1' <==> i == |ws| - 1)
    {
      LinesAt(ws, i);
      LineWidth(ws[i]);
    }
  }

  /** A packet of no messages writes no word at all: the final word is only
      written when the message loop reaches its last iteration. */
  lemma EmptyPacket()
    ensures PacketWords([]) == []
  {
  }

  /** A packet of a single 8-byte message, the first fixture of manual mode
      (scenario.py:28): its stream has 24 digits, so it takes two words. The
      first holds the right half of the message, its length "0008" and the
      count "0001"; the last holds the left half, padded, with keep "0f". */
  lemma SingleEightByteMessage(m: Message)
    requires |m| == 8
    ensures var ws := PacketWords([m]);
      && |ws| == 2
      && ws[0] == FullWord(MsgHex(m)[8..] + "0008" + "0001")
      && ws[1] == Word(true, "00000000" + MsgHex(m)[..8], "0f")
  {
    HeaderDigits();
    var msgs := [m];
    var data := Frame(m) + Header(1);
    assert Run(msgs, 0) == Progress(Header(1), []);
    assert |data| == 24;
    var rest := data[..8];
    assert SplitRest(data) == rest by {
      assert SplitRest(data[..8]) == data[..8];
    }
    assert SplitWords(data) == [FullWord(data[8..])] + SplitWords(data[..8]);
    assert data[8..] == MsgHex(m)[8..] + "0008" + "0001";
    assert rest == MsgHex(m)[..8];
    KeepMaskHalf();
    assert Rep('0', 8) == "00000000";
  }

  /** One message of the generator (scenario.py:90-98): its length header,
      then each drawn byte, is prepended to `data`, and each byte also to
      `msg`. On return `msg` is the message's hex text and `data` has grown
      on the left by exactly the message's frame. */
  method PushMessage(m: Message, data0: string) returns (msg: string, data: string)
    ensures msg == MsgHex(m)
    ensures data == Frame(m) + data0
  {
    msg := "";
    data := IntToStr(|m|, 4) + data0;
    for k := 0 to |m|
      invariant msg == MsgHex(m[..k])
      invariant data == msg + Header(|m|) + data0
    {
      var randByte := ByteHex(m[k]);
      assert m[..k + 1][..k] == m[..k];
      data := randByte + data;
      msg := randByte + msg;
    }
    assert m[..|m|] == m;
  }

  /** The `while len(data) > 16` loop (scenario.py:104-109): it writes the
      rightmost 16 digits as a full word and drops them, until at most 16
      digits are left. */
  method PopWords(data0: string, words0: seq<Word>) returns (data: string, words: seq<Word>)
    ensures data == SplitRest(data0)
    ensures words == words0 + SplitWords(data0)
  {
    data, words := data0, words0;
    while |data| > WordWidth
      invariant SplitRest(data) == SplitRest(data0)
      invariant words0 + SplitWords(data0) == words + SplitWords(data)
      decreases |data|
    {
      words := words + [FullWord(data[|data| - 16..])];
      data := data[..|data| - 16];
    }
  }

  lemma HeaderDigits()
    ensures Header(8) == "0008" && Header(1) == "0001"
  {
    assert Hex(8) == "8" && Hex(1) == "1";
    assert Rep('0', 3) == "000";
  }

  /** The generator for one packet (scenario.py:67-113), with the random
      draws given as msgs. It returns the words written to scenario.in and
      the lines written to scenario.ref. */
  method GeneratePacket(msgs: seq<Message>) returns (words: seq<Word>, refs: seq<string>)
    ensures words == PacketWords(msgs)
    ensures refs == RefLines(msgs)
  {
    var nbMsg := |msgs|;
    var data := IntToStr(nbMsg, 4);
    words, refs := [], [];
    for j := 0 to nbMsg
      invariant Run(msgs, j) == Progress(data, words)
      invariant refs == RefLines(msgs[..j])
    {
      var msg;
      msg, data := PushMessage(msgs[j], data);
      RefLinesStep(msgs, j);
      refs := refs + [RefLine(msg, |msgs[j]|)];
      data, words := PopWords(data, words);
      if j == nbMsg - 1 {
        words := words + [FinalWord(data)];
      }
    }
    assert msgs[..nbMsg] == msgs;
  }

  /** The scenario.in lines of a sequence of words, in order. */
  function Lines(ws: seq<Word>): (lines: seq<string>)
    ensures |lines| == |ws|
  {
    if ws == [] then [] else Lines(ws[..|ws| - 1]) + [Line(ws[|ws| - 1])]
  }

  /** scenario.in's lines for a sequence of packets. */
  function InLines(packets: seq<seq<Message>>): seq<string> {
    if packets == [] then []
    else InLines(packets[..|packets| - 1]) + Lines(PacketWords(packets[|packets| - 1]))
  }

  /** scenario.ref's lines for a sequence of packets. */
  function RefFile(packets: seq<seq<Message>>): seq<string> {
    if packets == [] then [] else RefFile(packets[..|packets| - 1]) + RefLines(packets[|packets| - 1])
  }

  /** Packet i's lines follow those of the packets before it. */
  lemma FilesStep(packets: seq<seq<Message>>, i: nat)
    requires i < |packets|
    ensures InLines(packets[..i + 1]) == InLines(packets[..i]) + Lines(PacketWords(packets[i]))
    ensures RefFile(packets[..i + 1]) == RefFile(packets[..i]) + RefLines(packets[i])
  {
    assert packets[..i + 1][..i] == packets[..i];
  }

  /** Writing a packet's words (scenario.py:106 and 113): one line each,
      appended to what scenario.in holds. */
  method WriteWords(lines0: seq<string>, words: seq<Word>) returns (lines: seq<string>)
    ensures lines == lines0 + Lines(words)
  {
    lines := lines0;
    for k := 0 to |words|
      invariant lines == lines0 + Lines(words[..k])
    {
      assert words[..k + 1][..k] == words[..k];
      lines := lines + [Line(words[k])];
    }
    assert words[..|words|] == words;
  }

  /** The whole run (scenario.py:64-113): every packet in turn, each line
      appended to its file's content. */
  method GenerateScenario(packets: seq<seq<Message>>) returns (inLines: seq<string>, refLines: seq<string>)
    ensures inLines == InLines(packets)
    ensures refLines == RefFile(packets)
  {
    inLines, refLines := [], [];
    for i := 0 to |packets|
      invariant inLines == InLines(packets[..i])
      invariant refLines == RefFile(packets[..i])
    {
      var words, refs := GeneratePacket(packets[i]);
      FilesStep(packets, i);
      inLines := WriteWords(inLines, words);
      refLines := refLines + refs;
    }
    assert packets[..|packets|] == packets;
  }
}
