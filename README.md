# Msg-Extractor stimulus generator, modelled in Dafny

`scenario.py` writes the stimulus and the expected results for a hardware
message extractor. Each packet works like this:

- It draws a number of messages; each message is a number of random bytes.
- It builds the packet stream as a hex string by **prepending**: first a
  4-digit message count, then, for each message, a 4-digit length header and
  the message's bytes. The latest byte ends up leftmost and the count header
  rightmost.
- After each message it cuts 64-bit words (16 hex digits) off the **right**
  end of the stream. Each one becomes a `scenario.in` line with valid=1,
  last=0 and keep `ff`.
- After the packet's last message it writes the remainder as a final word.
  That word is left-padded with zeros, flagged last=1, and its keep mask has
  one set bit per remaining byte.
- Every message also gets a `scenario.ref` line: the message's hex text
  zero-padded to 64 digits, then its 4-digit length, upper-cased.

The project has seven modules:

- `HexText` (hex.dfy) models Python's `hex(x)[2:]`, `int_to_str`, `'c' * n` and
  `str.upper` on hex text.
- `Prepend` (prepend.dfy) gives the "each piece goes to the left of what is
  there" fold that the generator's loops use, with its algebra.
- `Packet` (packet.dfy) specifies the stream as a function of the drawn
  messages: `Stream(msgs) == Body(msgs) + Header(|msgs|)`.
- `Framer` (framer.dfy) models the word splitter, the keep masks and
  `Reassemble`. `Reassemble` is what a receiver gets by keeping each word's
  masked digits.
- `Reference` (reference.dfy) models the reference record.
- `Deframe` (deframe.dfy) is a reader of the stream. The generator has none;
  it is the inverse the builder's round trip is proved against.
- `Scenario` (scenario.dfy) holds the generator loops as methods. They are
  proved against `Run`, a functional statement of the packet loop, and the
  packet-level theorems are proved about that function.

The random draws are inputs. A packet is a `seq<Message>`, and a message is a
`seq<Byte>` of two-nibble bytes. `nb_msg` is `|msgs|` and `msg_length` is
`|m|`.

Four facts of the code are easy to misread; the model follows the code:

- The full-word keep field is the hex text `ff` of `int('11111111', 2)`.
- Because the loop test is `len(data) > 16`, the remainder left for the final
  word is never empty. It holds 2 to 16 digits. A stream whose length is a
  multiple of 16 ends in a full final word with keep `ff`.
- The count header is rightmost, so it travels in the packet's first word.
- The one-message manual packet `[8]` has a 24-digit stream and therefore
  takes two words, not one.

The comment above `int_to_str` gives `int_to_str(15, 4) = "000F"`. The code
gives `"000f"`, since only the reference record is upper-cased.

## Model

| member | source | states |
|---|---|---|
| HexText.HexSpec | scenario.py:51 | `hex(x)[2:]` is lower-case hex that reads back as x, with no leading zero except "0" for zero |
| HexText.IntToStrWidth | scenario.py:50-56 | `int_to_str(x, n)` is exactly n digits when x < 16^n; otherwise it is the full numeral, longer than n, never truncated |
| HexText.IntToStrSpec | scenario.py:50-56 | the result is zero padding followed by `hex(x)[2:]`; it is lower-case hex and reads back as x |
| HexText.HexLength | scenario.py:51-53 | x has at most n hex digits exactly when x < 16^n, which decides whether padding happens |
| HexText.UpperHex | scenario.py:101 | `upper()` keeps the value of hex text and turns lower-case hex into upper-case hex |
| Packet.ByteHex | scenario.py:94 | `rand_byte` is two lower-case digits whose values are the high and low nibbles drawn |
| Packet.MsgHex | scenario.py:93-98 | `msg` ends up 2·msg_length lower-case hex digits |
| Packet.HeaderShape | scenario.py:77 | a count or length below 16^4 gives a 4-digit lower-case header that reads back as the value |
| Packet.FrameLength | scenario.py:90-97 | a message adds 2·msg_length + 4 digits to `data`, an even number |
| Packet.StreamLength | scenario.py:77-98 | the stream is 4 + 4·nb_msg + 2·(total bytes) digits long, an even number |
| Packet.FrameAt | scenario.py:77-98 | message j's `msg` and length header sit contiguously in the stream, after the frames of later messages and before those of earlier ones, with the count header rightmost |
| Framer.FullKeepIsFF | scenario.py:106 | the keep field of every full word is `ff`: eight bytes kept |
| Framer.KeepMaskShape | scenario.py:113 | the final keep mask for n remaining digits is 2 lower-case digits worth 2^(n/2)−1, with n/2 set bits, and `ff` for n = 16 |
| Framer.KeepMaskHalf | scenario.py:113 | eight remaining digits give the mask `0f` |
| Framer.SplitRest | scenario.py:104-109 | the loop leaves a prefix of `data` of at most 16 digits, non-empty when `data` was |
| Framer.SplitRestLength | scenario.py:104-109 | the remainder has (len − 1) mod 16 + 1 digits |
| Framer.SplitRestParity | scenario.py:104-109 | an even `data` leaves an even remainder |
| Framer.SplitCount | scenario.py:104-109 | 16·(words written) + remainder length = original length |
| Framer.SplitConserves | scenario.py:104-109 | conservation: the remainder followed by the words' digits, latest leftmost, is exactly the original `data` |
| Framer.SplitStep | scenario.py:106-109 | one turn writes the rightmost 16 digits as a word that keeps them all and drops them from `data` |
| Framer.SplitWordsAt | scenario.py:104-109 | word i is the i-th block of 16 digits from the right end, with last=0 and keep `ff` |
| Framer.SplitWordsFull | scenario.py:104-106 | every word the loop writes has 16 digits, last=0 and keep `ff` |
| Framer.FinalWordShape | scenario.py:112-113 | the final word is flagged last, has 16 digits with the remainder right-aligned behind zeros, and its mask keeps exactly the remainder |
| Framer.KeptAll | scenario.py:106 | a 16-digit word marked `ff` keeps all its digits |
| Framer.LineWidth | scenario.py:106 | a `scenario.in` line is 25 characters, starts with valid=1 and carries the last flag third |
| Reference.RefLineLayout | scenario.py:101 | for msg_length ≤ 32 the reference line is 68 upper-case hex characters: zeros, then digits reading back as the message, then 4 digits reading back as msg_length |
| Deframe.DecodeMsgHex | scenario.py:93-98 | `msg` reads back, two digits per byte from the right, as the bytes drawn |
| Deframe.StreamRoundTrip | scenario.py:77-98 | the stream of well-sized messages decodes to exactly those messages |
| Scenario.RunInvariant | scenario.py:80-109 | before the last message: `data` plus the written words' kept digits is the stream so far, `data` holds 2-16 digits (an even number), and every word is full |
| Scenario.PacketFraming | scenario.py:77-113 | every word has 16 digits; only the final word is last; every other word keeps `ff`; the kept digits rebuild the stream exactly; the final mask marks 1-8 bytes, exactly those left over |
| Scenario.PacketRoundTrip | scenario.py:77-113 | the messages read back from a packet's words are the drawn messages |
| Scenario.WordCount | scenario.py:104-113 | a packet takes ⌈stream length / 16⌉ words |
| Scenario.PacketLines | scenario.py:104-113 | every `scenario.in` line of a packet is 25 characters, and exactly the last one carries last=1 |
| Scenario.RandomPacket | scenario.py:72-101 | a randomly drawn packet meets the header bounds, and each of its reference lines is 68 upper-case hex characters |
| Scenario.RefLinesAt | scenario.py:101 | reference line j is message j's record |
| Scenario.SingleEightByteMessage | scenario.py:28 | the manual packet `[8]` gives two words: the message's right half with "0008" and "0001", then its left half padded with keep `0f` |
| Scenario.EmptyPacket | scenario.py:80-113 | a packet with no message writes no word |
| Scenario.PushMessage | scenario.py:90-98 | the inner loop leaves `msg` equal to the message's text and prepends exactly its frame to `data` |
| Scenario.PopWords | scenario.py:104-109 | the `while` loop leaves `SplitRest(data)` and appends `SplitWords(data)` to the words written |
| Scenario.GeneratePacket | scenario.py:67-113 | one packet's loop writes exactly `PacketWords(msgs)` and `RefLines(msgs)` |
| Scenario.WriteWords | scenario.py:106-113 | each word adds its line after those already written |
| Scenario.GenerateScenario | scenario.py:64-113 | the whole run writes, packet by packet, exactly `InLines(packets)` and `RefFile(packets)` |

## Left out

- File I/O: opening, writing and closing `scenario.in` and `scenario.ref` are
  modelled as the returned sequences of lines, without their `"\n"`
  terminators.
- `random.seed(10)` and every `random.randint` draw are inputs, not
  computed. `RandomShaped` states the ranges the draws come from.
- The command-line switch `gen_rand` and the `print` messages are left out.
- The `gen_man` fixture is modelled only through its first packet, in
  `SingleEightByteMessage`. The `nb_pkt` constants (25 or the fixture's
  length) are the length of the `packets` input.
- `max_pkt_length` is left out: the source never uses it.
- `int_to_str` is modelled for non-negative x only. For a negative number
  `hex(x)[2:]` starts with `x` (for example `hex(-5)[2:]` is `x5`), and the
  generator never passes one.
- The valid field (always 1) and the trailer (always 0) of a `scenario.in`
  line are not stored in `Word`. `Line` writes them as constants.
- Python's `/` in the keep-mask expression is float division truncated by
  `int`. Dafny's `/` floors, and the two agree because both operands are
  non-negative there.
- The packet theorems assume `WellSized`: counts and lengths below 16^4. Past
  that, `int_to_str` writes longer headers and the stream no longer has a
  fixed layout. The generator's ranges (at most 40 messages of at most 32
  bytes) stay inside it, as `RandomPacket` shows.
- `GenerateScenario` writes a packet's `scenario.ref` lines after its words
  are computed; the source interleaves the writes to the two files. Each
  file's line order is the same.
