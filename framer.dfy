/** The word splitter of scenario.py (lines 104-113): 64-bit words of 16 hex
    digits are cut from the RIGHT end of the packet stream, and the final
    word of a packet is the left-padded remainder with a keep mask saying
    how many of its bytes are meaningful. */
module Framer {
  import opened HexText
  import opened Prepend

  /** Hex digits per 64-bit word. */
  const WordWidth := 16

  /** One line of scenario.in, `<valid> <last> <word> <keep> <trailer>`;
      valid is always 1 and the trailer always 0, so only the other three
      fields are kept. */
  datatype Word = Word(last: bool, payload: string, keep: string)

  /** Python's `int(bits, 2)`. */
  function BinValue(bits: string): nat {
    if bits == [] then 0
    else 2 * BinValue(bits[..|bits| - 1]) + (if bits[|bits| - 1] == '1' then 1 else 0)
  }

  function Pow2(n: nat): (p: nat)
    ensures p >= 1
  {
    if n == 0 then 1 else 2 * Pow2(n - 1)
  }

  /** The number of set bits of v. */
  function PopCount(v: nat): nat {
    if v == 0 then 0 else v % 2 + PopCount(v / 2)
  }

  /** The keep field of every full word, `hex(int('11111111', 2))[2:]`
      (scenario.py:106). */
  function FullKeep(): string {
    Hex(BinValue(Rep('1', 8)))
  }

  /** The keep field of the final word (scenario.py:113): (16 - n)/2 zero bits
      then n/2 one bits, read in base 2 and written by `int_to_str(_, 2)`.
      Python truncates the quotient toward zero where Dafny floors; they
      differ only for a negative dividend, where both repeat '0' no times. */
  function KeepMask(n: nat): string {
    IntToStr(BinValue(Rep('0', (WordWidth - n) / 2) + Rep('1', n / 2)), 2)
  }

  /** A word emitted by the `while` loop (scenario.py:106). */
  function FullWord(chunk: string): Word {
    Word(false, chunk, FullKeep())
  }

  /** The word emitted after the last message (scenario.py:113). */
  function FinalWord(rest: string): Word {
    Word(true, Rep('0', WordWidth - |rest|) + rest, KeepMask(|rest|))
  }

  /** The full words `while len(data) > 16` emits, in emission order. */
  function SplitWords(data: string): seq<Word>
    decreases |data|
  {
    if |data| > WordWidth then
      [FullWord(data[|data| - WordWidth..])] + SplitWords(data[..|data| - WordWidth])
    else
      []
  }

  /** What that loop leaves in `data`: a prefix of it, of at most 16 digits,
      and never empty unless `data` was. */
  function SplitRest(data: string): (rest: string)
    ensures |rest| <= WordWidth && |rest| <= |data| && rest == data[..|rest|]
    ensures |data| > 0 ==> |rest| > 0
    decreases |data|
  {
    if |data| > WordWidth then SplitRest(data[..|data| - WordWidth]) else data
  }

  /** The digits a receiver keeps from a word: the rightmost two per bit set
      in its keep mask. Only the number of set bits is read, so this assumes a
      contiguous mask of low bits (2^k - 1); KeepMaskShape and FullKeepIsFF
      prove that the generator only ever writes such masks. */
  function Kept(w: Word): string {
    var k := 2 * PopCount(HexValue(w.keep));
    if k <= |w.payload| then w.payload[|w.payload| - k..] else w.payload
  }

  /** The stream a receiver rebuilds from words in arrival order: each
      word's kept digits go to the left of those before it. */
  function Reassemble(ws: seq<Word>): string {
    Prepended(ws, Kept)
  }

  /** A scenario.in line, without its newline. */
  function Line(w: Word): string {
    "1 " + (if w.last then "1" else "0") + " " + w.payload + " " + w.keep + " 0"
  }

  /** n zero bits then k one bits read in base 2 are 2^k - 1. */
  lemma {:induction false} BinOnes(n: int, k: nat)
    ensures BinValue(Rep('0', n) + Rep('1', k)) == Pow2(k) - 1
    decreases k
  {
    var bits := Rep('0', n) + Rep('1', k);
    if k == 0 {
      assert bits == Rep('0', n);
      ZeroBits(n);
    } else {
      assert bits[..|bits| - 1] == Rep('0', n) + Rep('1', k - 1);
      BinOnes(n, k - 1);
    }
  }

  lemma {:induction false} ZeroBits(n: int)
    ensures BinValue(Rep('0', n)) == 0
    decreases n
  {
    if n > 0 {
      assert Rep('0', n)[..n - 1] == Rep('0', n - 1);
      ZeroBits(n - 1);
    }
  }

  /** 2^k - 1 has exactly k set bits. */
  lemma {:induction false} PopCountOnes(k: nat)
    ensures PopCount(Pow2(k) - 1) == k
    decreases k
  {
    if k > 0 {
      assert (Pow2(k) - 1) / 2 == Pow2(k - 1) - 1;
      PopCountOnes(k - 1);
    }
  }

  lemma {:induction false} Pow2Mono(j: nat, k: nat)
    requires j <= k
    ensures Pow2(j) <= Pow2(k)
    decreases k
  {
    if j < k {
      Pow2Mono(j, k - 1);
    }
  }

  lemma HexFF()
    ensures Hex(255) == "ff" && HexValue("ff") == 255
  {
    assert Hex(255) == Hex(15) + [HexDigit(15)];
    HexSpec(255);
  }

  lemma Pow2Eight()
    ensures Pow2(8) == 256
  {
  }

  lemma AllOnes()
    ensures BinValue(Rep('1', 8)) == 255
  {
    BinOnes(0, 8);
    assert Rep('0', 0) + Rep('1', 8) == Rep('1', 8);
    Pow2Eight();
  }

  lemma PopCountFF()
    ensures PopCount(255) == 8
  {
    PopCountOnes(8);
    Pow2Eight();
  }

  /** Every full word is marked "ff": all eight bytes meaningful. */
  lemma FullKeepIsFF()
    ensures FullKeep() == "ff"
    ensures PopCount(HexValue(FullKeep())) == 8
  {
    AllOnes();
    HexFF();
    PopCountFF();
  }

  /** The final word's keep mask for n remaining digits is two lower-case hex
      digits whose value is 2^(n/2) - 1: one set bit per remaining byte, "ff"
      for a full 16 digits. */
  lemma KeepMaskShape(n: nat)
    requires n <= WordWidth
    ensures |KeepMask(n)| == 2 && IsLowerHex(KeepMask(n))
    ensures HexValue(KeepMask(n)) == Pow2(n / 2) - 1
    ensures PopCount(HexValue(KeepMask(n))) == n / 2
    ensures n == WordWidth ==> KeepMask(n) == "ff"
  {
    KeepMaskValue(n);
    PopCountOnes(n / 2);
    if n == WordWidth {
      KeepMaskFull();
    }
  }

  lemma KeepMaskValue(n: nat)
    requires n <= WordWidth
    ensures |KeepMask(n)| == 2 && IsLowerHex(KeepMask(n))
    ensures HexValue(KeepMask(n)) == Pow2(n / 2) - 1
  {
    var v := Pow2(n / 2) - 1;
    BinOnes((WordWidth - n) / 2, n / 2);
    assert KeepMask(n) == IntToStr(v, 2);
    Pow2Mono(n / 2, 8);
    Pow2Eight();
    assert Pow16(2) == 256;
    IntToStrWidth(v, 2);
    IntToStrSpec(v, 2);
  }

  lemma KeepMaskFull()
    ensures KeepMask(WordWidth) == "ff"
  {
    BinOnes(0, 8);
    Pow2Eight();
    assert KeepMask(WordWidth) == IntToStr(255, 2);
    HexFF();
  }

  /** Eight remaining digits, four bytes, give the mask "0f". */
  lemma KeepMaskHalf()
    ensures KeepMask(8) == "0f"
  {
    BinOnes(4, 4);
    assert Pow2(4) == 16;
    assert KeepMask(8) == IntToStr(15, 2);
    assert Hex(15) == "f";
    assert Rep('0', 1) == "0";
  }

  /** A full word keeps its whole 16-digit chunk. */
  lemma KeptFull(chunk: string)
    requires |chunk| == WordWidth
    ensures Kept(FullWord(chunk)) == chunk
  {
    FullKeepIsFF();
    KeptAll(FullWord(chunk));
  }

  /** A word marked "ff" keeps all 16 of its digits. */
  lemma KeptAll(w: Word)
    requires |w.payload| == WordWidth && w.keep == "ff"
    ensures Kept(w) == w.payload
  {
    HexFF();
    PopCountFF();
  }

  /** The final word: 16 digits, the remainder right-aligned behind zeros,
      flagged last, and its keep mask marks exactly the remainder as kept. */
  lemma FinalWordShape(rest: string)
    requires 0 < |rest| <= WordWidth && |rest| % 2 == 0
    ensures FinalWord(rest).last
    ensures |FinalWord(rest).payload| == WordWidth
    ensures FinalWord(rest).payload[WordWidth - |rest|..] == rest
    ensures forall i :: 0 <= i < WordWidth - |rest| ==> FinalWord(rest).payload[i] == '0'
    ensures |FinalWord(rest).keep| == 2
    ensures HexValue(FinalWord(rest).keep) == Pow2(|rest| / 2) - 1
    ensures Kept(FinalWord(rest)) == rest
  {
    FinalPayload(rest);
    KeepMaskShape(|rest|);
    FinalKept(rest);
  }

  lemma FinalPayload(rest: string)
    requires |rest| <= WordWidth
    ensures |FinalWord(rest).payload| == WordWidth
    ensures FinalWord(rest).payload[WordWidth - |rest|..] == rest
    ensures forall i :: 0 <= i < WordWidth - |rest| ==> FinalWord(rest).payload[i] == '0'
  {
    assert FinalWord(rest).payload == Rep('0', WordWidth - |rest|) + rest;
  }

  lemma FinalKept(rest: string)
    requires 0 < |rest| <= WordWidth && |rest| % 2 == 0
    ensures Kept(FinalWord(rest)) == rest
  {
    var w := FinalWord(rest);
    FinalPayload(rest);
    KeepMaskShape(|rest|);
    var k := 2 * PopCount(HexValue(w.keep));
    assert k == |rest|;
  }

  /** Conservation: the remainder followed by the emitted words' digits, the
      latest leftmost, is the text the loop started from. */
  lemma {:induction false} SplitConserves(data: string)
    ensures SplitRest(data) + Reassemble(SplitWords(data)) == data
    decreases |data|
  {
    if |data| > WordWidth {
      var front, chunk := data[..|data| - WordWidth], data[|data| - WordWidth..];
      SplitStep(data);
      SplitConserves(front);
      Associative(SplitRest(front), Reassemble(SplitWords(front)), chunk);
      assert data == front + chunk;
    } else {
      assert SplitWords(data) == [];
      assert data + [] == data;
    }
  }

  /** One turn of the loop: the rightmost 16 digits become a word that keeps
      them all, and the rest is split as before. */
  lemma SplitStep(data: string)
    requires |data| > WordWidth
    ensures SplitRest(data) == SplitRest(data[..|data| - WordWidth])
    ensures Reassemble(SplitWords(data)) ==
      Reassemble(SplitWords(data[..|data| - WordWidth])) + data[|data| - WordWidth..]
  {
    var front, chunk := data[..|data| - WordWidth], data[|data| - WordWidth..];
    var ws := SplitWords(data);
    PrependedFirst(ws, Kept);
    assert ws[1..] == SplitWords(front);
    KeptFull(chunk);
  }

  /** Word i of the loop is the i-th block of 16 digits counted from the
      right: full, not last, keep "ff". The loop emits one word per 16 digits
      it removes. */
  lemma {:induction false} SplitWordsAt(data: string, i: nat)
    requires i < |SplitWords(data)|
    ensures 16 * (i + 1) <= |data|
    ensures SplitWords(data)[i] == FullWord(data[|data| - 16 * (i + 1)..|data| - 16 * i])
    ensures !SplitWords(data)[i].last && SplitWords(data)[i].keep == "ff"
    decreases |data|
  {
    FullKeepIsFF();
    SplitWordsFrom(data, i);
  }

  lemma {:induction false} SplitWordsFrom(data: string, i: nat)
    requires i < |SplitWords(data)|
    ensures 16 * (i + 1) <= |data|
    ensures SplitWords(data)[i] == FullWord(data[|data| - 16 * (i + 1)..|data| - 16 * i])
    decreases |data|
  {
    var front := data[..|data| - WordWidth];
    assert SplitWords(data) == [FullWord(data[|data| - WordWidth..])] + SplitWords(front);
    if i > 0 {
      SplitWordsFrom(front, i - 1);
      assert front[|front| - 16 * i..|front| - 16 * (i - 1)] == data[|data| - 16 * (i + 1)..|data| - 16 * i];
    }
  }

  lemma {:induction false} SplitCount(data: string)
    ensures 16 * |SplitWords(data)| + |SplitRest(data)| == |data|
    decreases |data|
  {
    if |data| > WordWidth {
      SplitCount(data[..|data| - WordWidth]);
    }
  }

  /** A word the `while` loop may write: 16 digits, not last, keep "ff". */
  predicate IsFullWord(w: Word) {
    !w.last && |w.payload| == WordWidth && w.keep == "ff"
  }

  predicate AllFull(ws: seq<Word>) {
    forall i :: 0 <= i < |ws| ==> IsFullWord(ws[i])
  }

  /** Every word the loop writes is a full one. */
  lemma {:induction false} SplitWordsFull(data: string)
    ensures AllFull(SplitWords(data))
    decreases |data|
  {
    if |data| > WordWidth {
      var front := data[..|data| - WordWidth];
      SplitWordsFull(front);
      FullKeepIsFF();
      assert SplitWords(data) == [FullWord(data[|data| - WordWidth..])] + SplitWords(front);
    }
  }

  /** Cutting 16 digits at a time keeps the parity: an even text leaves an
      even remainder, so the final word always ends on a whole byte. */
  lemma {:induction false} SplitRestParity(data: string)
    requires |data| % 2 == 0
    ensures |SplitRest(data)| % 2 == 0
    decreases |data|
  {
    if |data| > WordWidth {
      SplitRestParity(data[..|data| - WordWidth]);
    }
  }

  /** The remainder's length is |data| modulo 16, taking 16 rather than 0. */
  lemma SplitRestLength(data: string)
    requires |data| > 0
    ensures |SplitRest(data)| == (|data| - 1) % WordWidth + 1
  {
    SplitCount(data);
    var n, r := |SplitWords(data)|, |SplitRest(data)|;
    assert |data| - 1 == 16 * n + (r - 1) && 0 <= r - 1 < 16;
  }

  /** Every scenario.in line with a 16-digit word and a 2-digit mask is 25
      characters wide, starts with the valid flag 1 and carries the last flag
      as its third character. */
  lemma LineWidth(w: Word)
    requires |w.payload| == WordWidth && |w.keep| == 2
    ensures |Line(w)| == 25
    ensures Line(w)[0] == '1' && Line(w)[2] == (if w.last then '1' else '0')
  {
  }
}
