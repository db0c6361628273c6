/**
 The text of the integrity error `copyContent` raises after a short in-loop
 write. The source builds it with the format string
 "% bytes read but %d byte written", whose `% b` is a `%b` verb with the space
 flag: the read count comes out in binary after a space, and the "b" of
 "bytes" is consumed. The message as written cannot be read back; the evidently
 intended one can.
 */
module ShortWriteText {
  import opened GoIo
  import opened Numerals
  import opened Gobble

  const ReadText: string := " bytes read but "
  const WrittenText: string := " byte written"

  /** The message as the source formats it. */
  function ShortWriteMessageAsWritten(read: nat, written: nat): (msg: string)
    // it opens with the space flag's blank, not with a digit
    ensures |msg| > 0 && msg[0] == ' '
    // the run of digits after the blank denotes the read count in binary
    ensures var k := DigitRun(msg[1..]); k >= 1 && BinaryValue(msg[1..][..k]) == read
    // so it is never the intended message
    ensures msg != ShortWriteMessage(read, written)
  {
    var bits := Numeral(read, 2);
    var rest := "ytes read but " + Numeral(written, 10) + WrittenText;
    var msg := " " + (bits + rest);
    assert msg[1..] == bits + rest;
    DigitRunOfNumeral(bits, rest);
    assert (bits + rest)[..|bits|] == bits;
    BinaryRoundTrip(read);
    assert ShortWriteMessage(read, written)[0] == Numeral(read, 10)[0];
    msg
  }

  /** The message evidently intended: both counts in decimal. */
  function ShortWriteMessage(read: nat, written: nat): string
  {
    Numeral(read, 10) + ReadText + Numeral(written, 10) + WrittenText
  }

  /** Reads the two counts back out of an intended-form message. */
  function ParseShortWriteMessage(msg: string): Option<(nat, nat)>
  {
    var k := DigitRun(msg);
    if k == 0 then None
    else
      var rest := msg[k..];
      if |rest| < |ReadText| || rest[..|ReadText|] != ReadText then None
      else
        var tail := rest[|ReadText|..];
        var k2 := DigitRun(tail);
        if k2 == 0 || tail[k2..] != WrittenText then None
        else Some((DecimalValue(msg[..k]), DecimalValue(tail[..k2])))
  }

  /** The intended message carries both counts: reading it back gives them. */
  lemma ShortWriteMessageRoundTrip(read: nat, written: nat)
    ensures ParseShortWriteMessage(ShortWriteMessage(read, written)) == Some((read, written))
  {
    var r, w := Numeral(read, 10), Numeral(written, 10);
    var tail := w + WrittenText;
    var msg := r + (ReadText + tail);
    assert msg == ShortWriteMessage(read, written);
    DigitRunOfNumeral(r, ReadText + tail);
    assert msg[..|r|] == r && msg[|r|..] == ReadText + tail;
    assert (ReadText + tail)[|ReadText|..] == tail;
    DigitRunOfNumeral(w, WrittenText);
    assert tail[..|w|] == w && tail[|w|..] == WrittenText;
    DecimalRoundTrip(read);
    DecimalRoundTrip(written);
  }

  /** The message as written never reads back: no count can be recovered. */
  lemma AsWrittenNeverParses(read: nat, written: nat)
    ensures ParseShortWriteMessage(ShortWriteMessageAsWritten(read, written)) == None
  {
    assert !IsDigit(ShortWriteMessageAsWritten(read, written)[0]);
  }

  /** `n` doubled `k` times. */
  function Shifted(n: nat, k: nat): (r: nat)
    ensures n <= r
  {
    if k == 0 then n else 2 * Shifted(n, k - 1)
  }

  lemma NumeralDouble(m: nat)
    requires m >= 1
    ensures Numeral(2 * m, 2) == Numeral(m, 2) + "0"
  {
    assert (2 * m) / 2 == m && (2 * m) % 2 == 0;
  }

  /** Doubling a number appends a zero to its binary numeral. */
  lemma {:induction false} BinaryShift(n: nat, k: nat)
    requires n >= 1
    ensures Numeral(Shifted(n, k), 2) == Numeral(n, 2) + seq(k, _ => '0')
  {
    if k > 0 {
      BinaryShift(n, k - 1);
      NumeralDouble(Shifted(n, k - 1));
      assert seq(k - 1, _ => '0') + "0" == seq(k, _ => '0');
    }
  }

  lemma DecimalExamples()
    ensures Numeral(4096, 10) == "4096" && Numeral(40960, 10) == "40960"
  {
    assert Numeral(4, 10) == "4";
    assert Numeral(40, 10) == Numeral(4, 10) + "0";
    assert Numeral(409, 10) == Numeral(40, 10) + "9";
    assert Numeral(4096, 10) == Numeral(409, 10) + "6";
    assert Numeral(40960, 10) == Numeral(4096, 10) + "0";
  }

  /** 40960, the buffer size, is 101 followed by thirteen zeros in binary. */
  lemma BinaryOfFullBuffer(n: nat)
    requires n == NumBytes
    ensures Numeral(n, 2) == "1010000000000000"
  {
    assert n == Shifted(5, 13);
    BinaryShift(5, 13);
    assert Numeral(5, 2) == "101";
  }

  /** The message for a short write of the full 40960-byte buffer with 4096
      bytes taken: a blank, the read count in binary, and "ytes" where
      "bytes" was meant. */
  lemma AsWrittenForFullBuffer(read: nat, written: nat)
    requires read == NumBytes && written == 4096
    ensures ShortWriteMessageAsWritten(read, written) == " " + "1010000000000000" + "ytes read but " + "4096" + " byte written"
  {
    BinaryOfFullBuffer(read);
    DecimalExamples();
  }

  /** The intended message for the same short write. */
  lemma IntendedForFullBuffer(read: nat, written: nat)
    requires read == NumBytes && written == 4096
    ensures ShortWriteMessage(read, written) == "40960" + " bytes read but " + "4096" + " byte written"
  {
    DecimalExamples();
  }
}
