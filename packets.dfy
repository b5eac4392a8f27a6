/** The byte framing the TFTP class writes: request packets (opcode, file name, mode and the
    option pairs of RFC 2347), acknowledgements, and the DATA framing of `send`. All of it is
    stream appends, so every builder is a function on byte sequences. */
module Packets {
  import opened Octets

  /** `blockNumberToStr`: decimal text, padded on the left with `'0'` to width two. */
  function BlockNumberToStr(n: int): (r: Bytes)
    ensures |r| >= 2
  {
    var d := ToDecimal(n);
    if |d| < 2 then [48 as byte] + d else d
  }

  /** `writeOption`: a NUL, the option name with its terminator, then the value as decimal
      text, with no terminator after it. */
  function OptionField(value: int, name: Bytes): Bytes
  {
    [NUL] + name + [NUL] + ToDecimal(value)
  }

  /** `writeOptions`: block size, then the timeout only when one is offered, then the
      transfer size. */
  function OptionFields(blockSize: int, transferSize: int, timeoutOffer: int): Bytes
  {
    OptionField(blockSize, Ascii("blksize"))
    + (if timeoutOffer != 0 then OptionField(timeoutOffer, Ascii("timeout")) else [])
    + OptionField(transferSize, Ascii("tsize"))
  }

  /** The common body of `makeRRQ` and `makeWRQ`: the two opcode bytes, the file name with
      its terminator, the mode without one, then the options. */
  function Request(opcode: byte, filename: Bytes, mode: Bytes, blockSize: int, transferSize: int, timeoutOffer: int): Bytes
  {
    [NUL, opcode] + filename + [NUL] + mode + OptionFields(blockSize, transferSize, timeoutOffer)
  }

  /** `makeRRQ` offers a transfer size of 0. */
  function ReadRequest(filename: Bytes, mode: Bytes, blockSize: int, timeoutOffer: int): Bytes
  {
    Request(1, filename, mode, blockSize, 0, timeoutOffer)
  }

  function WriteRequest(filename: Bytes, mode: Bytes, blockSize: int, transferSize: int, timeoutOffer: int): Bytes
  {
    Request(2, filename, mode, blockSize, transferSize, timeoutOffer)
  }

  /** The two mode names that switch the TFTP object into ascii mode. */
  predicate IsAsciiMode(mode: Bytes)
  {
    mode == Ascii("ascii") || mode == Ascii("netascii")
  }

  /** `makeACK(block)`: opcode 4, then two bytes taken from the C string of `block`; a
      one-byte `block` contributes its terminator as the second byte. */
  function Ack(block: Bytes): (r: Bytes)
    requires |block| >= 1
    ensures |r| == 4
    ensures r[0] == NUL && r[1] == 4 && r[2] == block[0] && r[3] == (if |block| >= 2 then block[1] else NUL)
  {
    [NUL, 4] + (block + [NUL])[..2]
  }

  /** The DATA packet `send` builds: the opcode literal `"\000\003"` is a C string that
      starts with its terminator and so adds nothing; then the first two characters of the
      block number text; then the payload. */
  function DataPacket(blockNumber: int, payload: Bytes): Bytes
  {
    BlockNumberToStr(blockNumber)[..2] + payload
  }

  // ---------------------------------------------------------------------------------------
  // reading a request back: NUL-separated fields
  // ---------------------------------------------------------------------------------------

  /** The fields of `s` between NUL separators (an empty field where two are adjacent). */
  function SplitAtNul(s: Bytes): seq<Bytes>
    decreases |s|
  {
    if NUL in s then
      var k := IndexOf(s, NUL);
      [s[..k]] + SplitAtNul(s[k + 1..])
    else [s]
  }

  /** The fields joined with one NUL between neighbours. */
  function JoinWithNul(fields: seq<Bytes>): Bytes
    requires |fields| >= 1
  {
    if |fields| == 1 then fields[0] else fields[0] + [NUL] + JoinWithNul(fields[1..])
  }

  /** What a request carries after its opcode, field by field, as RFC 1350 section 5 and the
      option pairs of RFC 2347 lay it out. */
  function RequestFields(filename: Bytes, mode: Bytes, blockSize: int, transferSize: int, timeoutOffer: int): seq<Bytes>
  {
    [filename, mode, Ascii("blksize"), ToDecimal(blockSize)]
    + (if timeoutOffer != 0 then [Ascii("timeout"), ToDecimal(timeoutOffer)] else [])
    + [Ascii("tsize"), ToDecimal(transferSize)]
  }

  lemma {:induction false} SplitJoin(fields: seq<Bytes>)
    requires |fields| >= 1 && forall i | 0 <= i < |fields| :: NUL !in fields[i]
    ensures SplitAtNul(JoinWithNul(fields)) == fields
    decreases |fields|
  {
    if |fields| > 1 {
      SplitJoin(fields[1..]);
      SplitFirst(fields[0], JoinWithNul(fields[1..]));
      assert [fields[0]] + fields[1..] == fields;
    }
  }

  /** A NUL-free field followed by a NUL splits off first. */
  lemma SplitFirst(f: Bytes, rest: Bytes)
    requires NUL !in f
    ensures SplitAtNul(f + [NUL] + rest) == [f] + SplitAtNul(rest)
  {
    var s := f + [NUL] + rest;
    forall i | 0 <= i < |f| ensures s[i] != NUL {
      assert s[i] == f[i];
    }
    IndexOfIs(s, NUL, |f|);
    assert s[..|f|] == f;
    assert s[|f| + 1..] == rest;
  }

  lemma {:induction false} JoinAppend(a: seq<Bytes>, b: seq<Bytes>)
    requires |a| >= 1 && |b| >= 1
    ensures JoinWithNul(a + b) == JoinWithNul(a) + [NUL] + JoinWithNul(b)
    decreases |a|
  {
    assert (a + b)[0] == a[0];
    if |a| == 1 {
      assert (a + b)[1..] == b;
    } else {
      assert (a + b)[1..] == a[1..] + b;
      JoinAppend(a[1..], b);
      Regroup(a[0], JoinWithNul(a[1..]), JoinWithNul(b));
    }
  }

  lemma Regroup(x: Bytes, y: Bytes, z: Bytes)
    ensures x + [NUL] + (y + [NUL] + z) == x + [NUL] + y + [NUL] + z
    ensures x + [NUL] + (y + [NUL] + z) == x + ([NUL] + y + [NUL] + z)
  {
  }

  /** Appending a name and a value adds exactly one option field. */
  lemma JoinAddOption(fields: seq<Bytes>, name: Bytes, value: Bytes)
    requires |fields| >= 1
    ensures JoinWithNul(fields + [name, value]) == JoinWithNul(fields) + ([NUL] + name + [NUL] + value)
  {
    JoinPair(name, value);
    JoinAppend(fields, [name, value]);
    Regroup(JoinWithNul(fields), name, value);
  }

  lemma JoinPair(name: Bytes, value: Bytes)
    ensures JoinWithNul([name, value]) == name + [NUL] + value
  {
    assert [name, value][1..] == [value];
  }

  /** The join of a file name, a mode and two or three name/value pairs, on opaque bytes. */
  lemma JoinRequestShape(filename: Bytes, mode: Bytes, n1: Bytes, v1: Bytes, withMiddle: bool,
                         n2: Bytes, v2: Bytes, n3: Bytes, v3: Bytes)
    ensures var middle := if withMiddle then [n2, v2] else [];
            var o2: Bytes := if withMiddle then [NUL] + n2 + [NUL] + v2 else [];
            JoinWithNul([filename, mode, n1, v1] + middle + [n3, v3])
            == filename + [NUL] + mode + ([NUL] + n1 + [NUL] + v1) + o2 + ([NUL] + n3 + [NUL] + v3)
  {
    var f0 := [filename, mode];
    assert f0[1..] == [mode];
    JoinAddOption(f0, n1, v1);
    var f1 := f0 + [n1, v1];
    assert f1 == [filename, mode, n1, v1];
    if withMiddle {
      JoinAddOption(f1, n2, v2);
      JoinAddOption(f1 + [n2, v2], n3, v3);
      assert f1 + [n2, v2] + [n3, v3] == [filename, mode, n1, v1] + [n2, v2] + [n3, v3];
    } else {
      JoinAddOption(f1, n3, v3);
      assert f1 + [n3, v3] == [filename, mode, n1, v1] + [] + [n3, v3];
    }
  }

  lemma RequestIsJoin(opcode: byte, filename: Bytes, mode: Bytes, blockSize: int, transferSize: int, timeoutOffer: int)
    ensures Request(opcode, filename, mode, blockSize, transferSize, timeoutOffer)
            == [NUL, opcode] + JoinWithNul(RequestFields(filename, mode, blockSize, transferSize, timeoutOffer))
  {
    JoinRequestShape(filename, mode, Ascii("blksize"), ToDecimal(blockSize), timeoutOffer != 0,
                     Ascii("timeout"), ToDecimal(timeoutOffer), Ascii("tsize"), ToDecimal(transferSize));
    RequestRegroup([NUL, opcode], filename, mode, OptionField(blockSize, Ascii("blksize")),
                   if timeoutOffer != 0 then OptionField(timeoutOffer, Ascii("timeout")) else [],
                   OptionField(transferSize, Ascii("tsize")));
  }

  lemma RequestRegroup(h: Bytes, f: Bytes, m: Bytes, p1: Bytes, p2: Bytes, p3: Bytes)
    ensures h + f + [NUL] + m + (p1 + p2 + p3) == h + (f + [NUL] + m + p1 + p2 + p3)
  {
  }

  /** A request starts with the two opcode bytes, and splitting the rest at its NUL bytes
      gives back the file name, the mode and each option name and value, in order — as
      long as the file name and the mode themselves hold no NUL. */
  lemma RequestLayout(opcode: byte, filename: Bytes, mode: Bytes, blockSize: int, transferSize: int, timeoutOffer: int)
    requires NUL !in filename && NUL !in mode
    ensures var p := Request(opcode, filename, mode, blockSize, transferSize, timeoutOffer);
            |p| >= 2 && p[..2] == [NUL, opcode]
            && SplitAtNul(p[2..]) == RequestFields(filename, mode, blockSize, transferSize, timeoutOffer)
  {
    var fields := RequestFields(filename, mode, blockSize, transferSize, timeoutOffer);
    RequestIsJoin(opcode, filename, mode, blockSize, transferSize, timeoutOffer);
    DecimalHasNoNul(blockSize);
    DecimalHasNoNul(transferSize);
    DecimalHasNoNul(timeoutOffer);
    forall i | 0 <= i < |fields| ensures NUL !in fields[i] {
    }
    SplitJoin(fields);
    var p := Request(opcode, filename, mode, blockSize, transferSize, timeoutOffer);
    assert p[2..] == JoinWithNul(fields);
  }

  // ---------------------------------------------------------------------------------------
  // block number text
  // ---------------------------------------------------------------------------------------

  lemma DigitsOfSmall(n: nat)
    ensures n < 10 ==> |Digits(n)| == 1
    ensures 10 <= n < 100 ==> |Digits(n)| == 2
    ensures n >= 10 ==> |Digits(n)| >= 2
  {
    if n >= 10 {
      DigitsAreDigits(n / 10);
    }
  }

  /** The padded block number text is at least two characters and reads back as `n`. */
  lemma BlockNumberToStrReadsBack(n: int)
    requires INT_MIN <= n <= INT_MAX
    ensures |BlockNumberToStr(n)| >= 2
    ensures ExtractInt(BlockNumberToStr(n)) == Stored(n)
  {
    var d := ToDecimal(n);
    DigitsOfSmall(if n < 0 then -n else n);
    if |d| < 2 {
      var t := [48 as byte] + d;
      assert 0 <= n < 10 && d == [(48 + n) as byte];
      assert SkipSpace(t) == t;
      assert DigitRun(t) == 2;
      assert t[..2] == t && t[..1] == [48 as byte] && t[..1][..0] == [];
      assert DigitsValue(t[..1]) == 0;
    } else {
      DecimalRoundTrip(n);
    }
  }

  /** `send` writes no opcode, so a DATA packet is two bytes longer than its payload; the two
      header bytes name the block only for -9..99. For larger blocks they are the first two
      digits, read back as that two-digit number; below -9 they are the minus sign and the
      first digit, read back as minus that digit. */
  lemma DataPacketHeader(blockNumber: int, payload: Bytes)
    requires INT_MIN <= blockNumber <= INT_MAX
    ensures var p := DataPacket(blockNumber, payload);
            |p| == 2 + |payload| && p[2..] == payload
            && (-9 <= blockNumber <= 99 ==> ExtractInt(p[..2]) == Stored(blockNumber))
    ensures var p := DataPacket(blockNumber, payload);
            blockNumber >= 100 ==>
              |ToDecimal(blockNumber)| >= 2 && p[..2] == ToDecimal(blockNumber)[..2]
              && IsDigit(p[0]) && IsDigit(p[1])
              && ExtractInt(p[..2]) == Stored(10 * (p[0] as int - 48) + (p[1] as int - 48))
              && ExtractInt(p[..2]) != Stored(blockNumber)
    ensures var p := DataPacket(blockNumber, payload);
            blockNumber <= -10 ==>
              |ToDecimal(blockNumber)| >= 2 && p[..2] == ToDecimal(blockNumber)[..2]
              && p[0] == 45 && IsDigit(p[1])
              && ExtractInt(p[..2]) == Stored(48 - p[1] as int)
              && ExtractInt(p[..2]) != Stored(blockNumber)
  {
    var s := BlockNumberToStr(blockNumber);
    var p := DataPacket(blockNumber, payload);
    assert p[..2] == s[..2];
    DigitsOfSmall(if blockNumber < 0 then -blockNumber else blockNumber);
    if -9 <= blockNumber <= 99 {
      BlockNumberToStrReadsBack(blockNumber);
      assert |s| == 2 && s[..2] == s;
    }
    if blockNumber >= 100 {
      DigitsAreDigits(blockNumber);
      assert IsDigit(s[0]) && IsDigit(s[1]);
      assert s[..2] == [s[0], s[1]];
      ExtractTwoAgrees(s[0], s[1]);
    }
    if blockNumber <= -10 {
      DigitsAreDigits(-blockNumber);
      assert s[1] == Digits(-blockNumber)[0];
      assert s[..2] == [s[0], s[1]];
      ExtractTwoAgrees(s[0], s[1]);
    }
  }
}
