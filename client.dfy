/** The read branch of the client's main loop (src/mytftpclient.cpp): the choice of the
    receive buffer size, the per-datagram step of the do-while loop, the loop itself, and
    `parseServerConfig`. The transport's receive becomes a sequence of arriving datagrams,
    the output file an appended byte sequence, and every datagram the receive loop hands to
    the transport's send is recorded, in order. */
module Client {
  import opened Wrappers
  import opened Octets
  import opened Packets
  import Protocol

  const DEFAULT_BLOCK_SIZE: int := 512

  /** The receive buffer size: 512, or the requested size capped by the smallest MTU of the
      machine's interfaces when `-s` is given. */
  function BlockSize(requested: Option<int>, minimalMtu: int): (r: int)
    ensures requested.None? ==> r == DEFAULT_BLOCK_SIZE
    ensures requested.Some? ==> r <= requested.value && r <= minimalMtu
                                && (r == requested.value || r == minimalMtu)
  {
    match requested
    case None => DEFAULT_BLOCK_SIZE
    case Some(s) => Min(s, minimalMtu)
  }

  // ---------------------------------------------------------------------------------------
  // reading header bytes as characters
  // ---------------------------------------------------------------------------------------

  /** `static_cast<char>(b + '0')`: the byte shifted by 48, wrapping at 256. */
  function AsDigitChar(b: byte): byte
  {
    ((b as int + 48) % 256) as byte
  }

  /** The block number as the loop reads it: the two bytes after the opcode turned into
      characters and parsed by `istringstream >> int`. */
  function ReadBlockNumber(b2: byte, b3: byte): Extraction
  {
    ExtractTwo(AsDigitChar(b2), AsDigitChar(b3))
  }

  /** That reading is the stream extraction applied to the two-character text. */
  lemma ReadBlockNumberIsExtraction(b2: byte, b3: byte)
    ensures ReadBlockNumber(b2, b3) == ExtractInt([AsDigitChar(b2), AsDigitChar(b3)])
  {
    ExtractTwoAgrees(AsDigitChar(b2), AsDigitChar(b3));
  }

  /** The opcode test of the loop: the first two bytes turned into characters compared with
      the two-character text "0" followed by the digit `op`. */
  predicate HasOpcode(buf: Bytes, op: byte)
    requires |buf| >= 2 && op <= 9
  {
    AsDigitChar(buf[0]) == 48 && AsDigitChar(buf[1]) == 48 + op
  }

  /** The text comparison is exactly a comparison of the two opcode bytes with 0 and `op`. */
  lemma HasOpcodeBytes(buf: Bytes, op: byte)
    requires |buf| >= 2 && op <= 9
    ensures HasOpcode(buf, op) <==> buf[0] == 0 && buf[1] == op
  {
  }

  /** Bytes 0..9 read as the decimal number with those two digits. */
  lemma ReadBlockNumberDecimal(b2: byte, b3: byte)
    requires b2 <= 9 && b3 <= 9
    ensures ReadBlockNumber(b2, b3) == Stored(10 * b2 as int + b3 as int)
  {
    assert IsDigit(AsDigitChar(b2)) && IsDigit(AsDigitChar(b3));
  }

  /** Whatever the two bytes, a stored block number lies in -9..99, so at most 99 blocks
      can be told apart. */
  lemma ReadBlockNumberRange(b2: byte, b3: byte)
    ensures var e := ReadBlockNumber(b2, b3);
            e.Stored? ==> -9 <= e.value <= 99
  {
  }

  /** RFC 1350 section 5 sends a block number as a big-endian 16-bit value; the loop reads
      that back as the same number only for blocks 0..9. */
  lemma ReadBlockNumberOfBigEndian(v: int)
    requires 0 <= v < 65536
    ensures ReadBlockNumber((v / 256) as byte, (v % 256) as byte) == Stored(v) <==> v <= 9
  {
    var b2, b3 := (v / 256) as byte, (v % 256) as byte;
    if v >= 10 && v < 100 {
      assert b2 == 0 && AsDigitChar(b3) as int == v + 48;
    }
  }

  // ---------------------------------------------------------------------------------------
  // the state of the read loop and one step of it
  // ---------------------------------------------------------------------------------------

  /** The loop's variables: the receive buffer and the copy of the last accepted datagram
      (both `blocksize` bytes, their initial contents whatever `new char[]` left there),
      the last accepted length, block number and ACK, the file written so far with the
      stream's failed state, and every datagram the loop sent. */
  datatype Session = Session(
    buffer: Bytes,
    lastMessage: Bytes,
    lastRecvBytesCount: int,
    lastBlockNumber: int,
    lastSentAck: Bytes,
    file: Bytes,
    fileFailed: bool,
    sent: seq<Bytes>)

  ghost predicate ValidSession(blocksize: int, s: Session)
  {
    4 <= blocksize && |s.buffer| == blocksize && |s.lastMessage| == blocksize
    && 0 <= s.lastRecvBytesCount <= blocksize
  }

  /** The state before the first pass: nothing accepted, nothing sent, an empty file. */
  function Initial(blocksize: int, bufferJunk: Bytes, lastJunk: Bytes): (s: Session)
    requires 4 <= blocksize && |bufferJunk| == blocksize && |lastJunk| == blocksize
    ensures ValidSession(blocksize, s) && s.lastBlockNumber == 0 && s.file == [] && s.sent == []
  {
    Session(bufferJunk, lastJunk, 0, 0, [], [], false, [])
  }

  /** A datagram as the transport delivers it, with the value the uninitialised
      `int blockNumber` holds if parsing its header stores nothing (any integer, which
      includes every value an `int` can hold). */
  datatype Arrival = Arrival(datagram: Bytes, staleBlockNumber: int)

  datatype Action = Accepted | ResentAck | OutOfSync

  /** What one pass of the loop body did: an ERROR datagram ends the session with its
      message; any other datagram is handled as DATA (with a warning when its opcode is not
      3), and `more` is the loop condition. */
  datatype StepResult =
    | ErrorPacket(message: Bytes)
    | Handled(action: Action, blockNumber: int, unusualOpcode: bool, more: bool)

  datatype Stepped = Stepped(session: Session, result: StepResult)

  /** How many bytes of a datagram the receive keeps. */
  function BytesReceived(blocksize: int, d: Bytes): int
  {
    Min(|d|, blocksize)
  }

  /** The block number the loop compares: the parsed value, or the variable's stale value
      when the extraction stores nothing. */
  function HeaderBlockNumber(buf: Bytes, stale: int): int
    requires |buf| >= 4
  {
    match ReadBlockNumber(buf[2], buf[3])
    case Stored(v) => v
    case Untouched => stale
  }

  /** `file.write(buffer + 4, n - 4)` on an `std::ofstream`: nothing once the stream has
      failed; a negative length writes nothing and puts the stream in the failed state. */
  function WriteFile(file: Bytes, failed: bool, buf: Bytes, n: int): (Bytes, bool)
    requires n <= |buf|
  {
    if failed then (file, true)
    else if n < 4 then (file, true)
    else (file + buf[4..n], false)
  }

  /** Which branch of the loop body a DATA datagram of `n` bytes takes. */
  function Classify(s: Session, buf: Bytes, n: int, blockNumber: int): Action
    requires 0 <= n <= |buf| && n <= |s.lastMessage|
  {
    if blockNumber == s.lastBlockNumber + 1 then Accepted
    else if n == s.lastRecvBytesCount && buf[..n] == s.lastMessage[..n] then ResentAck
    else OutOfSync
  }

  /** The accepting branch: write the payload, send and remember the ACK, remember the
      datagram, its length and its block number. */
  function Accept(s: Session, n: int, blockNumber: int): Session
    requires 4 <= |s.buffer| && 0 <= n <= |s.buffer| && n <= |s.lastMessage|
  {
    var ack := Ack([s.buffer[2], s.buffer[3]]);
    var w := WriteFile(s.file, s.fileFailed, s.buffer, n);
    s.(file := w.0, fileFailed := w.1, sent := s.sent + [ack], lastSentAck := ack,
       lastMessage := Overwrite(s.lastMessage, s.buffer, n), lastBlockNumber := blockNumber,
       lastRecvBytesCount := n)
  }

  /** One pass of the loop body. */
  function Step(blocksize: int, s: Session, a: Arrival): (o: Stepped)
    requires ValidSession(blocksize, s)
    ensures ValidSession(blocksize, o.session)
  {
    var n := BytesReceived(blocksize, a.datagram);
    var buf := Overwrite(s.buffer, a.datagram, n);
    var s1 := s.(buffer := buf);
    var blockNumber := HeaderBlockNumber(buf, a.staleBlockNumber);
    if HasOpcode(buf, 5) then
      Stepped(s1, ErrorPacket(if n < 4 then [] else buf[4..n]))
    else
      var action := Classify(s, buf, n, blockNumber);
      var r := Handled(action, blockNumber, !HasOpcode(buf, 3), n == blocksize);
      match action
      case Accepted => Stepped(Accept(s1, n, blockNumber), r)
      case ResentAck => Stepped(s1.(sent := s.sent + [s.lastSentAck]), r)
      case OutOfSync => Stepped(s1, r)
  }

  datatype Outcome = Finished | ServerError(message: Bytes) | AwaitingDatagram

  datatype Trace = Trace(session: Session, steps: seq<StepResult>, outcome: Outcome)

  /** The do-while loop over the arrivals: it stops after an ERROR datagram, after a pass
      whose datagram did not fill the buffer, or when no datagram is left (where the source
      would block in the transport). */
  function Run(blocksize: int, s: Session, arrivals: seq<Arrival>): (t: Trace)
    requires ValidSession(blocksize, s)
    ensures ValidSession(blocksize, t.session) && |t.steps| <= |arrivals|
    ensures arrivals != [] ==> 1 <= |t.steps|
    decreases |arrivals|, 1
  {
    if arrivals == [] then Trace(s, [], AwaitingDatagram)
    else Continue(blocksize, Step(blocksize, s, arrivals[0]), arrivals[1..])
  }

  /** The loop condition after a pass, and the rest of the loop when it holds. */
  function Continue(blocksize: int, o: Stepped, rest: seq<Arrival>): (t: Trace)
    requires ValidSession(blocksize, o.session)
    ensures ValidSession(blocksize, t.session) && 1 <= |t.steps| <= |rest| + 1
    decreases |rest| + 1, 0
  {
    var r := o.result;
    if r.ErrorPacket? then Trace(o.session, [r], ServerError(r.message))
    else if !r.more then Trace(o.session, [r], Finished)
    else
      var t := Run(blocksize, o.session, rest);
      Trace(t.session, [r] + t.steps, t.outcome)
  }

  // ---------------------------------------------------------------------------------------
  // properties of a step
  // ---------------------------------------------------------------------------------------

  /** The received bytes land at the front of the buffer; the datagram is an ERROR exactly
      when its first two bytes are 0 and 5, and its message is then what follows the
      header. Otherwise the loop goes on exactly when the datagram filled the buffer. */
  lemma StepReceives(blocksize: int, s: Session, a: Arrival)
    requires ValidSession(blocksize, s)
    ensures var o := Step(blocksize, s, a);
            var n := BytesReceived(blocksize, a.datagram);
            o.session.buffer[..n] == a.datagram[..n]
            && (o.result.ErrorPacket? <==> o.session.buffer[0] == 0 && o.session.buffer[1] == 5)
            && (o.result.ErrorPacket? ==> o.session == s.(buffer := o.session.buffer)
                                          && o.result.message == if n < 4 then [] else a.datagram[4..n])
            && (o.result.Handled? ==> o.result.more == (n == blocksize)
                                      && o.result.unusualOpcode == !(o.session.buffer[0] == 0 && o.session.buffer[1] == 3))
  {
    var n := BytesReceived(blocksize, a.datagram);
    var buf := Overwrite(s.buffer, a.datagram, n);
    OverwriteParts(s.buffer, a.datagram, n);
    HasOpcodeBytes(buf, 5);
    HasOpcodeBytes(buf, 3);
    if n >= 4 {
      assert buf[4..n] == buf[..n][4..];
    }
  }

  /** A block that is neither the next one nor a repeat of the last accepted datagram
      changes nothing but the buffer and sends nothing. */
  lemma StepOutOfSync(blocksize: int, s: Session, a: Arrival)
    requires ValidSession(blocksize, s)
    requires Step(blocksize, s, a).result.Handled? && Step(blocksize, s, a).result.action == OutOfSync
    ensures var o := Step(blocksize, s, a);
            o.session == s.(buffer := o.session.buffer)
            && o.result.blockNumber != s.lastBlockNumber + 1
            && !(BytesReceived(blocksize, a.datagram) == s.lastRecvBytesCount
                 && a.datagram[..s.lastRecvBytesCount] == s.lastMessage[..s.lastRecvBytesCount])
  {
  }

  /** A repeat of the last accepted datagram sends the remembered ACK again and changes
      nothing else. */
  lemma StepResend(blocksize: int, s: Session, a: Arrival)
    requires ValidSession(blocksize, s)
    requires Step(blocksize, s, a).result.Handled? && Step(blocksize, s, a).result.action == ResentAck
    ensures var o := Step(blocksize, s, a);
            var n := BytesReceived(blocksize, a.datagram);
            o.session == s.(buffer := o.session.buffer, sent := s.sent + [s.lastSentAck])
            && n == s.lastRecvBytesCount && a.datagram[..n] == s.lastMessage[..n]
  {
  }

  /** The next block is written to the file (unless the stream has failed, or the datagram
      is shorter than its header, which fails the stream), acknowledged with an ACK that
      echoes its two block bytes, and remembered. */
  lemma StepAccept(blocksize: int, s: Session, a: Arrival)
    requires ValidSession(blocksize, s)
    requires Step(blocksize, s, a).result.Handled? && Step(blocksize, s, a).result.action == Accepted
    ensures var o := Step(blocksize, s, a);
            var n := BytesReceived(blocksize, a.datagram);
            var s1 := o.session;
            o.result.blockNumber == s.lastBlockNumber + 1
            && s1.lastBlockNumber == s.lastBlockNumber + 1
            && s1.lastRecvBytesCount == n && s1.lastMessage[..n] == a.datagram[..n]
            && s1.lastSentAck == [0, 4, s1.buffer[2], s1.buffer[3]]
            && s1.sent == s.sent + [s1.lastSentAck]
            && (!s.fileFailed && n >= 4 ==> s1.file == s.file + a.datagram[4..n] && !s1.fileFailed)
            && (s.fileFailed || n < 4 ==> s1.file == s.file && s1.fileFailed)
  {
    var n := BytesReceived(blocksize, a.datagram);
    var buf := Overwrite(s.buffer, a.datagram, n);
    assert Overwrite(s.lastMessage, buf, n)[..n] == buf[..n];
    if n >= 4 {
      assert buf[4..n] == buf[..n][4..];
    }
  }

  /** Receiving an accepted datagram a second time is accepted again exactly when its two
      header bytes read as blanks (so nothing is parsed into `blockNumber`) and the variable
      happens to hold the next block number; otherwise it is a duplicate: the same ACK is
      sent again and the file and the remembered state stay as they were. */
  lemma ReplayIsIdempotent(blocksize: int, s: Session, a: Arrival, replay: Arrival)
    requires ValidSession(blocksize, s)
    requires Step(blocksize, s, a).result.Handled? && Step(blocksize, s, a).result.action == Accepted
    requires replay.datagram == a.datagram
    ensures var s1 := Step(blocksize, s, a).session;
            var o := Step(blocksize, s1, replay);
            var reaccepted := ReadBlockNumber(s1.buffer[2], s1.buffer[3]).Untouched?
                              && replay.staleBlockNumber == s1.lastBlockNumber + 1;
            o.result.Handled?
            && (o.result.action == Accepted <==> reaccepted)
            && (!reaccepted ==> o.result.action == ResentAck
                                && o.session == s1.(sent := s1.sent + [s1.lastSentAck]))
    ensures |a.datagram| >= 4 ==>
              Step(blocksize, s, a).session.lastSentAck == Ack([a.datagram[2], a.datagram[3]])
  {
    var n := BytesReceived(blocksize, a.datagram);
    var s1 := Step(blocksize, s, a).session;
    StepAccept(blocksize, s, a);
    StepReceives(blocksize, s, a);
    var buf2 := Overwrite(s1.buffer, replay.datagram, n);
    assert buf2 == s1.buffer;
    assert buf2[..n] == s1.lastMessage[..n];
    StepReceives(blocksize, s1, replay);
  }

  /** A replay the loop writes twice: two full datagrams with the same bytes, whose block
      bytes 240 become blanks once shifted by `'0'`, are both accepted when the
      uninitialised `blockNumber` holds 1 and then 2, and the payload lands in the file
      twice. */
  lemma ReplayOfBlankHeaderWrittenTwice()
    ensures var zeros: Bytes := [0, 0, 0, 0, 0];
            var d: Bytes := [0, 3, 240, 240, 7];
            var t := Run(5, Initial(5, zeros, zeros), [Arrival(d, 1), Arrival(d, 2)]);
            t.steps == [Handled(Accepted, 1, false, true), Handled(Accepted, 2, false, true)]
            && t.session.file == [7, 7] && t.session.lastBlockNumber == 2
            && t.outcome == AwaitingDatagram
  {
    var zeros: Bytes := [0, 0, 0, 0, 0];
    var d: Bytes := [0, 3, 240, 240, 7];
    var s0 := Initial(5, zeros, zeros);
    var arrivals := [Arrival(d, 1), Arrival(d, 2)];
    assert ReadBlockNumber(240, 240) == Untouched;
    var o1 := Step(5, s0, arrivals[0]);
    assert Overwrite(s0.buffer, d, 5) == d;
    assert o1.session.buffer == d && o1.session.file == [7];
    var o2 := Step(5, o1.session, arrivals[1]);
    assert Overwrite(o1.session.buffer, d, 5) == d;
    assert o2.session.file == [7, 7];
    RunUnroll(5, s0, arrivals, o1);
    assert arrivals[1..] == [arrivals[1]];
    RunUnroll(5, o1.session, arrivals[1..], o2);
    assert arrivals[1..][1..] == [];
  }

  // ---------------------------------------------------------------------------------------
  // properties of the loop
  // ---------------------------------------------------------------------------------------

  function CountAccepted(steps: seq<StepResult>): nat
  {
    if steps == [] then 0
    else (if steps[0].Handled? && steps[0].action == Accepted then 1 else 0) + CountAccepted(steps[1..])
  }

  function CountSending(steps: seq<StepResult>): nat
  {
    if steps == [] then 0
    else (if steps[0].Handled? && steps[0].action != OutOfSync then 1 else 0) + CountSending(steps[1..])
  }

  /** Every arrival carries at least the four header bytes. */
  predicate HeadersPresent(arrivals: seq<Arrival>)
  {
    forall i | 0 <= i < |arrivals| :: |arrivals[i].datagram| >= 4
  }

  /** The payloads of the arrivals whose step accepted them, in order. */
  function AcceptedPayloads(blocksize: int, arrivals: seq<Arrival>, steps: seq<StepResult>): Bytes
    requires 4 <= blocksize && |steps| <= |arrivals| && HeadersPresent(arrivals)
  {
    if steps == [] then []
    else
      var d := arrivals[0].datagram;
      (if steps[0].Handled? && steps[0].action == Accepted
       then d[4..BytesReceived(blocksize, d)] else [])
      + AcceptedPayloads(blocksize, arrivals[1..], steps[1..])
  }

  /** What one step adds to the counts, for any datagram, and to the file, for one that
      carries its four header bytes. */
  lemma StepAccounting(blocksize: int, s: Session, a: Arrival)
    requires ValidSession(blocksize, s)
    ensures var o := Step(blocksize, s, a);
            var accepted := o.result.Handled? && o.result.action == Accepted;
            o.session.lastBlockNumber == s.lastBlockNumber + (if accepted then 1 else 0)
            && |o.session.sent| == |s.sent| + (if o.result.Handled? && o.result.action != OutOfSync then 1 else 0)
            && (!s.fileFailed && |a.datagram| >= 4 ==>
                  !o.session.fileFailed
                  && o.session.file == s.file + (if accepted then a.datagram[4..BytesReceived(blocksize, a.datagram)] else []))
  {
    var o := Step(blocksize, s, a);
    StepReceives(blocksize, s, a);
    if o.result.Handled? {
      match o.result.action
      case Accepted => StepAccept(blocksize, s, a);
      case ResentAck => StepResend(blocksize, s, a);
      case OutOfSync => StepOutOfSync(blocksize, s, a);
    }
  }

  /** Over a whole loop: the remembered block number rises by one per accepted datagram,
      one datagram is sent per accepted or duplicate datagram, and — as long as every
      datagram carries its four header bytes — the file grows by exactly the accepted
      payloads, in order of arrival. */
  lemma {:induction false} RunAccounting(blocksize: int, s: Session, arrivals: seq<Arrival>)
    requires ValidSession(blocksize, s)
    ensures var t := Run(blocksize, s, arrivals);
            t.session.lastBlockNumber == s.lastBlockNumber + CountAccepted(t.steps)
            && |t.session.sent| == |s.sent| + CountSending(t.steps)
            && (!s.fileFailed && HeadersPresent(arrivals) ==>
                  !t.session.fileFailed
                  && t.session.file == s.file + AcceptedPayloads(blocksize, arrivals, t.steps))
    decreases |arrivals|
  {
    if arrivals != [] {
      var o := Step(blocksize, s, arrivals[0]);
      var r := o.result;
      StepAccounting(blocksize, s, arrivals[0]);
      RunUnroll(blocksize, s, arrivals, Step(blocksize, s, arrivals[0]));
      var rest := arrivals[1..];
      if r.ErrorPacket? || !r.more {
        AccountingCons(blocksize, arrivals, r, []);
        assert [r] + [] == [r];
      } else {
        RunAccounting(blocksize, o.session, rest);
        var t1 := Run(blocksize, o.session, rest);
        AccountingCons(blocksize, arrivals, r, t1.steps);
        if !s.fileFailed && HeadersPresent(arrivals) {
          assert HeadersPresent(rest) by {
            forall i | 0 <= i < |rest| ensures |rest[i].datagram| >= 4 {
              assert rest[i] == arrivals[i + 1];
            }
          }
          var payload := if r.Handled? && r.action == Accepted
                         then arrivals[0].datagram[4..BytesReceived(blocksize, arrivals[0].datagram)] else [];
          AppendAssoc(s.file, payload, AcceptedPayloads(blocksize, rest, t1.steps));
        }
      }
    }
  }

  /** The counts and payloads of a trace that starts with step `r`. */
  lemma AccountingCons(blocksize: int, arrivals: seq<Arrival>, r: StepResult, tail: seq<StepResult>)
    requires 4 <= blocksize && arrivals != [] && |tail| < |arrivals|
    ensures var accepted := r.Handled? && r.action == Accepted;
            var d := arrivals[0].datagram;
            CountAccepted([r] + tail) == (if accepted then 1 else 0) + CountAccepted(tail)
            && CountSending([r] + tail) == (if r.Handled? && r.action != OutOfSync then 1 else 0) + CountSending(tail)
            && (HeadersPresent(arrivals) ==>
                  AcceptedPayloads(blocksize, arrivals, [r] + tail)
                  == (if accepted then d[4..BytesReceived(blocksize, d)] else [])
                     + AcceptedPayloads(blocksize, arrivals[1..], tail))
  {
    assert ([r] + tail)[0] == r && ([r] + tail)[1..] == tail;
  }

  // ---------------------------------------------------------------------------------------
  // a clean transfer, and where RFC 1350 framing breaks it
  // ---------------------------------------------------------------------------------------

  /** The DATA datagram a server framing block `k` as RFC 1350 section 5 does. */
  function RfcData(k: int, payload: Bytes): Bytes
    requires 0 <= k < 65536
  {
    [0, 3, (k / 256) as byte, (k % 256) as byte] + payload
  }

  function Concat(ps: seq<Bytes>): Bytes
  {
    if ps == [] then [] else ps[0] + Concat(ps[1..])
  }

  /** The ACKs for blocks `last + 1 .. final`, each echoing the block's two bytes. */
  function Acks(last: nat, final: nat): seq<Bytes>
    requires last <= final <= 255
    decreases final - last
  {
    if last == final then [] else [Ack([0, (last + 1) as byte])] + Acks(last + 1, final)
  }

  /** The payloads framed as blocks `first`, `first + 1`, ... */
  function RfcArrivals(first: nat, payloads: seq<Bytes>, stale: int): seq<Arrival>
    requires first + |payloads| <= 65536
    decreases |payloads|
  {
    if payloads == [] then []
    else [Arrival(RfcData(first, payloads[0]), stale)] + RfcArrivals(first + 1, payloads[1..], stale)
  }

  /** An RFC 1350 DATA datagram for the next block in 1..9 is accepted, and its payload is
      written and its ACK sent. */
  lemma RfcNextBlockAccepted(blocksize: int, s: Session, payload: Bytes, stale: int)
    requires ValidSession(blocksize, s) && !s.fileFailed
    requires 0 <= s.lastBlockNumber <= 8 && |payload| <= blocksize - 4
    ensures var j := s.lastBlockNumber;
            var o := Step(blocksize, s, Arrival(RfcData(j + 1, payload), stale));
            o.result.Handled? && o.result.action == Accepted
            && o.result.more == (|payload| == blocksize - 4)
            && o.session.file == s.file + payload && !o.session.fileFailed
            && o.session.sent == s.sent + [Ack([0, (j + 1) as byte])]
            && o.session.lastBlockNumber == j + 1
  {
    var j := s.lastBlockNumber;
    var a := Arrival(RfcData(j + 1, payload), stale);
    var d := a.datagram;
    var n := BytesReceived(blocksize, d);
    assert n == |d|;
    var buf := Overwrite(s.buffer, d, n);
    assert buf[..n] == d;
    assert buf[0] == 0 && buf[1] == 3 && buf[2] == 0 && buf[3] == (j + 1) as byte;
    HasOpcodeBytes(buf, 5);
    assert HeaderBlockNumber(buf, stale) == j + 1;
    StepReceives(blocksize, s, a);
    StepAccept(blocksize, s, a);
    assert d[4..n] == payload;
  }

  /** The loop unrolled once: it stops after an ERROR datagram or a short one, and
      otherwise goes on with the rest of the arrivals. */
  lemma RunUnroll(blocksize: int, s: Session, arrivals: seq<Arrival>, o: Stepped)
    requires ValidSession(blocksize, s) && arrivals != [] && o == Step(blocksize, s, arrivals[0])
    ensures o.result.ErrorPacket? ==>
              Run(blocksize, s, arrivals) == Trace(o.session, [o.result], ServerError(o.result.message))
    ensures !o.result.ErrorPacket? && !o.result.more ==>
              Run(blocksize, s, arrivals) == Trace(o.session, [o.result], Finished)
    ensures !o.result.ErrorPacket? && o.result.more ==>
              Run(blocksize, s, arrivals)
              == Trace(Run(blocksize, o.session, arrivals[1..]).session,
                       [o.result] + Run(blocksize, o.session, arrivals[1..]).steps,
                       Run(blocksize, o.session, arrivals[1..]).outcome)
  {
  }

  /** The first pass over RFC 1350 framed blocks: the block is accepted, and the loop
      either stops (last block) or goes on from the new state with the remaining blocks. */
  lemma RfcRunFirst(blocksize: int, s: Session, payloads: seq<Bytes>, stale: int) returns (s1: Session)
    requires ValidSession(blocksize, s) && !s.fileFailed
    requires 1 <= |payloads| && 0 <= s.lastBlockNumber && s.lastBlockNumber + 1 <= 9
    requires s.lastBlockNumber + |payloads| < 65536
    requires |payloads| > 1 ==> |payloads[0]| == blocksize - 4
    requires |payloads| == 1 ==> |payloads[0]| < blocksize - 4
    ensures ValidSession(blocksize, s1) && !s1.fileFailed && s1.lastBlockNumber == s.lastBlockNumber + 1
    ensures s1.file == s.file + payloads[0]
    ensures s1.sent == s.sent + [Ack([0, (s.lastBlockNumber + 1) as byte])]
    ensures |payloads| == 1 ==>
              Run(blocksize, s, RfcArrivals(s.lastBlockNumber + 1, payloads, stale)).session == s1
              && Run(blocksize, s, RfcArrivals(s.lastBlockNumber + 1, payloads, stale)).outcome == Finished
    ensures |payloads| > 1 ==>
              Run(blocksize, s, RfcArrivals(s.lastBlockNumber + 1, payloads, stale)).session
                == Run(blocksize, s1, RfcArrivals(s1.lastBlockNumber + 1, payloads[1..], stale)).session
    ensures |payloads| > 1 ==>
              Run(blocksize, s, RfcArrivals(s.lastBlockNumber + 1, payloads, stale)).outcome
                == Run(blocksize, s1, RfcArrivals(s1.lastBlockNumber + 1, payloads[1..], stale)).outcome
  {
    var j := s.lastBlockNumber;
    var arrivals := RfcArrivals(j + 1, payloads, stale);
    assert arrivals[0] == Arrival(RfcData(j + 1, payloads[0]), stale);
    RfcNextBlockAccepted(blocksize, s, payloads[0], stale);
    s1 := Step(blocksize, s, arrivals[0]).session;
    assert arrivals[1..] == RfcArrivals(s1.lastBlockNumber + 1, payloads[1..], stale);
    RunUnroll(blocksize, s, arrivals, Step(blocksize, s, arrivals[0]));
  }

  /** Blocks `j+1 .. j+|payloads|` framed as RFC 1350 does, all full but the last, are
      accepted one after another when they stay within 1..9: the loop ends after the last
      one, with the stream good and the remembered block number at `j+|payloads|`. */
  lemma {:induction false} CleanTransferEnds(blocksize: int, s: Session, payloads: seq<Bytes>, stale: int)
    requires ValidSession(blocksize, s) && !s.fileFailed
    requires 1 <= |payloads| && 0 <= s.lastBlockNumber && s.lastBlockNumber + |payloads| <= 9
    requires forall i | 0 <= i < |payloads| - 1 :: |payloads[i]| == blocksize - 4
    requires |payloads[|payloads| - 1]| < blocksize - 4
    ensures var t := Run(blocksize, s, RfcArrivals(s.lastBlockNumber + 1, payloads, stale));
            t.outcome == Finished && !t.session.fileFailed
            && t.session.lastBlockNumber == s.lastBlockNumber + |payloads|
    decreases |payloads|
  {
    var s1 := RfcRunFirst(blocksize, s, payloads, stale);
    if |payloads| > 1 {
      var rest := payloads[1..];
      forall i | 0 <= i < |rest| - 1 ensures |rest[i]| == blocksize - 4 {
        assert rest[i] == payloads[i + 1];
      }
      CleanTransferEnds(blocksize, s1, rest, stale);
    }
  }

  /** ... and the file holds the payloads in order. */
  lemma {:induction false} CleanTransferWrites(blocksize: int, s: Session, payloads: seq<Bytes>, stale: int)
    requires ValidSession(blocksize, s) && !s.fileFailed
    requires 1 <= |payloads| && 0 <= s.lastBlockNumber && s.lastBlockNumber + |payloads| <= 9
    requires forall i | 0 <= i < |payloads| - 1 :: |payloads[i]| == blocksize - 4
    requires |payloads[|payloads| - 1]| < blocksize - 4
    ensures var t := Run(blocksize, s, RfcArrivals(s.lastBlockNumber + 1, payloads, stale));
            t.session.file == s.file + Concat(payloads)
    decreases |payloads|
  {
    var s1 := RfcRunFirst(blocksize, s, payloads, stale);
    ConcatFirst(payloads);
    if |payloads| > 1 {
      var rest := payloads[1..];
      forall i | 0 <= i < |rest| - 1 ensures |rest[i]| == blocksize - 4 {
        assert rest[i] == payloads[i + 1];
      }
      CleanTransferWrites(blocksize, s1, rest, stale);
      AppendAssoc(s.file, payloads[0], Concat(rest));
    }
  }

  /** ... and one ACK was sent per block, in order. */
  lemma {:induction false} CleanTransferAcks(blocksize: int, s: Session, payloads: seq<Bytes>, stale: int)
    requires ValidSession(blocksize, s) && !s.fileFailed
    requires 1 <= |payloads| && 0 <= s.lastBlockNumber && s.lastBlockNumber + |payloads| <= 9
    requires forall i | 0 <= i < |payloads| - 1 :: |payloads[i]| == blocksize - 4
    requires |payloads[|payloads| - 1]| < blocksize - 4
    ensures var t := Run(blocksize, s, RfcArrivals(s.lastBlockNumber + 1, payloads, stale));
            t.session.sent == s.sent + Acks(s.lastBlockNumber, s.lastBlockNumber + |payloads|)
    decreases |payloads|, 1
  {
    if |payloads| == 1 {
      var j := s.lastBlockNumber;
      var s1 := RfcRunFirst(blocksize, s, payloads, stale);
      AcksFirst(j, j + 1, j + 1, j + 1);
      var ack := Ack([0, (j + 1) as byte]);
      assert [ack] + [] == [ack];
    } else {
      CleanTransferAcksMore(blocksize, s, payloads, stale);
    }
  }

  lemma {:induction false} CleanTransferAcksMore(blocksize: int, s: Session, payloads: seq<Bytes>, stale: int)
    requires ValidSession(blocksize, s) && !s.fileFailed
    requires 1 <= |payloads| && 0 <= s.lastBlockNumber && s.lastBlockNumber + |payloads| <= 9
    requires forall i | 0 <= i < |payloads| - 1 :: |payloads[i]| == blocksize - 4
    requires |payloads[|payloads| - 1]| < blocksize - 4
    requires |payloads| > 1
    ensures var t := Run(blocksize, s, RfcArrivals(s.lastBlockNumber + 1, payloads, stale));
            t.session.sent == s.sent + Acks(s.lastBlockNumber, s.lastBlockNumber + |payloads|)
    decreases |payloads|, 0
  {
    var j := s.lastBlockNumber;
    var s1 := RfcRunFirst(blocksize, s, payloads, stale);
    var ack := Ack([0, (j + 1) as byte]);
    var rest := payloads[1..];
    forall i | 0 <= i < |rest| - 1 ensures |rest[i]| == blocksize - 4 {
      assert rest[i] == payloads[i + 1];
    }
    CleanTransferAcks(blocksize, s1, rest, stale);
    var later := Acks(s1.lastBlockNumber, s1.lastBlockNumber + |rest|);
    AcksFirst(j, j + |payloads|, s1.lastBlockNumber, s1.lastBlockNumber + |rest|);
    AppendAssoc(s.sent, [ack], later);
    var t := Run(blocksize, s, RfcArrivals(j + 1, payloads, stale));
    var t1 := Run(blocksize, s1, RfcArrivals(s1.lastBlockNumber + 1, rest, stale));
    assert t.session == t1.session;
    assert t1.session.sent == s1.sent + later;
    assert s1.sent == s.sent + [ack];
    assert Acks(j, j + |payloads|) == [ack] + later;
  }

  /** The three together. */
  lemma CleanTransfer(blocksize: int, s: Session, payloads: seq<Bytes>, stale: int)
    requires ValidSession(blocksize, s) && !s.fileFailed
    requires 1 <= |payloads| && 0 <= s.lastBlockNumber && s.lastBlockNumber + |payloads| <= 9
    requires forall i | 0 <= i < |payloads| - 1 :: |payloads[i]| == blocksize - 4
    requires |payloads[|payloads| - 1]| < blocksize - 4
    ensures var t := Run(blocksize, s, RfcArrivals(s.lastBlockNumber + 1, payloads, stale));
            t.outcome == Finished
            && t.session.file == s.file + Concat(payloads) && !t.session.fileFailed
            && t.session.sent == s.sent + Acks(s.lastBlockNumber, s.lastBlockNumber + |payloads|)
            && t.session.lastBlockNumber == s.lastBlockNumber + |payloads|
  {
    CleanTransferEnds(blocksize, s, payloads, stale);
    CleanTransferWrites(blocksize, s, payloads, stale);
    CleanTransferAcks(blocksize, s, payloads, stale);
  }

  lemma AcksFirst(last: nat, final: nat, next: nat, final': nat)
    requires last < final <= 255 && next == last + 1 && final' == final
    ensures Acks(last, final) == [Ack([0, (last + 1) as byte])] + Acks(next, final')
  {
  }

  lemma ConcatFirst(ps: seq<Bytes>)
    requires ps != []
    ensures Concat(ps) == ps[0] + Concat(ps[1..])
    ensures |ps| == 1 ==> Concat(ps) == ps[0]
  {
    if |ps| == 1 {
      assert ps[1..] == [];
    }
  }

  /** After nine accepted blocks, block 10 framed as RFC 1350 does (bytes 00 0A) reads as
      block 0: it is out of sync, so nothing is written or sent, and a full block keeps the
      loop waiting for more. */
  lemma RfcBlockTenIsOutOfSync(blocksize: int, s: Session, payload: Bytes, stale: int)
    requires ValidSession(blocksize, s) && s.lastBlockNumber == 9
    requires s.lastRecvBytesCount >= 4 && s.lastMessage[3] == 9
    ensures var o := Step(blocksize, s, Arrival(RfcData(10, payload), stale));
            o.result.Handled? && o.result.action == OutOfSync && o.result.blockNumber == 0
            && o.session.file == s.file && o.session.sent == s.sent
            && o.result.more == (|payload| + 4 >= blocksize)
  {
    var d := RfcData(10, payload);
    var a := Arrival(d, stale);
    var n := BytesReceived(blocksize, d);
    var buf := Overwrite(s.buffer, d, n);
    assert buf[..n] == d[..n];
    assert buf[0] == 0 && buf[1] == 3 && buf[2] == 0 && buf[3] == 10;
    HasOpcodeBytes(buf, 5);
    assert HeaderBlockNumber(buf, stale) == 0;
    if n == s.lastRecvBytesCount {
      assert buf[..n][3] != s.lastMessage[..n][3];
    }
    StepReceives(blocksize, s, a);
  }

  // ---------------------------------------------------------------------------------------
  // the loop, on the session's own buffers
  // ---------------------------------------------------------------------------------------

  /** The read loop's variables in place: the two `new char[blocksize]` buffers and the
      scalars, strings and output the loop updates. */
  class ReadSession {
    const blocksize: int
    const buffer: array<byte>
    const lastMessage: array<byte>
    var lastRecvBytesCount: int
    var lastBlockNumber: int
    var lastSentAck: Bytes
    var file: Bytes
    var fileFailed: bool
    var sent: seq<Bytes>

    ghost predicate Valid()
      reads this
    {
      4 <= blocksize && buffer.Length == blocksize && lastMessage.Length == blocksize
      && buffer != lastMessage && 0 <= lastRecvBytesCount <= blocksize
    }

    ghost function State(): Session
      reads this, buffer, lastMessage
    {
      Session(buffer[..], lastMessage[..], lastRecvBytesCount, lastBlockNumber, lastSentAck,
              file, fileFailed, sent)
    }

    /** The state just before the loop; the buffers hold what the allocator left in them. */
    constructor (size: int, bufferJunk: Bytes, lastJunk: Bytes)
      requires 4 <= size && |bufferJunk| == size && |lastJunk| == size
      ensures Valid() && fresh(buffer) && fresh(lastMessage) && blocksize == size
      ensures State() == Initial(size, bufferJunk, lastJunk)
    {
      blocksize := size;
      buffer := new byte[size](i requires 0 <= i < size => bufferJunk[i]);
      lastMessage := new byte[size](i requires 0 <= i < size => lastJunk[i]);
      lastRecvBytesCount, lastBlockNumber, lastSentAck := 0, 0, [];
      file, fileFailed, sent := [], false, [];
      new;
      assert buffer[..] == bufferJunk && lastMessage[..] == lastJunk;
    }

    /** One pass of the loop body. */
    method StepOnce(a: Arrival) returns (r: StepResult)
      requires Valid()
      modifies this, buffer, lastMessage
      ensures Valid()
      ensures Stepped(State(), r) == Step(blocksize, old(State()), a)
    {
      ghost var s0 := State();
      var recvBytesCount := Protocol.Deliver(buffer, blocksize, a.datagram);
      ghost var s1 := s0.(buffer := buffer[..]);
      assert State() == s1;
      var blockNumber := HeaderBlockNumber(buffer[..], a.staleBlockNumber);
      if HasOpcode(buffer[..], 5) {
        r := ErrorPacket(if recvBytesCount < 4 then [] else buffer[4..recvBytesCount]);
        return;
      }
      var unusual := !HasOpcode(buffer[..], 3);
      if blockNumber == lastBlockNumber + 1 {
        assert Classify(s0, s1.buffer, recvBytesCount, blockNumber) == Accepted;
        AcceptBlock(recvBytesCount, blockNumber);
        r := Handled(Accepted, blockNumber, unusual, recvBytesCount == blocksize);
      } else if recvBytesCount == lastRecvBytesCount && buffer[..recvBytesCount] == lastMessage[..recvBytesCount] {
        sent := sent + [lastSentAck];
        r := Handled(ResentAck, blockNumber, unusual, recvBytesCount == blocksize);
      } else {
        r := Handled(OutOfSync, blockNumber, unusual, recvBytesCount == blocksize);
      }
    }

    /** The accepting branch: write the payload, send the ACK and remember it, copy the
        datagram into `lastMessage`, and remember its length and block number. */
    method AcceptBlock(recvBytesCount: int, blockNumber: int)
      requires Valid() && 0 <= recvBytesCount <= blocksize
      modifies this, lastMessage
      ensures Valid()
      ensures State() == Accept(old(State()), recvBytesCount, blockNumber)
    {
      ghost var s0 := State();
      if !fileFailed {
        if recvBytesCount < 4 {
          fileFailed := true;
        } else {
          file := file + buffer[4..recvBytesCount];
        }
      }
      assert (file, fileFailed) == WriteFile(s0.file, s0.fileFailed, s0.buffer, recvBytesCount);
      var ackMessage := Ack([buffer[2], buffer[3]]);
      sent := sent + [ackMessage];
      lastSentAck := ackMessage;
      CopyPrefix(buffer, lastMessage, recvBytesCount);
      lastBlockNumber := blockNumber;
      lastRecvBytesCount := recvBytesCount;
      assert buffer[..] == s0.buffer;
    }

    /** The do-while loop, fed from `arrivals`. */
    method Transfer(arrivals: seq<Arrival>) returns (outcome: Outcome, steps: seq<StepResult>)
      requires Valid()
      modifies this, buffer, lastMessage
      ensures Valid()
      ensures Trace(State(), steps, outcome) == Run(blocksize, old(State()), arrivals)
    {
      var i := 0;
      steps := [];
      while true
        invariant Valid() && 0 <= i <= |arrivals|
        invariant Run(blocksize, old(State()), arrivals)
                  == Trace(Run(blocksize, State(), arrivals[i..]).session,
                           steps + Run(blocksize, State(), arrivals[i..]).steps,
                           Run(blocksize, State(), arrivals[i..]).outcome)
        decreases |arrivals| - i
      {
        if i == |arrivals| {
          outcome := AwaitingDatagram;
          return;
        }
        ghost var s := State();
        ghost var rest := arrivals[i..];
        ghost var done := steps;
        assert rest[0] == arrivals[i] && rest[1..] == arrivals[i + 1..];
        var r := StepOnce(arrivals[i]);
        RunUnroll(blocksize, s, rest, Stepped(State(), r));
        steps := steps + [r];
        i := i + 1;
        if !r.ErrorPacket? && r.more {
          AppendAssoc(done, [r], Run(blocksize, State(), arrivals[i..]).steps);
        }
        if r.ErrorPacket? {
          outcome := ServerError(r.message);
          return;
        }
        if !r.more {
          outcome := Finished;
          return;
        }
      }
    }
  }

  /** `memcpy(dst, src, n)`. */
  method CopyPrefix(src: array<byte>, dst: array<byte>, n: int)
    requires src != dst && 0 <= n <= src.Length && n <= dst.Length
    modifies dst
    ensures dst[..] == Overwrite(old(dst[..]), src[..], n)
  {
    var i := 0;
    while i < n
      invariant 0 <= i <= n
      invariant forall k | 0 <= k < dst.Length :: dst[k] == if k < i then src[k] else old(dst[k])
    {
      dst[i] := src[i];
      i := i + 1;
    }
    OverwriteParts(old(dst[..]), src[..], n);
  }

  // ---------------------------------------------------------------------------------------
  // parseServerConfig
  // ---------------------------------------------------------------------------------------

  const COMMA: byte := 44

  /** The server name, and the effect on the uninitialised `port` of the extraction that
      follows the comma (`Untouched` when nothing is read into it). */
  datatype ServerConfig = ServerConfig(server: Bytes, port: Extraction)

  /** `getline(test, segment, ',')` takes the text up to the first comma (all of it when
      there is none, which leaves the stream at its end so the port is not read); the
      port is then extracted from what follows the comma. */
  function ParseServerConfig(confString: Bytes): ServerConfig
  {
    if COMMA in confString then
      var k := IndexOf(confString, COMMA);
      ServerConfig(confString[..k], ExtractInt(confString[k + 1..]))
    else ServerConfig(confString, Untouched)
  }

  /** "host,port" with a comma-free host and a port in `int` range parses back to both. */
  lemma ParseServerConfigRoundTrip(host: Bytes, port: int)
    requires COMMA !in host && INT_MIN <= port <= INT_MAX
    ensures ParseServerConfig(host + [COMMA] + ToDecimal(port)) == ServerConfig(host, Stored(port))
  {
    var conf := host + [COMMA] + ToDecimal(port);
    forall i | 0 <= i < |host| ensures conf[i] != COMMA {
      assert conf[i] == host[i];
    }
    IndexOfIs(conf, COMMA, |host|);
    assert conf[..|host|] == host;
    assert conf[|host| + 1..] == ToDecimal(port);
    DecimalRoundTrip(port);
  }

  /** The default address argument "127.0.0.1,69". */
  lemma DefaultServerConfig()
    ensures ParseServerConfig(Ascii("127.0.0.1,69")) == ServerConfig(Ascii("127.0.0.1"), Stored(69))
  {
    assert Ascii("127.0.0.1,69") == Ascii("127.0.0.1") + [COMMA] + ToDecimal(69);
    ParseServerConfigRoundTrip(Ascii("127.0.0.1"), 69);
  }
}
