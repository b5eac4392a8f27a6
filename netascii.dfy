/** The two netascii transcoding loops of the TFTP class, exactly as the client runs them:
    `netasciiToOctet` rewrites a buffer in place and counts, `octetToNetascii` copies into a
    caller buffer of double capacity. Each method is proved against a function on sequences. */
module Netascii {
  import opened Octets

  function Clip(length: int): nat { if length < 0 then 0 else length }

  // ---------------------------------------------------------------------------------------
  // netascii to octet (src/tftp.cpp:19-57)
  // ---------------------------------------------------------------------------------------

  /** Whether a carriage return is pending when byte `i` of `s` is examined: at index 0 it is
      the flag passed in, later it is whether the byte before was a carriage return. */
  function PendingAt(s: Bytes, cr: bool, i: nat): bool
    requires i <= |s|
  {
    if i == 0 then cr else s[i - 1] == CR
  }

  /** The buffer after the scan: the only byte that changes is a NUL behind a pending
      carriage return, which becomes a carriage return. */
  function Decoded(s: Bytes, cr: bool): Bytes
  {
    seq(|s|, i requires 0 <= i < |s| => if s[i] == NUL && PendingAt(s, cr, i) then CR else s[i])
  }

  /** What one byte adds to the returned count, with the fall-through of the `'\n'` case
      into `default` (a line feed behind a pending carriage return adds two). */
  function Weight(b: byte, pending: bool): nat
  {
    if b == CR || b == NUL then (if pending then 1 else 0)
    else if b == LF then (if pending then 2 else 1)
    else 1
  }

  /** The count returned for the whole buffer: the per-byte weights summed left to right. */
  function DecodedCount(s: Bytes, cr: bool): nat
  {
    if s == [] then 0
    else DecodedCount(s[..|s| - 1], cr) + Weight(s[|s| - 1], PendingAt(s, cr, |s| - 1))
  }

  /** The flag as the scan leaves it. */
  function Carry(s: Bytes, cr: bool): bool
  {
    PendingAt(s, cr, |s|)
  }

  method NetasciiToOctet(buffer: array<byte>, offset: nat, length: int, previousCr: bool)
    returns (resultLength: int, cr: bool)
    requires offset + Clip(length) <= buffer.Length
    modifies buffer
    ensures resultLength == DecodedCount(old(buffer[offset..offset + Clip(length)]), previousCr)
    ensures buffer[..] == old(buffer[..offset])
                          + Decoded(old(buffer[offset..offset + Clip(length)]), previousCr)
                          + old(buffer[offset + Clip(length)..])
    ensures cr == if length <= 0 then previousCr else old(buffer[offset + length - 1]) == CR
  {
    ghost var s := buffer[offset..offset + Clip(length)];
    ghost var before := buffer[..];
    resultLength, cr := 0, previousCr;
    var i := 0;
    while i < length
      invariant 0 <= i <= Clip(length)
      invariant resultLength == DecodedCount(s[..i], previousCr)
      invariant cr == PendingAt(s, previousCr, i)
      invariant forall k | 0 <= k < offset || offset + i <= k < buffer.Length :: buffer[k] == before[k]
      invariant forall k | 0 <= k < i :: buffer[offset + k] == Decoded(s, previousCr)[k]
    {
      var b := buffer[offset + i];
      assert b == s[i];
      ghost var count := resultLength;
      ghost var pending := cr;
      DecodedCountStep(s, previousCr, i);
      if b == CR {
        if cr {
          buffer[offset + i] := CR;
          resultLength := resultLength + 1;
        }
        cr := true;
      } else {
        if b == NUL {
          if cr {
            buffer[offset + i] := CR;
            resultLength := resultLength + 1;
          }
        } else {
          if b == LF && cr {
            buffer[offset + i] := LF;
            resultLength := resultLength + 1;
          }
          // the `'\n'` case falls through into `default`
          resultLength := resultLength + 1;
        }
        cr := false;
      }
      assert resultLength == count + Weight(b, pending);
      assert buffer[offset + i] == Decoded(s, previousCr)[i];
      i := i + 1;
    }
    assert s[..i] == s;
    ghost var want := before[..offset] + Decoded(s, previousCr) + before[offset + Clip(length)..];
    forall k | 0 <= k < buffer.Length ensures buffer[k] == want[k] {
      if offset <= k < offset + i {
        assert buffer[offset + (k - offset)] == Decoded(s, previousCr)[k - offset];
      }
    }
    assert buffer[..] == want;
  }

  /** The count over one more byte, and what the scan writes at that byte. */
  lemma DecodedCountStep(s: Bytes, cr: bool, i: nat)
    requires i < |s|
    ensures DecodedCount(s[..i + 1], cr) == DecodedCount(s[..i], cr) + Weight(s[i], PendingAt(s, cr, i))
    ensures Decoded(s, cr)[i] == if s[i] == NUL && PendingAt(s, cr, i) then CR else s[i]
  {
    var p := s[..i + 1];
    assert p[..i] == s[..i];
    assert PendingAt(p, cr, i) == PendingAt(s, cr, i);
  }

  // ---------------------------------------------------------------------------------------
  // octet to netascii (src/tftp.cpp:59-85)
  // ---------------------------------------------------------------------------------------

  /** What the expansion loop writes from input index `i` on: a carriage return becomes
      CR NUL and a line feed CR LF, and in both cases the input byte after it is skipped,
      because the loop writes the second byte at the next input index and then steps past it. */
  function EncodedFrom(s: Bytes, i: nat): Bytes
    decreases |s| - i
  {
    if i >= |s| then []
    else if s[i] == CR then [CR, NUL] + EncodedFrom(s, i + 2)
    else if s[i] == LF then [CR, LF] + EncodedFrom(s, i + 2)
    else [s[i]] + EncodedFrom(s, i + 1)
  }

  function Encoded(s: Bytes): Bytes
  {
    EncodedFrom(s, 0)
  }

  method OctetToNetascii(buffer: array<byte>, output: array<byte>, length: int) returns (resultLength: int)
    requires buffer != output
    requires length <= buffer.Length && 2 * length <= output.Length
    modifies output
    ensures Clip(length) <= resultLength <= Clip(length) + 1 && resultLength <= output.Length
    ensures resultLength == |Encoded(buffer[..Clip(length)])|
    ensures output[..resultLength] == Encoded(buffer[..Clip(length)])
    ensures output[resultLength..] == old(output[resultLength..])
  {
    ghost var s := buffer[..Clip(length)];
    ghost var before := output[..];
    resultLength := 0;
    var i := 0;
    while i < length
      invariant 0 <= i <= Clip(length) + 1 && resultLength == i && i <= output.Length
      invariant output[..i] + EncodedFrom(s, i) == Encoded(s)
      invariant output[i..] == before[i..]
    {
      ghost var done := output[..i];
      if buffer[i] == CR || buffer[i] == LF {
        var second := if buffer[i] == CR then NUL else LF;
        assert EncodedFrom(s, i) == [CR, second] + EncodedFrom(s, i + 2);
        output[i] := CR;
        output[i + 1] := second;
        assert output[..i + 2] == done + [CR, second];
        AppendAssoc(done, [CR, second], EncodedFrom(s, i + 2));
        i := i + 1;  // the `++i` that skips the next input byte
        resultLength := resultLength + 2;
      } else {
        assert EncodedFrom(s, i) == [s[i]] + EncodedFrom(s, i + 1);
        output[i] := buffer[i];
        assert output[..i + 1] == done + [s[i]];
        AppendAssoc(done, [s[i]], EncodedFrom(s, i + 1));
        resultLength := resultLength + 1;
      }
      i := i + 1;
    }
    assert output[..i] == Encoded(s);
  }

  // ---------------------------------------------------------------------------------------
  // properties of the two transcoders
  // ---------------------------------------------------------------------------------------

  /** The returned count exceeds the buffer length by at most one, and only when a carriage
      return was pending on entry and none is pending on exit. */
  lemma {:induction false} DecodedCountBound(s: Bytes, cr: bool)
    ensures DecodedCount(s, cr) + (if Carry(s, cr) then 1 else 0) <= |s| + (if cr then 1 else 0)
    decreases |s|
  {
    if s != [] {
      var p := s[..|s| - 1];
      DecodedCountBound(p, cr);
      assert Carry(p, cr) == PendingAt(s, cr, |s| - 1);
    }
  }

  /** Scanning a buffer in two calls, passing the flag from the first to the second, gives
      the same bytes, count and final flag as one scan of the whole buffer. */
  lemma DecodedInChunks(s1: Bytes, s2: Bytes, cr: bool)
    ensures Decoded(s1 + s2, cr) == Decoded(s1, cr) + Decoded(s2, Carry(s1, cr))
    ensures DecodedCount(s1 + s2, cr) == DecodedCount(s1, cr) + DecodedCount(s2, Carry(s1, cr))
    ensures Carry(s1 + s2, cr) == Carry(s2, Carry(s1, cr))
  {
    PendingInChunks(s1, s2, cr);
    var s := s1 + s2;
    var d := Decoded(s1, cr) + Decoded(s2, Carry(s1, cr));
    forall i | 0 <= i < |s| ensures Decoded(s, cr)[i] == d[i] {
      if i >= |s1| {
        assert PendingAt(s, cr, i) == PendingAt(s2, Carry(s1, cr), i - |s1|);
      }
    }
    assert Decoded(s, cr) == d;
    DecodedCountInChunks(s1, s2, cr);
  }

  /** Past the first chunk, the pending flag is the second chunk's, started from the first
      chunk's carry. */
  lemma PendingInChunks(s1: Bytes, s2: Bytes, cr: bool)
    ensures forall i | 0 <= i <= |s2| :: PendingAt(s1 + s2, cr, |s1| + i) == PendingAt(s2, Carry(s1, cr), i)
    ensures Carry(s1 + s2, cr) == Carry(s2, Carry(s1, cr))
  {
    var s := s1 + s2;
    forall i | 0 <= i <= |s2| ensures PendingAt(s, cr, |s1| + i) == PendingAt(s2, Carry(s1, cr), i) {
      if i > 0 {
        assert s[|s1| + i - 1] == s2[i - 1];
      }
    }
    assert PendingAt(s, cr, |s1| + |s2|) == PendingAt(s2, Carry(s1, cr), |s2|);
  }

  lemma {:induction false} DecodedCountInChunks(s1: Bytes, s2: Bytes, cr: bool)
    ensures DecodedCount(s1 + s2, cr) == DecodedCount(s1, cr) + DecodedCount(s2, Carry(s1, cr))
    decreases |s2|
  {
    var s := s1 + s2;
    if s2 == [] {
      assert s == s1;
    } else {
      var q := s2[..|s2| - 1];
      DecodedCountInChunks(s1, q, cr);
      PendingInChunks(s1, s2, cr);
      assert s[..|s| - 1] == s1 + q;
      assert s[|s| - 1] == s2[|s2| - 1];
      assert PendingAt(s, cr, |s1| + (|s2| - 1)) == PendingAt(s2, Carry(s1, cr), |s2| - 1);
    }
  }

  /** The expansion is the input length, or one more (when the loop's last step is on a
      carriage return or line feed in the final position). */
  lemma {:induction false} EncodedLength(s: Bytes, i: nat)
    requires i <= |s|
    ensures |s| - i <= |EncodedFrom(s, i)| <= |s| - i + 1
    decreases |s| - i
  {
    if i < |s| {
      if s[i] == CR || s[i] == LF {
        if i + 2 <= |s| {
          EncodedLength(s, i + 2);
        }
      } else {
        EncodedLength(s, i + 1);
      }
    }
  }

  /** Bytes other than carriage return and line feed are copied unchanged. */
  lemma {:induction false} EncodedPlain(s: Bytes, i: nat)
    requires i <= |s|
    requires forall k | i <= k < |s| :: s[k] != CR && s[k] != LF
    ensures EncodedFrom(s, i) == s[i..]
    decreases |s| - i
  {
    if i < |s| {
      EncodedPlain(s, i + 1);
      assert s[i..] == [s[i]] + s[i + 1..];
    }
  }

  /** The byte after a carriage return or line feed is lost: "\r\n" comes out as CR NUL,
      and scanning that back gives CR CR with a count of 1. */
  lemma LineEndAfterCarriageReturnIsLost()
    ensures Encoded([CR, LF]) == [CR, NUL]
    ensures Decoded([CR, NUL], false) == [CR, CR] && DecodedCount([CR, NUL], false) == 1
  {
    assert EncodedFrom([CR, LF], 2) == [];
    assert [CR, NUL][..1] == [CR];
    assert DecodedCount([CR], false) == 0;
  }

  /** A lone line feed expands to CR LF; the scan leaves that pair as it is and, because of
      the fall-through, counts the line feed twice: 2 where the pair stands for one byte. */
  lemma LineFeedCountedTwice()
    ensures Encoded([LF]) == [CR, LF]
    ensures Decoded([CR, LF], false) == [CR, LF] && DecodedCount([CR, LF], false) == 2
  {
    assert EncodedFrom([LF], 2) == [];
    assert [CR, LF][..1] == [CR];
    assert DecodedCount([CR], false) == 0;
  }
}
