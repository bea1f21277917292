/**
 * What syna_tcm_read_message reads, as a function of what the bus delivers:
 * the header read with its retry policy, the assembly of the whole message
 * (predictive read, padding-only remainder, continued read), the padding
 * check and the next predictive read length. The device class in TcmCore
 * performs these steps on its own state and is proved to end in the state
 * this specification describes.
 */
module TcmRead {
  import opened Errno
  import opened TcmProtocol
  import opened TcmChunks

  /** Maximum number of consecutive bad-marker reads that are retried. */
  const MARKER_RETRIES: nat := 20

  /** Bus reads a header read makes at most: 20 counted retries, one last retry and the read that gives up. */
  const MAX_HEADER_READS: nat := MARKER_RETRIES + 2

  /** `data` written into `buf` from index `at` on. */
  function Overwrite(buf: seq<byte>, at: nat, data: seq<byte>): (r: seq<byte>)
    requires at + |data| <= |buf|
    ensures |r| == |buf|
  {
    buf[..at] + data + buf[at + |data|..]
  }

  /** Writing `done` and then `more` right after it is writing `done + more`. */
  lemma OverwriteAppend(buf: seq<byte>, at: nat, done: seq<byte>, more: seq<byte>)
    requires at + |done| + |more| <= |buf|
    ensures Overwrite(Overwrite(buf, at, done), at + |done|, more) == Overwrite(buf, at, done + more)
  {
  }

  /** Writing nothing leaves the buffer as it is. */
  lemma OverwriteNothing(buf: seq<byte>, at: nat)
    requires at <= |buf|
    ensures Overwrite(buf, at, []) == buf
  {
  }

  /** Storing one byte is writing a one-byte sequence. */
  lemma OverwriteOne(buf: seq<byte>, at: nat, b: byte)
    requires at < |buf|
    ensures buf[at := b] == Overwrite(buf, at, [b])
  {
  }

  /** A buffer reallocated to at least `size` bytes, keeping its contents. */
  function Grow(buf: seq<byte>, size: nat): (r: seq<byte>)
    ensures |r| == if |buf| >= size then |buf| else size
    ensures r[..|buf|] == buf
  {
    if |buf| >= size then buf else buf + seq(size - |buf|, _ => 0)
  }

  // ---------------------------------------------------------------------
  // Header read and its retries
  // ---------------------------------------------------------------------

  datatype HeaderOutcome =
    | HeaderFailed(err: int)                   // bus failure or bad marker, retries spent
    | ControlStatus(status: byte)              // IDLE, BUSY or out-of-sync CONTINUED_READ: nothing to read
    | Header(code: byte, payloadLength: nat)   // a message to assemble

  /**
   * Result of the header read: its outcome, the input buffer, the bus reads
   * left, how many bus reads it made, and the status_report_code and
   * payload_length fields as the last good header set them.
   */
  datatype HeaderRead = HeaderRead(outcome: HeaderOutcome, buf: seq<byte>, rest: seq<BusRead>,
                                   readCount: nat, code: byte, payloadLength: nat)

  function Again(h: HeaderRead): HeaderRead
  {
    h.(readCount := h.readCount + 1)
  }

  /**
   * The retry loop of syna_tcm_read_message: read `n` bytes into the buffer;
   * a bus failure is retried once; a bad marker is retried while fewer than 20
   * retries were counted and then once more; an INVALID status is retried
   * once and otherwise taken with a zero payload length.
   */
  function ReadHeader(rx: seq<BusRead>, buf: seq<byte>, n: nat, retry: bool, cnt: nat,
                      code: byte, payloadLength: nat): (h: HeaderRead)
    requires n <= |buf| && MESSAGE_HEADER_SIZE <= |buf| && cnt <= MARKER_RETRIES
    ensures |h.buf| == |buf|
    ensures h.readCount >= 1
    ensures h.outcome.HeaderFailed? ==> h.outcome.err < 0
    decreases if retry then MAX_HEADER_READS - cnt else 0
  {
    if rx == [] || rx[0].Failed? then
      var rest := if rx == [] then [] else rx[1..];
      if retry then Again(ReadHeader(rest, buf, n, false, cnt, code, payloadLength))
      else HeaderRead(HeaderFailed(BUS_ERROR), buf, rest, 1, code, payloadLength)
    else
      var b := Overwrite(buf, 0, Clocked(rx[0].bytes, n));
      if b[0] != MESSAGE_MARKER then
        if retry && cnt < MARKER_RETRIES then Again(ReadHeader(rx[1..], b, n, true, cnt + 1, code, payloadLength))
        else if retry then Again(ReadHeader(rx[1..], b, n, false, 0, code, payloadLength))
        else HeaderRead(HeaderFailed(-ENXIO), b, rx[1..], 1, code, payloadLength)
      else
        var c := b[1];
        var len := Le16(b[2], b[3]);
        if c == STATUS_CONTINUED_READ || c == STATUS_IDLE || c == STATUS_BUSY then
          HeaderRead(ControlStatus(c), b, rx[1..], 1, c, 0)
        else if c == STATUS_INVALID && retry then
          Again(ReadHeader(rx[1..], b, n, false, cnt, c, len))
        else if c == STATUS_INVALID then
          HeaderRead(Header(c, 0), b, rx[1..], 1, c, 0)
        else
          HeaderRead(Header(c, len), b, rx[1..], 1, c, len)
  }

  /**
   * A header handed on for assembly is the one status_report_code and
   * payload_length were last set from: its code is neither a control status
   * nor a retried INVALID, and its length is a 16-bit field (0 for INVALID).
   */
  lemma {:induction false} ReadHeaderTakes(rx: seq<BusRead>, buf: seq<byte>, n: nat, retry: bool, cnt: nat,
                                           code: byte, payloadLength: nat)
    requires n <= |buf| && MESSAGE_HEADER_SIZE <= |buf| && cnt <= MARKER_RETRIES
    ensures var h := ReadHeader(rx, buf, n, retry, cnt, code, payloadLength);
      h.outcome.Header? ==>
        h.code == h.outcome.code && h.payloadLength == h.outcome.payloadLength && h.payloadLength < 0x1_0000
        && h.code != STATUS_CONTINUED_READ && h.code != STATUS_IDLE && h.code != STATUS_BUSY
        && (h.code == STATUS_INVALID ==> h.payloadLength == 0)
    decreases if retry then MAX_HEADER_READS - cnt else 0
  {
    if rx == [] || rx[0].Failed? {
      if retry {
        ReadHeaderTakes(if rx == [] then [] else rx[1..], buf, n, false, cnt, code, payloadLength);
      }
    } else {
      var b := Overwrite(buf, 0, Clocked(rx[0].bytes, n));
      if b[0] != MESSAGE_MARKER {
        if retry && cnt < MARKER_RETRIES {
          ReadHeaderTakes(rx[1..], b, n, true, cnt + 1, code, payloadLength);
        } else if retry {
          ReadHeaderTakes(rx[1..], b, n, false, 0, code, payloadLength);
        }
      } else if b[1] == STATUS_INVALID && retry {
        ReadHeaderTakes(rx[1..], b, n, false, cnt, b[1], Le16(b[2], b[3]));
      }
    }
  }

  /** The header read makes at most 22 bus reads. */
  lemma {:induction false} ReadHeaderBounded(rx: seq<BusRead>, buf: seq<byte>, n: nat, retry: bool, cnt: nat,
                                             code: byte, payloadLength: nat)
    requires n <= |buf| && MESSAGE_HEADER_SIZE <= |buf| && cnt <= MARKER_RETRIES
    ensures ReadHeader(rx, buf, n, retry, cnt, code, payloadLength).readCount
            <= if retry then MAX_HEADER_READS - cnt else 1
    decreases if retry then MAX_HEADER_READS - cnt else 0
  {
    if rx == [] || rx[0].Failed? {
      var rest := if rx == [] then [] else rx[1..];
      if retry {
        ReadHeaderBounded(rest, buf, n, false, cnt, code, payloadLength);
      }
    } else {
      var b := Overwrite(buf, 0, Clocked(rx[0].bytes, n));
      if b[0] != MESSAGE_MARKER {
        if retry && cnt < MARKER_RETRIES {
          ReadHeaderBounded(rx[1..], b, n, true, cnt + 1, code, payloadLength);
        } else if retry {
          ReadHeaderBounded(rx[1..], b, n, false, 0, code, payloadLength);
        }
      } else if b[1] == STATUS_INVALID && retry {
        ReadHeaderBounded(rx[1..], b, n, false, cnt, b[1], Le16(b[2], b[3]));
      }
    }
  }

  /** A bus read whose first byte is not the message marker. */
  predicate BadMarker(r: BusRead)
  {
    r.Delivered? && Clocked(r.bytes, 1)[0] != MESSAGE_MARKER
  }

  /** Number of bus reads the header read makes when every answer has a wrong marker. */
  function GiveUpReads(retry: bool, cnt: nat): nat
    requires cnt <= MARKER_RETRIES
  {
    if retry then MAX_HEADER_READS - cnt else 1
  }

  /**
   * A device that answers with a wrong marker every time is read exactly
   * 22 times (from a fresh retry count), and the read fails with -ENXIO.
   */
  lemma {:induction false} ReadHeaderGivesUp(rx: seq<BusRead>, buf: seq<byte>, n: nat, retry: bool, cnt: nat,
                                             code: byte, payloadLength: nat)
    requires 1 <= n <= |buf| && MESSAGE_HEADER_SIZE <= |buf| && cnt <= MARKER_RETRIES
    requires |rx| >= GiveUpReads(retry, cnt) && forall k :: 0 <= k < GiveUpReads(retry, cnt) ==> BadMarker(rx[k])
    ensures var h := ReadHeader(rx, buf, n, retry, cnt, code, payloadLength);
      h.outcome == HeaderFailed(-ENXIO) && h.readCount == GiveUpReads(retry, cnt) && h.rest == rx[h.readCount..]
    decreases if retry then MAX_HEADER_READS - cnt else 0
  {
    assert BadMarker(rx[0]);
    var b := Overwrite(buf, 0, Clocked(rx[0].bytes, n));
    assert b[0] == Clocked(rx[0].bytes, n)[0] == Clocked(rx[0].bytes, 1)[0];
    if retry {
      var retry' := cnt < MARKER_RETRIES;
      var cnt' := if retry' then cnt + 1 else 0;
      assert forall k :: 0 <= k < GiveUpReads(retry', cnt') ==> BadMarker(rx[1..][k]) by {
        forall k | 0 <= k < GiveUpReads(retry', cnt') ensures BadMarker(rx[1..][k]) {
          assert rx[1..][k] == rx[k + 1];
        }
      }
      ReadHeaderGivesUp(rx[1..], b, n, retry', cnt', code, payloadLength);
      var h' := ReadHeader(rx[1..], b, n, retry', cnt', code, payloadLength);
      assert rx[1..][h'.readCount..] == rx[h'.readCount + 1..];
    }
  }

  /** A bus failure is retried once; a second failure in a row is returned. */
  lemma BusFailureRetriedOnce(rx: seq<BusRead>, buf: seq<byte>, n: nat, code: byte, payloadLength: nat)
    requires n <= |buf| && MESSAGE_HEADER_SIZE <= |buf|
    requires |rx| >= 2 && rx[0].Failed? && rx[1].Failed?
    ensures var h := ReadHeader(rx, buf, n, true, 0, code, payloadLength);
      h.outcome == HeaderFailed(BUS_ERROR) && h.readCount == 2 && h.rest == rx[2..] && h.buf == buf
  {
    assert rx[1..][1..] == rx[2..];
  }

  /** An INVALID status is read again once, and the second INVALID is taken as an empty message. */
  lemma InvalidRetriedOnce(rx: seq<BusRead>, buf: seq<byte>, n: nat, code: byte, payloadLength: nat)
    requires 4 <= n <= |buf|
    requires |rx| >= 2 && rx[0].Delivered? && rx[1].Delivered?
    requires forall k :: 0 <= k < 2 ==> Clocked(rx[k].bytes, 2) == [MESSAGE_MARKER, STATUS_INVALID]
    ensures var h := ReadHeader(rx, buf, n, true, 0, code, payloadLength);
      h.outcome == Header(STATUS_INVALID, 0) && h.readCount == 2 && h.rest == rx[2..]
  {
    var b := Overwrite(buf, 0, Clocked(rx[0].bytes, n));
    assert b[..2] == Clocked(rx[0].bytes, n)[..2] == Clocked(rx[0].bytes, 2);
    var b' := Overwrite(b, 0, Clocked(rx[1].bytes, n));
    assert rx[1..][0] == rx[1];
    assert b'[..2] == Clocked(rx[1].bytes, n)[..2] == Clocked(rx[1].bytes, 2);
    assert rx[1..][1..] == rx[2..];
  }

  /**
   * A good header is taken as it is read: IDLE, BUSY and CONTINUED_READ end
   * the read with nothing to assemble, any other code is a message whose
   * payload length is the header's little-endian length field.
   */
  lemma GoodHeaderTaken(rx: seq<BusRead>, buf: seq<byte>, n: nat, retry: bool, code: byte, payloadLength: nat)
    requires 4 <= n <= |buf|
    requires rx != [] && rx[0].Delivered?
    requires Clocked(rx[0].bytes, 1)[0] == MESSAGE_MARKER
    requires Clocked(rx[0].bytes, 2)[1] != STATUS_INVALID
    ensures var hdr := Clocked(rx[0].bytes, 4);
      var h := ReadHeader(rx, buf, n, retry, 0, code, payloadLength);
      h.readCount == 1 && h.rest == rx[1..] && h.buf[..n] == Clocked(rx[0].bytes, n)
      && h.outcome == (if hdr[1] in {STATUS_IDLE, STATUS_BUSY, STATUS_CONTINUED_READ}
                       then ControlStatus(hdr[1])
                       else Header(hdr[1], Le16(hdr[2], hdr[3])))
  {
    var b := Overwrite(buf, 0, Clocked(rx[0].bytes, n));
    assert b[..4] == Clocked(rx[0].bytes, n)[..4] == Clocked(rx[0].bytes, 4);
    assert b[1] == Clocked(rx[0].bytes, 2)[1];
  }

  // ---------------------------------------------------------------------
  // Message assembly
  // ---------------------------------------------------------------------

  /** MAX(total, MIN_READ_LENGTH), capped by the read chunk size when there is one. */
  function NextReadLength(total: nat, rdChunkSize: nat): nat
  {
    var t := if total > MIN_READ_LENGTH then total else MIN_READ_LENGTH;
    if rdChunkSize == 0 || t < rdChunkSize then t else rdChunkSize
  }

  /**
   * The predictive read length never drops below MIN_READ_LENGTH or the
   * chunk size, never exceeds the chunk size, and covers the last message
   * whenever the chunk size allows.
   */
  lemma NextReadLengthBounds(total: nat, rdChunkSize: nat)
    ensures var r := NextReadLength(total, rdChunkSize);
      (rdChunkSize == 0 || rdChunkSize >= MIN_READ_LENGTH ==> r >= MIN_READ_LENGTH)
      && (rdChunkSize > 0 ==> r <= rdChunkSize && (r == rdChunkSize || r >= total))
      && (rdChunkSize == 0 ==> r >= total && (r == total || r == MIN_READ_LENGTH))
      && r >= (if rdChunkSize == 0 || rdChunkSize >= MIN_READ_LENGTH then MIN_READ_LENGTH else rdChunkSize)
  {
  }

  datatype Assembled = Assembled(err: int, buf: seq<byte>, rest: seq<BusRead>)

  /** Transfer lengths of the continued read of a message of `total` bytes of which `readLength` are in. */
  function ContinuationTransfers(total: nat, readLength: nat, rdChunkSize: nat): seq<nat>
    requires readLength <= total
    requires rdChunkSize == 0 || rdChunkSize >= 2
  {
    Transfers(total - readLength, ReadSpace(rdChunkSize, total - readLength))
  }

  /** The continuation transfers are the chunk loop over what the header read left, in chunks of the read space. */
  lemma ContinuationXfers(total: nat, readLength: nat, rdChunkSize: nat)
    requires readLength <= total
    requires rdChunkSize == 0 || rdChunkSize >= 2
    ensures var xs := ContinuationTransfers(total, readLength, rdChunkSize);
      var space := ReadSpace(rdChunkSize, total - readLength);
      |xs| == NumChunks(total - readLength, space) && xs == Xfers(total - readLength, space, |xs|)
  {
  }

  /** The padding check that ends every assembled message. */
  function CheckPadding(buf: seq<byte>, total: nat, rest: seq<BusRead>): Assembled
    requires 1 <= total <= |buf|
  {
    Assembled(if buf[total - 1] != MESSAGE_PADDING then -EIO else 0, buf, rest)
  }

  /**
   * Completing a message after its header: a message already read whole only
   * needs its padding byte checked; one exactly a byte longer than the read
   * gets its padding byte supplied (after the buffer is grown to hold it);
   * anything longer is read on by syna_tcm_continued_read into a buffer of
   * total + 1 bytes, after which the header bytes are rewritten.
   */
  function Assemble(buf: seq<byte>, rx: seq<BusRead>, readLength: nat, rdChunkSize: nat,
                    code: byte, payloadLength: nat): (a: Assembled)
    requires readLength < |buf| && MESSAGE_HEADER_SIZE <= |buf|
    requires rdChunkSize == 0 || rdChunkSize >= 2
    ensures |a.buf| >= |buf| && |a.buf| > readLength && |a.buf| > MESSAGE_HEADER_SIZE + payloadLength + 1
    ensures a.err == 0 || a.err == -EIO
  {
    var total := MESSAGE_HEADER_SIZE + payloadLength + 1;
    if total <= readLength then CheckPadding(buf, total, rx)
    else if total - 1 == readLength then
      CheckPadding(Grow(buf, total + 1)[readLength := MESSAGE_PADDING], total, rx)
    else Continuation(buf, rx, readLength, rdChunkSize, code, payloadLength)
  }

  /**
   * A message longer than the read plus its padding byte: read on with
   * syna_tcm_continued_read, then rewrite the header bytes (the continuation
   * chunks do not carry them) and check the padding.
   */
  function Continuation(buf: seq<byte>, rx: seq<BusRead>, readLength: nat, rdChunkSize: nat,
                        code: byte, payloadLength: nat): (a: Assembled)
    requires readLength < |buf| && MESSAGE_HEADER_SIZE <= |buf|
    requires rdChunkSize == 0 || rdChunkSize >= 2
    requires MESSAGE_HEADER_SIZE + payloadLength > readLength
    ensures |a.buf| >= |buf| && |a.buf| > MESSAGE_HEADER_SIZE + payloadLength + 1
    ensures a.err == 0 || a.err == -EIO
  {
    var total := MESSAGE_HEADER_SIZE + payloadLength + 1;
    var c := ContinuedRead(buf, rx, readLength, rdChunkSize, payloadLength);
    if c.err != 0 then c
    else
      var framed := c.buf[0 := MESSAGE_MARKER][1 := code][2 := LowByte(payloadLength)][3 := HighByte(payloadLength)];
      CheckPadding(framed, total, c.rest)
  }

  /** Continuation from the outcome of its continued read: an error ends it, otherwise the header is restored and the padding checked. */
  lemma ContinuationEnds(buf: seq<byte>, rx: seq<BusRead>, readLength: nat, rdChunkSize: nat,
                         code: byte, payloadLength: nat, err: int, buf': seq<byte>, rx': seq<BusRead>)
    requires readLength < |buf| && MESSAGE_HEADER_SIZE <= |buf|
    requires rdChunkSize == 0 || rdChunkSize >= 2
    requires MESSAGE_HEADER_SIZE + payloadLength > readLength
    requires ContinuedRead(buf, rx, readLength, rdChunkSize, payloadLength) == Assembled(err, buf', rx')
    ensures err != 0 ==> Continuation(buf, rx, readLength, rdChunkSize, code, payloadLength) == Assembled(err, buf', rx')
    ensures err == 0 ==> MESSAGE_HEADER_SIZE + payloadLength + 1 <= |buf'|
    ensures err == 0 ==>
              Continuation(buf, rx, readLength, rdChunkSize, code, payloadLength)
              == CheckPadding(buf'[0 := MESSAGE_MARKER][1 := code][2 := LowByte(payloadLength)][3 := HighByte(payloadLength)],
                              MESSAGE_HEADER_SIZE + payloadLength + 1, rx')
  { }

  /**
   * syna_tcm_continued_read: grow the input buffer to total + 1 bytes and
   * gather the rest of the message into it from offset read_length on. On an
   * error the chunks gathered before it stay in the buffer.
   */
  function ContinuedRead(buf: seq<byte>, rx: seq<BusRead>, readLength: nat, rdChunkSize: nat,
                         payloadLength: nat): (c: Assembled)
    requires readLength < |buf|
    requires MESSAGE_HEADER_SIZE + payloadLength + 1 > readLength
    requires rdChunkSize == 0 || rdChunkSize >= 2
    ensures |c.buf| == if |buf| > MESSAGE_HEADER_SIZE + payloadLength + 1 then |buf| else MESSAGE_HEADER_SIZE + payloadLength + 2
    ensures c.err == 0 || c.err == -EIO
  {
    var total := MESSAGE_HEADER_SIZE + payloadLength + 1;
    var xs := ContinuationTransfers(total, readLength, rdChunkSize);
    var g := Gather(rx, xs, true);
    GatherWithin(rx, xs, true);
    Assembled(g.err, Overwrite(Grow(buf, total + 1), readLength, g.data), g.rest)
  }

  /** The continued read as the gather it performs, written into the grown buffer. */
  lemma ContinuedReadGathers(buf: seq<byte>, rx: seq<BusRead>, readLength: nat, rdChunkSize: nat, payloadLength: nat)
    requires readLength < |buf|
    requires MESSAGE_HEADER_SIZE + payloadLength + 1 > readLength
    requires rdChunkSize == 0 || rdChunkSize >= 2
    ensures var total := MESSAGE_HEADER_SIZE + payloadLength + 1;
      var g := Gather(rx, ContinuationTransfers(total, readLength, rdChunkSize), true);
      readLength + |g.data| <= total
      && ContinuedRead(buf, rx, readLength, rdChunkSize, payloadLength)
         == Assembled(g.err, Overwrite(Grow(buf, total + 1), readLength, g.data), g.rest)
  {
    var total := MESSAGE_HEADER_SIZE + payloadLength + 1;
    GatherWithin(rx, ContinuationTransfers(total, readLength, rdChunkSize), true);
  }

  /** What a gather loop has copied so far, followed by what the rest of it gathers, is the whole gather `g0`. */
  predicate GatherSplit(g0: Gathered, done: seq<byte>, rx: seq<BusRead>, xs: seq<nat>, checkMarker: bool)
  {
    var g := Gather(rx, xs, checkMarker);
    g0 == Gathered(done + g.data, g.rest, g.err)
  }

  /** A 1-byte transfer supplies the padding byte without a bus read. */
  lemma GatherPadding(g0: Gathered, done: seq<byte>, rx: seq<BusRead>, xs: seq<nat>, checkMarker: bool)
    requires xs != [] && xs[0] == 1 && GatherSplit(g0, done, rx, xs, checkMarker)
    ensures GatherSplit(g0, done + [MESSAGE_PADDING], rx, xs[1..], checkMarker)
  {
    var g := Gather(rx, xs[1..], checkMarker);
    assert done + ([MESSAGE_PADDING] + g.data) == (done + [MESSAGE_PADDING]) + g.data;
  }

  /** A delivered chunk with a good continuation header adds its data bytes. */
  lemma GatherChunk(g0: Gathered, done: seq<byte>, rx: seq<BusRead>, xs: seq<nat>, checkMarker: bool)
    requires xs != [] && xs[0] != 1 && GatherSplit(g0, done, rx, xs, checkMarker)
    requires rx != [] && rx[0].Delivered? && ContinuationHeaderOk(Clocked(rx[0].bytes, xs[0] + 2), checkMarker)
    ensures GatherSplit(g0, done + Clocked(rx[0].bytes, xs[0] + 2)[2..], rx[1..], xs[1..], checkMarker)
  {
    var chunk := Clocked(rx[0].bytes, xs[0] + 2);
    var g := Gather(rx[1..], xs[1..], checkMarker);
    assert done + (chunk[2..] + g.data) == (done + chunk[2..]) + g.data;
  }

  /** A failed read or a chunk with a wrong header ends the gather with what was copied before it. */
  lemma GatherStops(g0: Gathered, done: seq<byte>, rx: seq<BusRead>, xs: seq<nat>, checkMarker: bool)
    requires xs != [] && xs[0] != 1 && GatherSplit(g0, done, rx, xs, checkMarker)
    requires rx == [] || rx[0].Failed? || !ContinuationHeaderOk(Clocked(rx[0].bytes, xs[0] + 2), checkMarker)
    ensures g0.data == done && g0.rest == (if rx == [] then [] else rx[1..])
    ensures g0.err == if rx == [] || rx[0].Failed? then BUS_ERROR else -EIO
  {
    assert done + [] == done;
  }

  /**
   * The state of syna_tcm_continued_read's chunk loop: `done` has been
   * written into `base` at `at` and the write offset is right after it,
   * there is room for the `remaining` bytes, `todo` are the transfers still
   * to come, and `done` followed by what they gather from `rx` is the whole
   * gather `g0`.
   */
  predicate ChunkLoop(g0: Gathered, base: seq<byte>, at: nat, space: nat, buf: seq<byte>, offset: nat,
                      remaining: nat, done: seq<byte>, todo: seq<nat>, rx: seq<BusRead>)
  {
    offset == at + |done| && offset + remaining <= |base|
    && buf == Overwrite(base, at, done)
    && todo == Xfers(remaining, space, |todo|)
    && GatherSplit(g0, done, rx, todo, true)
  }

  /**
   * The chunk loop starts with nothing written into the grown buffer, all of
   * what the header read left to come, and the whole continuation gather ahead.
   */
  lemma ChunkLoopStart(buf: seq<byte>, rx: seq<BusRead>, readLength: nat, rdChunkSize: nat, payloadLength: nat,
                       base: seq<byte>, remaining: nat, space: nat, todo: seq<nat>)
    requires readLength < |buf|
    requires MESSAGE_HEADER_SIZE + payloadLength + 1 > readLength
    requires rdChunkSize == 0 || rdChunkSize >= 2
    requires base == Grow(buf, MESSAGE_HEADER_SIZE + payloadLength + 2)
    requires remaining == MESSAGE_HEADER_SIZE + payloadLength + 1 - readLength
    requires space == ReadSpace(rdChunkSize, remaining)
    requires todo == ContinuationTransfers(MESSAGE_HEADER_SIZE + payloadLength + 1, readLength, rdChunkSize)
    ensures |todo| == NumChunks(remaining, space)
    ensures ChunkLoop(Gather(rx, todo, true), base, readLength, space, base, readLength, remaining, [], todo, rx)
  {
    ContinuationXfers(MESSAGE_HEADER_SIZE + payloadLength + 1, readLength, rdChunkSize);
    OverwriteNothing(base, readLength);
    var g := Gather(rx, todo, true);
    assert [] + g.data == g.data;
    assert GatherSplit(g, [], rx, todo, true);
  }

  /** A chunk loop that gathered the whole continuation has performed the continued read. */
  lemma ContinuedReadEnds(buf: seq<byte>, rx: seq<BusRead>, readLength: nat, rdChunkSize: nat, payloadLength: nat,
                          e: int, buf': seq<byte>, done: seq<byte>, rx': seq<BusRead>)
    requires readLength < |buf|
    requires MESSAGE_HEADER_SIZE + payloadLength + 1 > readLength
    requires rdChunkSize == 0 || rdChunkSize >= 2
    requires var total := MESSAGE_HEADER_SIZE + payloadLength + 1;
      readLength + |done| <= |Grow(buf, total + 1)|
      && Gather(rx, ContinuationTransfers(total, readLength, rdChunkSize), true) == Gathered(done, rx', e)
      && buf' == Overwrite(Grow(buf, total + 1), readLength, done)
    ensures ContinuedRead(buf, rx, readLength, rdChunkSize, payloadLength) == Assembled(e, buf', rx')
  {
  }

  /** A 1-byte transfer stores the padding byte at the write offset and moves the loop on. */
  lemma ChunkLoopPadding(g0: Gathered, base: seq<byte>, at: nat, space: nat, buf: seq<byte>, offset: nat,
                         remaining: nat, done: seq<byte>, todo: seq<nat>, rx: seq<BusRead>)
    requires todo != [] && ChunkLoop(g0, base, at, space, buf, offset, remaining, done, todo, rx)
    requires (if remaining > space then space else remaining) == 1
    ensures offset < |buf|
    ensures ChunkLoop(g0, base, at, space, buf[offset := MESSAGE_PADDING], offset + 1, remaining - 1,
                      done + [MESSAGE_PADDING], todo[1..], rx)
  {
    XfersHead(todo, remaining, space, 1);
    GatherPadding(g0, done, rx, todo, true);
    OverwriteAppend(base, at, done, [MESSAGE_PADDING]);
    OverwriteOne(buf, offset, MESSAGE_PADDING);
  }

  /** A chunk delivered with a good header has its data copied to the write offset and moves the loop on. */
  lemma ChunkLoopRead(g0: Gathered, base: seq<byte>, at: nat, space: nat, buf: seq<byte>, offset: nat,
                      remaining: nat, done: seq<byte>, todo: seq<nat>, rx: seq<BusRead>, xfer: nat)
    requires todo != [] && ChunkLoop(g0, base, at, space, buf, offset, remaining, done, todo, rx)
    requires xfer == (if remaining > space then space else remaining) && xfer != 1
    requires rx != [] && rx[0].Delivered? && ContinuationHeaderOk(Clocked(rx[0].bytes, xfer + 2), true)
    ensures offset + xfer <= |buf|
    ensures var data := Clocked(rx[0].bytes, xfer + 2)[2..];
      ChunkLoop(g0, base, at, space, Overwrite(buf, offset, data), offset + xfer, remaining - xfer,
                done + data, todo[1..], rx[1..])
  {
    XfersHead(todo, remaining, space, xfer);
    GatherChunk(g0, done, rx, todo, true);
    OverwriteAppend(base, at, done, Clocked(rx[0].bytes, xfer + 2)[2..]);
  }

  /** A failed read or a chunk with a wrong header ends the loop: the gather is what was copied before it. */
  lemma ChunkLoopStops(g0: Gathered, base: seq<byte>, at: nat, space: nat, buf: seq<byte>, offset: nat,
                       remaining: nat, done: seq<byte>, todo: seq<nat>, rx: seq<BusRead>, xfer: nat)
    requires todo != [] && ChunkLoop(g0, base, at, space, buf, offset, remaining, done, todo, rx)
    requires xfer == (if remaining > space then space else remaining) && xfer != 1
    requires rx == [] || rx[0].Failed? || !ContinuationHeaderOk(Clocked(rx[0].bytes, xfer + 2), true)
    ensures g0 == Gathered(done, if rx == [] then [] else rx[1..], if rx == [] || rx[0].Failed? then BUS_ERROR else -EIO)
  {
    XfersHead(todo, remaining, space, xfer);
    GatherStops(g0, done, rx, todo, true);
  }

  /** Once every transfer is done, the gather is what was copied. */
  lemma GatherDone(g0: Gathered, done: seq<byte>, rx: seq<BusRead>, checkMarker: bool)
    requires GatherSplit(g0, done, rx, [], checkMarker)
    ensures g0 == Gathered(done, rx, 0)
  {
    assert done + [] == done;
  }

  /** Gathered data never exceeds the announced transfer lengths. */
  lemma {:induction false} GatherWithin(rx: seq<BusRead>, xs: seq<nat>, checkMarker: bool)
    ensures |Gather(rx, xs, checkMarker).data| <= Sum(xs)
    decreases |xs|
  {
    if xs != [] {
      if xs[0] == 1 {
        GatherWithin(rx, xs[1..], checkMarker);
      } else if rx != [] && rx[0].Delivered? {
        GatherWithin(rx[1..], xs[1..], checkMarker);
      }
    }
  }

  /**
   * A message assembled without error is at least 4 + payload + 1 bytes
   * long, starts with the marker, the status code and the little-endian
   * payload length (a continued read rewrites them; otherwise they are the
   * header as read), and ends in MESSAGE_PADDING. A continued read with a
   * positive chunk space brings in exactly the bytes the header announced.
   */
  lemma AssembledMessage(buf: seq<byte>, rx: seq<BusRead>, readLength: nat, rdChunkSize: nat,
                         code: byte, payloadLength: nat)
    requires readLength < |buf| && MESSAGE_HEADER_SIZE <= |buf|
    requires rdChunkSize == 0 || rdChunkSize >= 2
    requires payloadLength < 0x1_0000
    requires buf[0] == MESSAGE_MARKER && buf[1] == code && Le16(buf[2], buf[3]) == payloadLength
    requires Assemble(buf, rx, readLength, rdChunkSize, code, payloadLength).err == 0
    ensures var a := Assemble(buf, rx, readLength, rdChunkSize, code, payloadLength);
      var total := MESSAGE_HEADER_SIZE + payloadLength + 1;
      |a.buf| >= total
      && a.buf[0] == MESSAGE_MARKER && a.buf[1] == code && Le16(a.buf[2], a.buf[3]) == payloadLength
      && a.buf[total - 1] == MESSAGE_PADDING
      && (total > readLength + 1 && rdChunkSize != 2 && readLength >= MESSAGE_HEADER_SIZE ==>
            a.buf[readLength..total] == Gather(rx, ContinuationTransfers(total, readLength, rdChunkSize), true).data)
  {
    var total := MESSAGE_HEADER_SIZE + payloadLength + 1;
    var a := Assemble(buf, rx, readLength, rdChunkSize, code, payloadLength);
    if total <= readLength {
      assert a.buf == buf;
    } else if total - 1 == readLength {
      assert a.buf == Grow(buf, total + 1)[readLength := MESSAGE_PADDING];
    } else {
      ContinuedMessage(buf, rx, readLength, rdChunkSize, code, payloadLength);
      if rdChunkSize != 2 && readLength >= MESSAGE_HEADER_SIZE {
        ContinuedMessageBody(buf, rx, readLength, rdChunkSize, code, payloadLength);
      }
    }
  }

  /** A continued read that succeeds leaves a buffer of total + 1 bytes whose header is rewritten from the header read. */
  lemma ContinuedMessage(buf: seq<byte>, rx: seq<BusRead>, readLength: nat, rdChunkSize: nat,
                         code: byte, payloadLength: nat)
    requires readLength < |buf| && MESSAGE_HEADER_SIZE <= |buf|
    requires rdChunkSize == 0 || rdChunkSize >= 2
    requires payloadLength < 0x1_0000
    requires MESSAGE_HEADER_SIZE + payloadLength + 1 > readLength + 1
    requires Assemble(buf, rx, readLength, rdChunkSize, code, payloadLength).err == 0
    ensures var a := Assemble(buf, rx, readLength, rdChunkSize, code, payloadLength);
      |a.buf| >= MESSAGE_HEADER_SIZE + payloadLength + 1
      && a.buf[0] == MESSAGE_MARKER && a.buf[1] == code && Le16(a.buf[2], a.buf[3]) == payloadLength
  {
    Le16RoundTrip(payloadLength);
  }

  /**
   * A continued read that succeeds with a positive chunk space, after a
   * header read that covered the header, brings in exactly the bytes the
   * gather collected, after the bytes already read.
   */
  lemma ContinuedMessageBody(buf: seq<byte>, rx: seq<BusRead>, readLength: nat, rdChunkSize: nat,
                             code: byte, payloadLength: nat)
    requires MESSAGE_HEADER_SIZE <= readLength < |buf|
    requires rdChunkSize == 0 || rdChunkSize > 2
    requires MESSAGE_HEADER_SIZE + payloadLength + 1 > readLength + 1
    requires Assemble(buf, rx, readLength, rdChunkSize, code, payloadLength).err == 0
    ensures var a := Assemble(buf, rx, readLength, rdChunkSize, code, payloadLength);
      var total := MESSAGE_HEADER_SIZE + payloadLength + 1;
      |a.buf| >= total
      && a.buf[readLength..total] == Gather(rx, ContinuationTransfers(total, readLength, rdChunkSize), true).data
  {
    var total := MESSAGE_HEADER_SIZE + payloadLength + 1;
    var xs := ContinuationTransfers(total, readLength, rdChunkSize);
    var g := Gather(rx, xs, true);
    var filled := Overwrite(Grow(buf, total + 1), readLength, g.data);
    ContinuedReadGathers(buf, rx, readLength, rdChunkSize, payloadLength);
    assert g.err == 0;
    ContinuationLength(rx, total, readLength, rdChunkSize);
    OverwriteSlice(Grow(buf, total + 1), readLength, g.data);
    FramingKeepsBody(filled, readLength, total, code, payloadLength);
  }

  /** A continuation gather that succeeds with a positive chunk space collects every byte the header read left. */
  lemma ContinuationLength(rx: seq<BusRead>, total: nat, readLength: nat, rdChunkSize: nat)
    requires readLength <= total
    requires rdChunkSize == 0 || rdChunkSize > 2
    requires Gather(rx, ContinuationTransfers(total, readLength, rdChunkSize), true).err == 0
    ensures |Gather(rx, ContinuationTransfers(total, readLength, rdChunkSize), true).data| == total - readLength
  {
    TransfersCover(total - readLength, ReadSpace(rdChunkSize, total - readLength));
    GatherLength(rx, ContinuationTransfers(total, readLength, rdChunkSize), true);
  }

  /** What was written is found where it was written. */
  lemma OverwriteSlice(buf: seq<byte>, at: nat, data: seq<byte>)
    requires at + |data| <= |buf|
    ensures Overwrite(buf, at, data)[at..at + |data|] == data
  {
  }

  /** Rewriting the four header bytes leaves the bytes after the header alone. */
  lemma FramingKeepsBody(b: seq<byte>, from: nat, to: nat, code: byte, payloadLength: nat)
    requires MESSAGE_HEADER_SIZE <= from <= to <= |b|
    ensures b[0 := MESSAGE_MARKER][1 := code][2 := LowByte(payloadLength)][3 := HighByte(payloadLength)][from..to]
            == b[from..to]
  {
  }

  // ---------------------------------------------------------------------
  // Raw reads into a caller's buffer
  // ---------------------------------------------------------------------

  datatype RawReadResult = RawReadResult(err: int, data: seq<byte>, rest: seq<BusRead>)

  /**
   * syna_tcm_raw_read: `length` bytes in chunks; the first chunk is copied
   * with its marker and code as they come, later chunks must carry
   * STATUS_CONTINUED_READ (their marker is not checked) and only their data
   * is copied. A 1-byte transfer is the padding byte, without a bus read,
   * also when it is the first. `data` is what lands in the caller's buffer
   * from index 0 on, including what was copied before an error.
   */
  function RawRead(rx: seq<BusRead>, length: nat, rdChunkSize: nat): (r: RawReadResult)
    requires rdChunkSize == 0 || rdChunkSize >= 2
    ensures r.err <= 0
  {
    if length < 2 then RawReadResult(-EINVAL, [], rx)
    else
      var remaining := length - 2;
      var xs := Transfers(remaining, ReadSpace(rdChunkSize, remaining));
      if xs[0] == 1 then
        var g := Gather(rx, xs[1..], false);
        RawReadResult(g.err, [MESSAGE_PADDING] + g.data, g.rest)
      else if rx == [] || rx[0].Failed? then
        RawReadResult(BUS_ERROR, [], if rx == [] then [] else rx[1..])
      else
        var g := Gather(rx[1..], xs[1..], false);
        RawReadResult(g.err, Clocked(rx[0].bytes, xs[0] + 2) + g.data, g.rest)
  }

  /**
   * A raw read that succeeds with a positive chunk space and a first chunk
   * of more than one byte fills exactly `length` bytes: the first chunk as
   * read, marker and code included, then the data of the continuation
   * chunks, each of which carried STATUS_CONTINUED_READ. A first chunk of
   * one byte is RawReadPaddingOnly.
   */
  lemma RawReadFills(rx: seq<BusRead>, length: nat, rdChunkSize: nat)
    requires rdChunkSize == 0 || rdChunkSize >= 2
    requires length >= 2 && rdChunkSize != 2
    requires Transfers(length - 2, ReadSpace(rdChunkSize, length - 2))[0] != 1
    requires RawRead(rx, length, rdChunkSize).err == 0
    ensures var r := RawRead(rx, length, rdChunkSize);
      var xs := Transfers(length - 2, ReadSpace(rdChunkSize, length - 2));
      |r.data| == length
      && rx != [] && rx[0].Delivered? && r.data[..xs[0] + 2] == Clocked(rx[0].bytes, xs[0] + 2)
      && 1 + CountReads(xs[1..]) <= |rx| && r.rest == rx[1 + CountReads(xs[1..])..]
      && (forall k :: 1 <= k <= CountReads(xs[1..]) ==>
            rx[k].Delivered? && Clocked(rx[k].bytes, 2)[1] == STATUS_CONTINUED_READ)
  {
    var remaining := length - 2;
    var xs := Transfers(remaining, ReadSpace(rdChunkSize, remaining));
    TransfersCover(remaining, ReadSpace(rdChunkSize, remaining));
    assert Sum(xs) == xs[0] + Sum(xs[1..]);
    GatherSuccess(rx[1..], xs[1..], false);
    assert rx[1..][CountReads(xs[1..])..] == rx[1 + CountReads(xs[1..])..];
    forall k | 1 <= k <= CountReads(xs[1..])
      ensures rx[k].Delivered? && Clocked(rx[k].bytes, 2)[1] == STATUS_CONTINUED_READ
    {
      assert rx[1..][k - 1] == rx[k];
    }
  }

  /**
   * The case RawReadFills leaves out: a first transfer of one byte happens
   * only for a 3-byte read or a chunk space of one byte (rd_chunk_size 3).
   * Then every transfer is a single padding byte, so the raw read succeeds
   * without touching the bus and fills `length - 2` bytes of MESSAGE_PADDING.
   */
  lemma {:induction false} RawReadPaddingOnly(rx: seq<BusRead>, length: nat, rdChunkSize: nat)
    requires rdChunkSize == 0 || rdChunkSize >= 2
    requires length >= 2 && rdChunkSize != 2
    requires Transfers(length - 2, ReadSpace(rdChunkSize, length - 2))[0] == 1
    ensures length == 3 || rdChunkSize == 3
    ensures var r := RawRead(rx, length, rdChunkSize);
      r.err == 0 && r.rest == rx && r.data == seq(length - 2, _ => MESSAGE_PADDING)
  {
    var remaining := length - 2;
    var space := ReadSpace(rdChunkSize, remaining);
    var n := NumChunks(remaining, space);
    var xs := Transfers(remaining, space);
    XfersHead(xs, remaining, space, if remaining > space then space else remaining);
    if space == 1 {
      NumChunksBounds(remaining, 1);
      XfersOnes(remaining, n);
    } else {
      assert remaining == 1;
      NumChunksBounds(1, space);
      assert n == 1;
    }
    GatherAllPadding(rx, xs[1..], false);
    assert [MESSAGE_PADDING] + seq(|xs| - 1, _ => MESSAGE_PADDING) == seq(remaining, _ => MESSAGE_PADDING);
  }

  /** With a chunk space of one byte and no more chunks than bytes, every transfer is one byte. */
  lemma {:induction false} XfersOnes(remaining: nat, n: nat)
    requires n <= remaining
    ensures forall i :: 0 <= i < n ==> Xfers(remaining, 1, n)[i] == 1
  {
    if n > 0 {
      XfersOnes(remaining - 1, n - 1);
      forall i | 0 <= i < n ensures Xfers(remaining, 1, n)[i] == 1 {
        if i > 0 {
          assert Xfers(remaining, 1, n)[i] == Xfers(remaining - 1, 1, n - 1)[i - 1];
        }
      }
    }
  }

  /** Transfers of one byte each are padding only: no bus read, no error. */
  lemma {:induction false} GatherAllPadding(rx: seq<BusRead>, xs: seq<nat>, checkMarker: bool)
    requires forall i :: 0 <= i < |xs| ==> xs[i] == 1
    ensures Gather(rx, xs, checkMarker) == Gathered(seq(|xs|, _ => MESSAGE_PADDING), rx, 0)
    decreases |xs|
  {
    if xs != [] {
      GatherAllPadding(rx, xs[1..], checkMarker);
      assert [MESSAGE_PADDING] + seq(|xs| - 1, _ => MESSAGE_PADDING) == seq(|xs|, _ => MESSAGE_PADDING);
    }
  }

  // ---------------------------------------------------------------------
  // The whole read
  // ---------------------------------------------------------------------

  /**
   * Outcome of one syna_tcm_read_message call on the transport: its return
   * value, whether a message is handed to dispatch, and the new input buffer,
   * bus queue, read length, status_report_code and payload_length.
   */
  datatype ReadResult = ReadResult(err: int, dispatch: bool, buf: seq<byte>, rest: seq<BusRead>,
                                   readLength: nat, code: byte, payloadLength: nat)

  function ReadMessageSpec(rx: seq<BusRead>, buf: seq<byte>, readLength: nat, rdChunkSize: nat,
                           code: byte, payloadLength: nat): (r: ReadResult)
    requires readLength < |buf| && MESSAGE_HEADER_SIZE <= |buf|
    requires rdChunkSize == 0 || rdChunkSize >= 2
    ensures r.err <= 0 && (r.dispatch ==> r.err == 0)
    ensures r.dispatch ==> |r.buf| > MESSAGE_HEADER_SIZE + r.payloadLength + 1
  {
    var h := ReadHeader(rx, buf, readLength, true, 0, code, payloadLength);
    match h.outcome
    case HeaderFailed(e) => ReadResult(e, false, h.buf, h.rest, readLength, h.code, h.payloadLength)
    case ControlStatus(c) => ReadResult(0, false, h.buf, h.rest, readLength, h.code, h.payloadLength)
    case Header(c, len) =>
      var a := Assemble(h.buf, h.rest, readLength, rdChunkSize, c, len);
      if a.err != 0 then ReadResult(a.err, false, a.buf, a.rest, readLength, c, len)
      else ReadResult(0, true, a.buf, a.rest, NextReadLength(MESSAGE_HEADER_SIZE + len + 1, rdChunkSize), c, len)
  }

  /**
   * The input buffer never shrinks and always has room for one more byte
   * than the next read asks for, so the next read and a padding-only
   * remainder both stay inside it.
   */
  lemma ReadKeepsBufferRoom(rx: seq<BusRead>, buf: seq<byte>, readLength: nat, rdChunkSize: nat,
                            code: byte, payloadLength: nat)
    requires readLength < |buf| && MIN_READ_LENGTH < |buf|
    requires rdChunkSize == 0 || rdChunkSize >= 2
    ensures var r := ReadMessageSpec(rx, buf, readLength, rdChunkSize, code, payloadLength);
      |r.buf| >= |buf| && r.readLength < |r.buf|
      && (rdChunkSize > 0 ==> r.readLength <= rdChunkSize || r.readLength == readLength)
  {
    var h := ReadHeader(rx, buf, readLength, true, 0, code, payloadLength);
    if h.outcome.Header? {
      NextReadLengthBounds(MESSAGE_HEADER_SIZE + h.outcome.payloadLength + 1, rdChunkSize);
    }
  }
}

/**
 * Buffer sizing of syna_tcm_read_message as written, where only a continued
 * read reallocates the input buffer (to total + 1 bytes) and the
 * padding-only branch stores in.buf[read_length] without growing it.
 */
module TcmReadAsWritten {
  import opened Errno
  import opened TcmProtocol
  import opened TcmRead

  /**
   * As written: whether every padding-only store made while reading messages
   * of the given total lengths lands inside the input buffer.
   */
  function PadStoresInBounds(bufSize: nat, readLength: nat, rdChunkSize: nat, totals: seq<nat>): bool
    decreases |totals|
  {
    if totals == [] then true
    else
      var total := totals[0];
      var size' := if total > readLength + 1 && total + 1 > bufSize then total + 1 else bufSize;
      (total != readLength + 1 || readLength < bufSize)
      && PadStoresInBounds(size', NextReadLength(total, rdChunkSize), rdChunkSize, totals[1..])
  }

  /**
   * From the state after probe (a 10-byte buffer, read length 9), a message
   * of 10 bytes takes the padding-only branch and raises the read length to
   * 10 without growing the buffer; a following message of 11 bytes then
   * stores its padding byte at index 10 of the 10-byte buffer.
   */
  lemma PadStoreOverrun(rdChunkSize: nat)
    requires rdChunkSize == 0 || rdChunkSize >= 11
    ensures PadStoresInBounds(MIN_READ_LENGTH + 1, MIN_READ_LENGTH, rdChunkSize, [10])
    ensures !PadStoresInBounds(MIN_READ_LENGTH + 1, MIN_READ_LENGTH, rdChunkSize, [10, 11])
  {
    assert NextReadLength(10, rdChunkSize) == 10;
  }
}
