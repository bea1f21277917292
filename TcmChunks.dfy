/**
 * How the TCM transport cuts a byte stream into bus transfers.
 *
 * Every chunk loop of the driver (raw write, framed write, raw read and
 * continued read) computes a chunk space, a chunk count
 * max(1, ceil_div(length, space)) and then, chunk by chunk, the transfer
 * length min(space, remaining). `Transfers` is that sequence of transfer
 * lengths; the functions below build the bus writes and interpret the bus
 * reads from it, and the lemmas state what the chunking guarantees.
 */
module TcmChunks {
  import opened Errno
  import opened TcmProtocol

  // ---------------------------------------------------------------------
  // Transfer lengths
  // ---------------------------------------------------------------------

  function Sum(xs: seq<nat>): nat
  {
    if xs == [] then 0 else xs[0] + Sum(xs[1..])
  }

  /** max(1, ceil_div(length, space)): the number of iterations of a chunk loop. */
  function NumChunks(length: nat, space: nat): (n: nat)
    ensures n >= 1
  {
    var c := CeilDiv(length, space);
    if c == 0 then 1 else c
  }

  /** With a positive space, the chunks cover the length and one chunk fewer would not (unless it is empty). */
  lemma NumChunksBounds(length: nat, space: nat)
    requires space > 0
    ensures var n := NumChunks(length, space);
      (n * space >= length && (n - 1) * space < length) || (length == 0 && n == 1)
  {
    CeilDivBounds(length, space);
  }

  /** Transfer lengths of the next n iterations: min(space, remaining), remaining decreasing. */
  function Xfers(remaining: nat, space: nat, n: nat): (xs: seq<nat>)
    ensures |xs| == n
    decreases n
  {
    if n == 0 then []
    else
      var x := if remaining > space then space else remaining;
      [x] + Xfers(remaining - x, space, n - 1)
  }

  /** The transfer lengths of a whole chunk loop over `length` bytes. */
  function Transfers(length: nat, space: nat): (xs: seq<nat>)
    ensures |xs| == NumChunks(length, space)
    ensures Sum(xs) <= length
  {
    XfersSum(length, space, NumChunks(length, space));
    Xfers(length, space, NumChunks(length, space))
  }

  lemma {:induction false} XfersSum(remaining: nat, space: nat, n: nat)
    ensures Sum(Xfers(remaining, space, n)) == if n * space <= remaining then n * space else remaining
  {
    if n > 0 {
      var x := if remaining > space then space else remaining;
      XfersSum(remaining - x, space, n - 1);
      var m := (n - 1) * space;
      assert n * space == m + space;
      if remaining <= space {
        assert m >= 0;
      }
    }
  }

  /** A chunk loop never transfers more than it has left. */
  lemma {:induction false} XfersWithin(remaining: nat, space: nat, n: nat)
    ensures Sum(Xfers(remaining, space, n)) <= remaining
  {
    if n > 0 {
      var x := if remaining > space then space else remaining;
      XfersWithin(remaining - x, space, n - 1);
    }
  }

  lemma {:induction false} XfersBounded(remaining: nat, space: nat, n: nat, i: nat)
    requires i < n
    ensures Xfers(remaining, space, n)[i] <= space
    ensures Xfers(remaining, space, n)[i] <= remaining
  {
    if i > 0 {
      var x := if remaining > space then space else remaining;
      XfersBounded(remaining - x, space, n - 1, i - 1);
    }
  }

  /** Every chunk but the last is full when the chunk count is ceil(length / space). */
  lemma {:induction false} XfersFull(remaining: nat, space: nat, n: nat, i: nat)
    requires i + 1 < n && n * space >= remaining && (n - 1) * space < remaining
    ensures Xfers(remaining, space, n)[i] == space
  {
    var m := n - 1;
    assert m * space == (m - 1) * space + space;
    assert remaining > space;
    if i > 0 {
      assert (n - 1) * space == (n - 2) * space + space;
      XfersFull(remaining - space, space, n - 1, i - 1);
    }
  }

  /**
   * The chunk loop covers the stream exactly when the chunk space is positive
   * (or there is nothing to send): the transfer lengths add up to the length,
   * none exceeds the space, and all but the last are full.
   */
  lemma TransfersCover(length: nat, space: nat)
    requires space > 0 || length == 0
    ensures Sum(Transfers(length, space)) == length
    ensures forall i :: 0 <= i < |Transfers(length, space)| ==> Transfers(length, space)[i] <= space
    ensures forall i :: 0 <= i < |Transfers(length, space)| - 1 ==> Transfers(length, space)[i] == space
  {
    var n := NumChunks(length, space);
    XfersSum(length, space, n);
    forall i | 0 <= i < n ensures Transfers(length, space)[i] <= space {
      XfersBounded(length, space, n, i);
    }
    if space > 0 {
      NumChunksBounds(length, space);
      forall i | 0 <= i < n - 1 ensures Transfers(length, space)[i] == space {
        XfersFull(length, space, n, i);
      }
    }
  }

  // ---------------------------------------------------------------------
  // Bus writes
  // ---------------------------------------------------------------------

  /** The bus writes of a chunk loop: the first starts with `first`, later ones with CMD_CONTINUE_WRITE. */
  function WriteFrames(first: byte, data: seq<byte>, xs: seq<nat>): (frames: seq<seq<byte>>)
    requires Sum(xs) <= |data|
    ensures |frames| == |xs|
    decreases |xs|
  {
    if xs == [] then []
    else [[first] + data[..xs[0]]] + WriteFrames(CMD_CONTINUE_WRITE, data[xs[0]..], xs[1..])
  }

  /** Where write i of a chunk loop with chunk space `cs` copies from: i * cs, built up one chunk at a time. */
  function ChunkOffset(i: nat, cs: nat): nat
  {
    if i == 0 then 0 else ChunkOffset(i - 1, cs) + cs
  }

  lemma {:induction false} ChunkOffsetIsProduct(i: nat, cs: nat)
    ensures ChunkOffset(i, cs) == i * cs
  {
    if i > 0 {
      ChunkOffsetIsProduct(i - 1, cs);
      assert i * cs == (i - 1) * cs + cs;
    }
  }

  /** Where write i of a chunk loop with transfer lengths `xs` copies from: the lengths before it, added up. */
  function FrameOffset(xs: seq<nat>, i: nat): nat
    requires i <= |xs|
    decreases i
  {
    if i == 0 then 0 else xs[0] + FrameOffset(xs[1..], i - 1)
  }

  lemma {:induction false} FrameOffsetBound(xs: seq<nat>, i: nat)
    requires i < |xs|
    ensures FrameOffset(xs, i) + xs[i] <= Sum(xs)
    decreases i
  {
    if i > 0 {
      FrameOffsetBound(xs[1..], i - 1);
    }
  }

  /** Write i of a chunk loop carries xs[i] bytes of `data` from FrameOffset(xs, i) on. */
  lemma {:induction false} FrameAt(first: byte, data: seq<byte>, xs: seq<nat>, i: nat)
    requires Sum(xs) <= |data| && i < |xs|
    ensures FrameOffset(xs, i) + xs[i] <= |data|
    ensures WriteFrames(first, data, xs)[i]
            == [if i == 0 then first else CMD_CONTINUE_WRITE] + data[FrameOffset(xs, i) .. FrameOffset(xs, i) + xs[i]]
    decreases i
  {
    FrameOffsetBound(xs, i);
    if i > 0 {
      var rest := data[xs[0]..];
      var o := FrameOffset(xs[1..], i - 1);
      FrameAt(CMD_CONTINUE_WRITE, rest, xs[1..], i - 1);
      assert xs[1..][i - 1] == xs[i];
      FramesTail(first, data, xs, i);
      SuffixSlice(data, xs[0], o, xs[i]);
    }
  }

  lemma FramesTail(first: byte, data: seq<byte>, xs: seq<nat>, i: nat)
    requires Sum(xs) <= |data| && 0 < i < |xs|
    ensures WriteFrames(first, data, xs)[i] == WriteFrames(CMD_CONTINUE_WRITE, data[xs[0]..], xs[1..])[i - 1]
  {
  }

  lemma SuffixSlice(data: seq<byte>, k: nat, lo: nat, x: nat)
    requires k + lo + x <= |data|
    ensures data[k..][lo .. lo + x] == data[k + lo .. k + lo + x]
  {
  }

  /**
   * In a loop whose transfers are min(cs, remaining), write i starts at
   * ChunkOffset(i, cs) and carries min(cs, what is left) bytes.
   */
  lemma {:induction false} XfersOffset(remaining: nat, cs: nat, n: nat, i: nat)
    requires i < n && ChunkOffset(i, cs) <= remaining
    ensures var xs := Xfers(remaining, cs, n);
      var off := ChunkOffset(i, cs);
      FrameOffset(xs, i) == off && xs[i] == if remaining - off > cs then cs else remaining - off
    decreases i
  {
    if i > 0 {
      var xs := Xfers(remaining, cs, n);
      assert xs[0] == cs && xs[1..] == Xfers(remaining - cs, cs, n - 1);
      XfersOffset(remaining - cs, cs, n - 1, i - 1);
    }
  }

  /**
   * Write i of a chunk loop over `data` with chunk space `cs` carries the
   * bytes from i * cs on: min(cs, what is left) of them.
   */
  lemma XferFrameAt(lead: byte, data: seq<byte>, cs: nat, n: nat, i: nat)
    requires i < n && ChunkOffset(i, cs) <= |data|
    ensures Sum(Xfers(|data|, cs, n)) <= |data|
    ensures var off := ChunkOffset(i, cs);
      var x := if |data| - off > cs then cs else |data| - off;
      WriteFrames(lead, data, Xfers(|data|, cs, n))[i]
      == [if i == 0 then lead else CMD_CONTINUE_WRITE] + data[off .. off + x]
  {
    XfersWithin(|data|, cs, n);
    XfersOffset(|data|, cs, n, i);
    FrameAt(lead, data, Xfers(|data|, cs, n), i);
  }

  /**
   * Iteration idx of a chunk loop over `stream` with chunk space `cs`, with
   * `remaining` bytes left, writes exactly the loop's write idx, copied from
   * stream offset idx * cs; the next iteration, if any, starts at
   * (idx + 1) * cs with what this one left.
   */
  lemma ChunkFrameAt(first: byte, stream: seq<byte>, cs: nat, idx: nat, remaining: nat)
    requires idx < NumChunks(|stream|, cs) && idx * cs + remaining == |stream|
    ensures var xfer := if remaining > cs then cs else remaining;
      0 <= idx * cs && idx * cs + xfer <= |stream|
      && WriteFrames(first, stream, Transfers(|stream|, cs))[idx]
         == [if idx == 0 then first else CMD_CONTINUE_WRITE] + stream[idx * cs .. idx * cs + xfer]
      && (idx + 1 < NumChunks(|stream|, cs) ==> (idx + 1) * cs + (remaining - xfer) == |stream|)
  {
    var n := NumChunks(|stream|, cs);
    ChunkOffsetIsProduct(idx, cs);
    XferFrameAt(first, stream, cs, n, idx);
    NextChunkStart(|stream|, cs, idx, remaining);
  }

  /** Past a chunk that is not the last, the next one starts a chunk further on with what this one left. */
  lemma NextChunkStart(length: nat, cs: nat, idx: nat, remaining: nat)
    requires idx < NumChunks(length, cs) && idx * cs + remaining == length
    ensures var xfer := if remaining > cs then cs else remaining;
      idx + 1 < NumChunks(length, cs) ==> (idx + 1) * cs + (remaining - xfer) == length
  {
    var n := NumChunks(length, cs);
    if idx + 1 < n {
      assert cs > 0;
      NumChunksBounds(length, cs);
      MulMonotone(idx + 1, n - 1, cs);
      assert (idx + 1) * cs == idx * cs + cs;
    }
  }

  /** The data part of each write, concatenated, as the device reassembles it. */
  function JoinBodies(frames: seq<seq<byte>>): seq<byte>
  {
    if frames == [] then [] else (if frames[0] == [] then [] else frames[0][1..]) + JoinBodies(frames[1..])
  }

  lemma {:induction false} WriteFramesShape(first: byte, data: seq<byte>, xs: seq<nat>, i: nat)
    requires Sum(xs) <= |data| && i < |xs|
    ensures |WriteFrames(first, data, xs)[i]| == xs[i] + 1
    ensures WriteFrames(first, data, xs)[i][0] == if i == 0 then first else CMD_CONTINUE_WRITE
    decreases |xs|
  {
    if i > 0 {
      WriteFramesShape(CMD_CONTINUE_WRITE, data[xs[0]..], xs[1..], i - 1);
    }
  }

  lemma {:induction false} WriteFramesJoin(first: byte, data: seq<byte>, xs: seq<nat>)
    requires Sum(xs) <= |data|
    ensures JoinBodies(WriteFrames(first, data, xs)) == data[..Sum(xs)]
    decreases |xs|
  {
    if xs != [] {
      var rest := data[xs[0]..];
      WriteFramesJoin(CMD_CONTINUE_WRITE, rest, xs[1..]);
      var frames := WriteFrames(first, data, xs);
      assert frames[1..] == WriteFrames(CMD_CONTINUE_WRITE, rest, xs[1..]);
      assert frames[0][1..] == data[..xs[0]];
      assert data[..xs[0]] + rest[..Sum(xs[1..])] == data[..Sum(xs)];
    }
  }

  /** Chunk space of syna_tcm_raw_write / syna_tcm_write_message: the chunk size minus the command byte. */
  function WriteSpace(wrChunkSize: nat, streamLength: nat): nat
  {
    if wrChunkSize == 0 then streamLength else wrChunkSize - 1
  }

  /** The bus writes syna_tcm_raw_write issues for `command` and `data`. */
  function RawWriteFrames(command: byte, data: seq<byte>, wrChunkSize: nat): seq<seq<byte>>
  {
    WriteFrames(command, data, Transfers(|data|, WriteSpace(wrChunkSize, |data|)))
  }

  /**
   * The writes of a chunk loop with chunk space cs > 0: max(1, ceil(L / cs))
   * of them, each carrying at most cs data bytes after its leading byte, the
   * first led by `first` and the others by CMD_CONTINUE_WRITE, and their data
   * parts put back together give the stream.
   */
  lemma ChunkedWrites(first: byte, data: seq<byte>, cs: nat)
    requires cs > 0 || data == []
    ensures var frames := WriteFrames(first, data, Transfers(|data|, cs));
      |frames| == NumChunks(|data|, cs)
      && (forall i :: 0 <= i < |frames| ==> 1 <= |frames[i]| <= cs + 1)
      && frames[0][0] == first
      && (forall i :: 1 <= i < |frames| ==> frames[i][0] == CMD_CONTINUE_WRITE)
      && JoinBodies(frames) == data
  {
    var xs := Transfers(|data|, cs);
    TransfersCover(|data|, cs);
    WriteFramesJoin(first, data, xs);
    forall i | 0 <= i < |xs|
      ensures |WriteFrames(first, data, xs)[i]| == xs[i] + 1
      ensures WriteFrames(first, data, xs)[i][0] == if i == 0 then first else CMD_CONTINUE_WRITE
    {
      WriteFramesShape(first, data, xs, i);
    }
  }

  /**
   * Raw write chunking: syna_tcm_raw_write sends the command and then the
   * data in CMD_CONTINUE_WRITE chunks of at most wr_chunk_size - 1 bytes,
   * and the device gets the data back unchanged. A chunk size of 1 leaves no
   * room for data and makes ceil_div divide by zero; the README's
   * "Left out" section records what the model does then.
   */
  lemma RawWriteChunking(command: byte, data: seq<byte>, wrChunkSize: nat)
    requires wrChunkSize != 1 || data == []
    ensures var frames := RawWriteFrames(command, data, wrChunkSize);
      var cs := WriteSpace(wrChunkSize, |data|);
      |frames| == NumChunks(|data|, cs)
      && (forall i :: 0 <= i < |frames| ==> 1 <= |frames[i]| <= cs + 1)
      && frames[0][0] == command
      && (forall i :: 1 <= i < |frames| ==> frames[i][0] == CMD_CONTINUE_WRITE)
      && JoinBodies(frames) == data
  {
    ChunkedWrites(command, data, WriteSpace(wrChunkSize, |data|));
  }

  // ---------------------------------------------------------------------
  // Framed commands
  // ---------------------------------------------------------------------

  /** The stream syna_tcm_write_message sends after the command byte: LE16 payload length, then the payload. */
  function FramedStream(payload: seq<byte>): seq<byte>
  {
    Le16Bytes(|payload|) + payload
  }

  /**
   * Chunk space of a framed command. A ROM-boot download uses the compile-time
   * chunk size WR_CHUNK_SIZE (`wrChunkLimit`) rounded down to whole
   * ROMBOOT_DOWNLOAD_UNITs, or the whole stream when that limit is 0.
   */
  function FramedSpace(command: byte, streamLength: nat, wrChunkSize: nat, wrChunkLimit: nat): nat
  {
    if command == CMD_ROMBOOT_DOWNLOAD then
      if wrChunkLimit != 0 then
        (wrChunkLimit - 1) - (wrChunkLimit - 1) % ROMBOOT_DOWNLOAD_UNIT
      else streamLength
    else WriteSpace(wrChunkSize, streamLength)
  }

  /** The bus writes syna_tcm_write_message issues for a framed command. */
  function FramedWriteFrames(command: byte, payload: seq<byte>, wrChunkSize: nat, wrChunkLimit: nat): seq<seq<byte>>
  {
    var stream := FramedStream(payload);
    WriteFrames(command, stream, Transfers(|stream|, FramedSpace(command, |stream|, wrChunkSize, wrChunkLimit)))
  }

  /**
   * Framed command layout: the data the device reassembles is
   * [len & 0xff, len >> 8] ++ payload, the first write is
   * [command][len_lo][len_hi][payload prefix], later writes start with
   * CMD_CONTINUE_WRITE, and no write carries more than the chunk space.
   */
  lemma FramedWriteLayout(command: byte, payload: seq<byte>, cs: nat)
    requires cs > 0
    ensures var frames := WriteFrames(command, FramedStream(payload), Transfers(|payload| + 2, cs));
      (forall i :: 0 <= i < |frames| ==> 1 <= |frames[i]| <= cs + 1)
      && JoinBodies(frames) == [LowByte(|payload|), HighByte(|payload|)] + payload
      && frames[0][0] == command
      && (cs >= 2 ==> frames[0][1..3] == [LowByte(|payload|), HighByte(|payload|)]
                      && frames[0][3..] == payload[..|frames[0]| - 3])
      && (forall i :: 1 <= i < |frames| ==> frames[i][0] == CMD_CONTINUE_WRITE)
  {
    var stream := FramedStream(payload);
    ChunkedWrites(command, stream, cs);
    var xs := Transfers(|stream|, cs);
    var frames := WriteFrames(command, stream, xs);
    assert frames[0] == [command] + stream[..xs[0]];
    if cs >= 2 {
      assert xs[0] >= 2;
      assert frames[0][1..3] == stream[..2];
      assert frames[0][3..] == stream[2..xs[0]];
    }
  }

  /** ROM-boot download chunks hold whole 16-byte units and fit the compile-time chunk size. */
  lemma RombootSpaceAligned(streamLength: nat, wrChunkSize: nat, wrChunkLimit: nat)
    requires wrChunkLimit != 0
    ensures var cs := FramedSpace(CMD_ROMBOOT_DOWNLOAD, streamLength, wrChunkSize, wrChunkLimit);
      cs % ROMBOOT_DOWNLOAD_UNIT == 0 && cs <= wrChunkLimit - 1 && cs + ROMBOOT_DOWNLOAD_UNIT > wrChunkLimit - 1
  {
  }

  /**
   * Source offset from which syna_tcm_write_message copies continuation chunk
   * idx, as written: &payload[idx * chunk_space - 2].
   */
  function AsWrittenContinuationOffset(idx: nat, space: nat): int
  {
    idx * space - 2
  }

  /**
   * For a chunk space of at least 2 the as-written offset addresses exactly
   * the payload bytes the framed stream holds at that chunk.
   */
  lemma AsWrittenOffsetAgrees(payload: seq<byte>, idx: nat, space: nat, j: nat)
    requires idx >= 1 && space >= 2 && idx * space + j < |payload| + 2
    ensures 0 <= AsWrittenContinuationOffset(idx, space) + j < |payload|
    ensures FramedStream(payload)[idx * space + j] == payload[AsWrittenContinuationOffset(idx, space) + j]
  {
    assert idx * space >= space by {
      assert (idx - 1) * space >= 0;
    }
  }

  /**
   * With a chunk space of 1 (a write chunk size of 2) the second chunk is
   * copied from payload[-1], one byte before the payload, where the framed
   * stream holds the high length byte.
   */
  lemma AsWrittenOffsetSpaceOne(payload: seq<byte>)
    requires |payload| >= 1
    ensures AsWrittenContinuationOffset(1, 1) == -1
    ensures |Transfers(|payload| + 2, 1)| >= 3
    ensures FramedWriteFrames(CMD_IDENTIFY, payload, 2, 0)[1] == [CMD_CONTINUE_WRITE, HighByte(|payload|)]
  {
    var stream := FramedStream(payload);
    var xs := Transfers(|stream|, 1);
    var n := NumChunks(|stream|, 1);
    NumChunksBounds(|stream|, 1);
    assert xs == [1] + Xfers(|stream| - 1, 1, n - 1);
    assert Xfers(|stream| - 1, 1, n - 1) == [1] + Xfers(|stream| - 2, 1, n - 2);
    var frames := WriteFrames(CMD_IDENTIFY, stream, xs);
    assert frames[1..] == WriteFrames(CMD_CONTINUE_WRITE, stream[1..], xs[1..]);
    assert frames[1] == [CMD_CONTINUE_WRITE] + stream[1..][..1];
  }

  // ---------------------------------------------------------------------
  // Bus reads
  // ---------------------------------------------------------------------

  /** One bus read as the environment answers it: the bytes on the wire, or a bus failure. */
  datatype BusRead = Delivered(bytes: seq<byte>) | Failed

  /** The error code of a failed bus transfer (the bus driver's; -EIO here). */
  const BUS_ERROR: int := -EIO

  /** Chunk space of a chunked read: the chunk size minus the marker and code bytes. */
  function ReadSpace(rdChunkSize: nat, remaining: nat): nat
    requires rdChunkSize == 0 || rdChunkSize >= 2
  {
    if rdChunkSize == 0 then remaining else rdChunkSize - 2
  }

  /** A continuation chunk's own header: marker (when checked) and STATUS_CONTINUED_READ. */
  predicate ContinuationHeaderOk(chunk: seq<byte>, checkMarker: bool)
    requires |chunk| >= 2
  {
    (!checkMarker || chunk[0] == MESSAGE_MARKER) && chunk[1] == STATUS_CONTINUED_READ
  }

  /** Data gathered by continuation chunks, what is left of the bus queue, and the error (0 if none). */
  datatype Gathered = Gathered(data: seq<byte>, rest: seq<BusRead>, err: int)

  /**
   * The continuation part of a chunked read: one bus read of x + 2 bytes per
   * transfer length x, except that a 1-byte transfer is the padding byte and
   * reads nothing. A bus failure or a chunk whose header is wrong stops it.
   */
  function Gather(rx: seq<BusRead>, xs: seq<nat>, checkMarker: bool): (g: Gathered)
    ensures |g.rest| <= |rx|
    ensures g.err == 0 || g.err == -EIO
    decreases |xs|
  {
    if xs == [] then Gathered([], rx, 0)
    else if xs[0] == 1 then
      var g := Gather(rx, xs[1..], checkMarker);
      Gathered([MESSAGE_PADDING] + g.data, g.rest, g.err)
    else if rx == [] || rx[0].Failed? then Gathered([], if rx == [] then [] else rx[1..], BUS_ERROR)
    else
      var chunk := Clocked(rx[0].bytes, xs[0] + 2);
      if !ContinuationHeaderOk(chunk, checkMarker) then Gathered([], rx[1..], -EIO)
      else
        var g := Gather(rx[1..], xs[1..], checkMarker);
        Gathered(chunk[2..] + g.data, g.rest, g.err)
  }

  /** Number of transfers that need a bus read (all but the 1-byte padding transfers). */
  function CountReads(xs: seq<nat>): nat
  {
    if xs == [] then 0 else (if xs[0] == 1 then 0 else 1) + CountReads(xs[1..])
  }

  /**
   * A successful gather read one bus entry per transfer that is not a 1-byte
   * padding transfer, every one of them delivered with a correct continuation
   * header, and produced exactly the announced number of bytes; a 1-byte final
   * transfer ends the data with MESSAGE_PADDING.
   */
  lemma GatherSuccess(rx: seq<BusRead>, xs: seq<nat>, checkMarker: bool)
    requires Gather(rx, xs, checkMarker).err == 0
    ensures var g := Gather(rx, xs, checkMarker);
      |g.data| == Sum(xs)
      && |rx| - |g.rest| == CountReads(xs) && g.rest == rx[CountReads(xs)..]
      && (forall k :: 0 <= k < CountReads(xs) ==>
            rx[k].Delivered? && ContinuationHeaderOk(Clocked(rx[k].bytes, 2), checkMarker))
      && (xs != [] && xs[|xs| - 1] == 1 ==> |g.data| >= 1 && g.data[|g.data| - 1] == MESSAGE_PADDING)
  {
    GatherLength(rx, xs, checkMarker);
    GatherReads(rx, xs, checkMarker);
    GatherEndsInPadding(rx, xs, checkMarker);
  }

  /** A successful gather produces exactly the announced number of bytes. */
  lemma {:induction false} GatherLength(rx: seq<BusRead>, xs: seq<nat>, checkMarker: bool)
    requires Gather(rx, xs, checkMarker).err == 0
    ensures |Gather(rx, xs, checkMarker).data| == Sum(xs)
  {
    if xs != [] {
      if xs[0] == 1 {
        GatherLength(rx, xs[1..], checkMarker);
      } else {
        GatherLength(rx[1..], xs[1..], checkMarker);
      }
    }
  }

  /** A successful gather consumes one bus entry per read transfer, each delivered with a correct header. */
  lemma {:induction false} GatherReads(rx: seq<BusRead>, xs: seq<nat>, checkMarker: bool)
    requires Gather(rx, xs, checkMarker).err == 0
    ensures var g := Gather(rx, xs, checkMarker);
      |rx| - |g.rest| == CountReads(xs) && g.rest == rx[CountReads(xs)..]
      && (forall k :: 0 <= k < CountReads(xs) ==>
            rx[k].Delivered? && ContinuationHeaderOk(Clocked(rx[k].bytes, 2), checkMarker))
  {
    if xs != [] {
      if xs[0] == 1 {
        GatherReads(rx, xs[1..], checkMarker);
      } else {
        var chunk := Clocked(rx[0].bytes, xs[0] + 2);
        GatherReads(rx[1..], xs[1..], checkMarker);
        assert Clocked(rx[0].bytes, 2) == chunk[..2];
        forall k | 0 <= k < CountReads(xs)
          ensures rx[k].Delivered? && ContinuationHeaderOk(Clocked(rx[k].bytes, 2), checkMarker)
        {
          if k > 0 {
            assert rx[k] == rx[1..][k - 1];
          }
        }
      }
    }
  }

  /** A successful gather whose last transfer is the 1-byte one ends its data with MESSAGE_PADDING. */
  lemma {:induction false} GatherEndsInPadding(rx: seq<BusRead>, xs: seq<nat>, checkMarker: bool)
    requires Gather(rx, xs, checkMarker).err == 0
    ensures var g := Gather(rx, xs, checkMarker);
      xs != [] && xs[|xs| - 1] == 1 ==> |g.data| >= 1 && g.data[|g.data| - 1] == MESSAGE_PADDING
  {
    if xs != [] && xs[|xs| - 1] == 1 {
      var g := Gather(rx, xs, checkMarker);
      if |xs| == 1 {
        assert g.data == [MESSAGE_PADDING];
      } else {
        var tl := xs[1..];
        assert tl[|tl| - 1] == 1;
        var rx' := if xs[0] == 1 then rx else rx[1..];
        var head := GatherHead(rx, xs, checkMarker);
        GatherEndsInPadding(rx', tl, checkMarker);
        LastOfAppend(head, Gather(rx', tl, checkMarker).data);
      }
    }
  }

  /** The first transfer of a successful gather: what it contributed, ahead of a successful gather of the rest. */
  lemma GatherHead(rx: seq<BusRead>, xs: seq<nat>, checkMarker: bool) returns (head: seq<byte>)
    requires xs != [] && Gather(rx, xs, checkMarker).err == 0
    ensures xs[0] != 1 ==> rx != []
    ensures var rx' := if xs[0] == 1 then rx else rx[1..];
      Gather(rx', xs[1..], checkMarker).err == 0
      && Gather(rx, xs, checkMarker).data == head + Gather(rx', xs[1..], checkMarker).data
  {
    head := if xs[0] == 1 then [MESSAGE_PADDING] else Clocked(rx[0].bytes, xs[0] + 2)[2..];
  }

  lemma LastOfAppend(a: seq<byte>, b: seq<byte>)
    requires |b| >= 1
    ensures (a + b)[|a + b| - 1] == b[|b| - 1]
  {
  }

  /** A delivered chunk with a wrong header ends the read with -EIO, consuming just that chunk. */
  lemma GatherRejectsBadHeader(rx: seq<BusRead>, xs: seq<nat>, checkMarker: bool)
    requires xs != [] && xs[0] != 1 && rx != [] && rx[0].Delivered?
    requires !ContinuationHeaderOk(Clocked(rx[0].bytes, 2), checkMarker)
    ensures Gather(rx, xs, checkMarker) == Gathered([], rx[1..], -EIO)
  {
    assert Clocked(rx[0].bytes, 2) == Clocked(rx[0].bytes, xs[0] + 2)[..2];
  }

  /** The transfer lengths of a chunk loop with `remaining` bytes left start with min(space, remaining). */
  lemma XfersHead(xs: seq<nat>, remaining: nat, space: nat, x: nat)
    requires xs != [] && xs == Xfers(remaining, space, |xs|)
    requires x == if remaining > space then space else remaining
    ensures xs[0] == x && xs[1..] == Xfers(remaining - x, space, |xs| - 1)
  {
  }
}
