/**
 * Fields the host takes out of device responses and reports: the partial
 * copies into the identification and application-info records, the write
 * chunk size learned from an identify report, and the payloads and response
 * layouts of the dynamic-configuration and data-location commands.
 */
module TcmFields {
  import opened Errno
  import opened TcmProtocol

  // ---- struct syna_tcm_identification: version, mode, part_number[16], build_id[4], max_write_size[2] ----
  const ID_INFO_SIZE: nat := 24
  const ID_MODE_OFFSET: nat := 1
  const ID_BUILD_ID_OFFSET: nat := 18
  const ID_MAX_WRITE_SIZE_OFFSET: nat := 22

  /** The info query syna_tcm_identify makes in a firmware mode; CMD_NONE when it makes none. */
  function InfoQuery(mode: byte): byte
  {
    if mode == MODE_APPLICATION_FIRMWARE || mode == MODE_HOSTDOWNLOAD_FIRMWARE then CMD_GET_APPLICATION_INFO
    else if mode == MODE_BOOTLOADER || mode == MODE_TDDI_BOOTLOADER then CMD_GET_BOOT_INFO
    else if mode == MODE_ROMBOOTLOADER then CMD_GET_ROMBOOT_INFO
    else CMD_NONE
  }

  /**
   * The application info is queried exactly in the firmware modes, the
   * ROM-boot info exactly in the ROM bootloader, and some query is made
   * exactly in the firmware and bootloader modes.
   */
  lemma InfoQueryByMode(mode: byte)
    ensures InfoQuery(mode) == CMD_GET_APPLICATION_INFO <==> IsFwMode(mode)
    ensures InfoQuery(mode) == CMD_GET_ROMBOOT_INFO <==> mode == MODE_ROMBOOTLOADER
    ensures InfoQuery(mode) == CMD_NONE
            <==> !(IsFwMode(mode) || mode == MODE_BOOTLOADER || mode == MODE_TDDI_BOOTLOADER || mode == MODE_ROMBOOTLOADER)
  {
  }

  // ---- struct syna_tcm_app_info: version[2], status[2], ... (only the first 4 bytes are modelled) ----
  const APP_INFO_SIZE: nat := 4
  const APP_STATUS_OFFSET: nat := 2

  // ---- get_app_info polling ----
  const APP_STATUS_POLL_TIMEOUT_MS: nat := 1000
  const APP_STATUS_POLL_MS: nat := 100
  /** Queries get_app_info makes at most: one, then one per poll period until the timeout is spent. */
  const MAX_APP_INFO_QUERIES: nat := APP_STATUS_POLL_TIMEOUT_MS / APP_STATUS_POLL_MS + 1

  /** Application-info statuses that keep get_app_info polling. */
  predicate AppStillStarting(status: nat)
  {
    status == APP_STATUS_BOOTING || status == APP_STATUS_UPDATING
  }

  /**
   * secure_memcpy(dst, sizeof(dst), src, ..., MIN(sizeof(dst), |src|)): the
   * record keeps its size; its first MIN(|dst|, |src|) bytes come from `src`.
   */
  function PartialCopy(dst: seq<byte>, src: seq<byte>): (r: seq<byte>)
    ensures |r| == |dst|
    ensures forall i :: 0 <= i < |dst| ==> r[i] == if i < |src| then src[i] else dst[i]
  {
    if |src| >= |dst| then src[..|dst|] else src + dst[|src|..]
  }

  /** The partial copy is the copied prefix of `src` followed by the rest of `dst`. */
  lemma PartialCopyPrefix(dst: seq<byte>, src: seq<byte>)
    ensures var n := if |src| < |dst| then |src| else |dst|;
      PartialCopy(dst, src) == src[..n] + dst[n..]
  {
  }

  /** le4_to_uint over four bytes. */
  function Le32(b: seq<byte>): (v: nat)
    requires |b| == 4
    ensures v < 0x1_0000_0000
  {
    Le16(b[0], b[1]) + 0x1_0000 * Le16(b[2], b[3])
  }

  /**
   * The write chunk size adopted on an identify report: MIN(max_write_size,
   * WR_CHUNK_SIZE), replaced by max_write_size when that minimum is 0.
   */
  function WrChunkFromIdentify(maxWriteSize: nat, wrChunkLimit: nat): nat
  {
    var m := if maxWriteSize < wrChunkLimit then maxWriteSize else wrChunkLimit;
    if m == 0 then maxWriteSize else m
  }

  /**
   * The adopted chunk size never exceeds what the device accepts, is bounded
   * by the compile-time limit when both are set, is the device's value when
   * there is no limit, and is 0 (unchunked) only when the device reports 0.
   */
  lemma WrChunkFromIdentifyBounds(maxWriteSize: nat, wrChunkLimit: nat)
    ensures var w := WrChunkFromIdentify(maxWriteSize, wrChunkLimit);
      w <= maxWriteSize
      && (maxWriteSize > 0 && wrChunkLimit > 0 ==> w <= wrChunkLimit && w > 0)
      && (wrChunkLimit == 0 ==> w == maxWriteSize)
      && (w == 0 <==> maxWriteSize == 0)
  {
  }

  // ---- dynamic configuration ----

  /** The payload of SET_DYNAMIC_CONFIG: the id, then the value low byte first. */
  function SetDynamicConfigPayload(id: nat, value: nat): (p: seq<byte>)
    ensures |p| == 3
  {
    [LowByte(id)] + Le16Bytes(value)
  }

  /** The value a GET_DYNAMIC_CONFIG response carries, or -EINVAL when it is shorter than two bytes. */
  function DynamicConfigValue(resp: seq<byte>): Result<nat>
  {
    if |resp| < 2 then Failure(-EINVAL) else Success(Le16(resp[0], resp[1]))
  }

  datatype Result<T> = Success(value: T) | Failure(err: int)

  /**
   * A 16-bit value sent by SET_DYNAMIC_CONFIG is read back unchanged from a
   * response that echoes the value bytes of the payload, and the payload's
   * first byte is the (truncated) id.
   */
  lemma DynamicConfigRoundTrip(id: nat, value: nat)
    requires value < 0x1_0000
    ensures SetDynamicConfigPayload(id, value)[0] == id % 256
    ensures DynamicConfigValue(SetDynamicConfigPayload(id, value)[1..]) == Success(value)
  {
    Le16RoundTrip(value);
  }

  // ---- data locations ----

  datatype FlashArea = CustomLcm | CustomOem | Ppdt | OtherArea

  const LCM_DATA: byte := 1
  const OEM_DATA: byte := 2
  const PPDT_DATA: byte := 3

  /** The data-area code GET_DATA_LOCATION is sent for an area, or -EINVAL for any other area. */
  function DataAreaCode(area: FlashArea): Result<byte>
  {
    match area
    case CustomLcm => Success(LCM_DATA)
    case CustomOem => Success(OEM_DATA)
    case Ppdt => Success(PPDT_DATA)
    case OtherArea => Failure(-EINVAL)
  }

  /** A GET_DATA_LOCATION response: exactly four bytes, address then length, each little-endian. */
  function DataLocation(resp: seq<byte>): Result<(nat, nat)>
  {
    if |resp| != 4 then Failure(-EINVAL) else Success((Le16(resp[0], resp[1]), Le16(resp[2], resp[3])))
  }

  /**
   * Distinct areas are sent as distinct codes, and a location is decoded
   * from a response exactly when it has four bytes, as the bytes of the two
   * 16-bit fields.
   */
  lemma DataLocationDecoding(area: FlashArea, area': FlashArea, addr: nat, length: nat)
    requires addr < 0x1_0000 && length < 0x1_0000
    ensures DataAreaCode(area).Success? && DataAreaCode(area') == DataAreaCode(area) ==> area == area'
    ensures DataAreaCode(area).Failure? <==> area == OtherArea
    ensures DataLocation(Le16Bytes(addr) + Le16Bytes(length)) == Success((addr, length))
  {
    Le16RoundTrip(addr);
    Le16RoundTrip(length);
  }
}
