/**
 * Wire-level vocabulary of the Synaptics TouchComm (TCM) protocol as the host
 * driver uses it: bytes, the 4-byte message header, the status / report /
 * command codes, little-endian 16-bit fields and the kernel error numbers the
 * transport returns.
 *
 * The numeric codes live in synaptics_tcm_core.h, which is not part of this
 * model; they are given the conventional TCM values. No proof depends on a
 * particular value beyond the codes being distinct and STATUS_ERROR lying
 * below REPORT_IDENTIFY.
 */
module TcmProtocol {

  type byte = x: int | 0 <= x < 256

  // ---- message framing ----
  const MESSAGE_HEADER_SIZE: nat := 4
  const MESSAGE_MARKER: byte := 0xa5
  const MESSAGE_PADDING: byte := 0x5a
  /** Predictive reading never asks for fewer bytes than this. */
  const MIN_READ_LENGTH: nat := 9
  /** ROM-boot download chunks are a multiple of this many bytes. */
  const ROMBOOT_DOWNLOAD_UNIT: nat := 16

  // ---- status codes (responses and control statuses) ----
  const STATUS_IDLE: byte := 0x00
  const STATUS_OK: byte := 0x01
  const STATUS_BUSY: byte := 0x02
  const STATUS_CONTINUED_READ: byte := 0x03
  const STATUS_ERROR: byte := 0x0f
  const STATUS_INVALID: byte := 0xff

  // ---- report codes ----
  const REPORT_IDENTIFY: byte := 0x10
  const REPORT_TOUCH: byte := 0x11
  const REPORT_HDL_ROMBOOT: byte := 0xfd

  // ---- commands ----
  const CMD_NONE: byte := 0x00
  const CMD_CONTINUE_WRITE: byte := 0x01
  const CMD_IDENTIFY: byte := 0x02
  const CMD_RESET: byte := 0x04
  const CMD_GET_BOOT_INFO: byte := 0x10
  const CMD_RUN_APPLICATION_FIRMWARE: byte := 0x14
  const CMD_RUN_BOOTLOADER_FIRMWARE: byte := 0x1f
  const CMD_GET_APPLICATION_INFO: byte := 0x20
  const CMD_GET_DYNAMIC_CONFIG: byte := 0x23
  const CMD_SET_DYNAMIC_CONFIG: byte := 0x24
  const CMD_GET_DATA_LOCATION: byte := 0x2f
  const CMD_ENTER_PRODUCTION_TEST_MODE: byte := 0x31
  const CMD_GET_ROMBOOT_INFO: byte := 0x40
  const CMD_ROMBOOT_RUN_BOOTLOADER_FIRMWARE: byte := 0x42
  const CMD_ROMBOOT_DOWNLOAD: byte := 0x45

  // ---- firmware modes reported by identify ----
  const MODE_APPLICATION_FIRMWARE: byte := 0x01
  const MODE_HOSTDOWNLOAD_FIRMWARE: byte := 0x02
  const MODE_ROMBOOTLOADER: byte := 0x04
  const MODE_BOOTLOADER: byte := 0x0b
  const MODE_TDDI_BOOTLOADER: byte := 0x0c
  const MODE_PRODUCTIONTEST_FIRMWARE: byte := 0x0e

  // ---- application status ----
  const APP_STATUS_OK: nat := 0x00
  const APP_STATUS_BOOTING: nat := 0x01
  const APP_STATUS_UPDATING: nat := 0x02

  /** A firmware mode in which the application (or host-download) firmware runs. */
  predicate IsFwMode(mode: byte) {
    mode == MODE_APPLICATION_FIRMWARE || mode == MODE_HOSTDOWNLOAD_FIRMWARE
  }

  /** Little-endian 16-bit field, as le2_to_uint reads it. */
  function Le16(lo: byte, hi: byte): (v: nat)
    ensures v < 0x1_0000
  {
    lo + 256 * hi
  }

  /** (unsigned char)v: the low byte of an unsigned value. */
  function LowByte(v: nat): byte { v % 256 }

  /** (unsigned char)(v >> 8): the second byte of an unsigned value. */
  function HighByte(v: nat): byte { (v / 256) % 256 }

  /** The two bytes a 16-bit length or value is sent as, low byte first. */
  function Le16Bytes(v: nat): (s: seq<byte>)
    ensures |s| == 2
  {
    [LowByte(v), HighByte(v)]
  }

  lemma Le16RoundTrip(v: nat)
    requires v < 0x1_0000
    ensures Le16(LowByte(v), HighByte(v)) == v
  {
    assert v / 256 < 256;
  }

  lemma Le16Injective(lo: byte, hi: byte, lo': byte, hi': byte)
    requires Le16(lo, hi) == Le16(lo', hi')
    ensures lo == lo' && hi == hi'
  {
  }

  /**
   * ceil_div: the number of divisor-sized pieces that cover the dividend,
   * counted one piece at a time. A zero divisor is a division by zero in C;
   * the AArch64 UDIV instruction the target executes yields 0 for it, which
   * is the value used here.
   */
  function CeilDiv(x: nat, d: nat): nat
  {
    if d == 0 || x == 0 then 0
    else if x <= d then 1
    else 1 + CeilDiv(x - d, d)
  }

  /** The count is the driver's formula (dividend + divisor - 1) / divisor. */
  lemma {:induction false} CeilDivFormula(x: nat, d: nat)
    requires d > 0
    ensures CeilDiv(x, d) == (x + d - 1) / d
  {
    if x == 0 {
      DivUnique(d - 1, d, 0, d - 1);
    } else if x <= d {
      DivUnique(x + d - 1, d, 1, x - 1);
    } else {
      CeilDivFormula(x - d, d);
      DivShift(x + d - 1, d);
    }
  }

  /** One divisor more in the dividend is one more in the quotient. */
  lemma DivShift(a: nat, d: nat)
    requires d > 0 && a >= d
    ensures a / d == (a - d) / d + 1
  {
    var q := (a - d) / d;
    var r := (a - d) % d;
    assert (q + 1) * d == q * d + d;
    DivUnique(a, d, q + 1, r);
  }

  /** Quotient and remainder are unique. */
  lemma DivUnique(a: nat, d: nat, q: nat, r: nat)
    requires d > 0 && r < d && a == q * d + r
    ensures a / d == q
  {
    var q' := a / d;
    if q' < q {
      assert (q' + 1) * d == q' * d + d;
      MulMonotone(q' + 1, q, d);
    } else if q' > q {
      assert (q + 1) * d == q * d + d;
      MulMonotone(q + 1, a / d, d);
    }
  }

  lemma {:induction false} MulMonotone(a: nat, b: nat, c: nat)
    requires a <= b
    ensures a * c <= b * c
    decreases b - a
  {
    if a < b {
      MulMonotone(a + 1, b, c);
      assert (a + 1) * c == a * c + c;
    }
  }

  /** ceil_div rounds up: q divisions of size d cover x, and q - 1 of them do not. */
  lemma {:induction false} CeilDivBounds(x: nat, d: nat)
    requires d > 0
    ensures CeilDiv(x, d) * d >= x && (CeilDiv(x, d) == 0 || (CeilDiv(x, d) - 1) * d < x)
  {
    if x > d {
      CeilDivBounds(x - d, d);
      var q := CeilDiv(x - d, d);
      assert (q + 1) * d == q * d + d;
      if q > 0 {
        assert q * d == (q - 1) * d + d;
      }
    }
  }

  /** Number of bytes a read of n bytes from `bytes` clocks in: truncated, or zero-filled. */
  function Clocked(bytes: seq<byte>, n: nat): (s: seq<byte>)
    ensures |s| == n
    ensures forall i :: 0 <= i < n && i < |bytes| ==> s[i] == bytes[i]
  {
    if |bytes| >= n then bytes[..n] else bytes + seq(n - |bytes|, _ => 0)
  }
}
