/** The size policy of the installer.

    Sizes are in 512-byte sectors as the `gpt` crate reports them. The
    dual-boot check converts the chosen range to whole gigabytes with
    1024-based factors, the ESP of a fresh install is sized with 1000-based
    ones, and the root partition asks for 500 bytes per free sector: both
    conversions are kept exactly as they are.
 */
module SpacePolicy {
  import opened GptTable

  /** Sectors in a 1024-based gigabyte at 512 bytes per sector. */
  const SECTORS_PER_GIB: nat := 1024 * 1024 * 2

  /** Size of the ESP a fresh install creates: 1000-based, 10^9 bytes. */
  const ESP_SIZE_BYTES: nat := 1 * 1000 * 1000 * 1000

  /** Bytes the root partition asks for per free sector. */
  const ROOT_BYTES_PER_SECTOR: nat := 500

  /** What the dual-boot branch does with the longest free range. */
  datatype Verdict =
    | TooSmall   // fewer than 16 whole gigabytes: the installer panics
    | AskFirst   // 16 to 63 whole gigabytes: the user must confirm
    | Enough     // 64 whole gigabytes or more: go ahead without asking

  /** `length_sectors / 1024 / 1024 / 2`: whole 1024-based gigabytes. */
  function LengthGb(lengthSectors: u64): (g: nat)
    ensures g == lengthSectors as int / SECTORS_PER_GIB
    ensures g * SECTORS_PER_GIB <= lengthSectors as int < (g + 1) * SECTORS_PER_GIB
  {
    var a := lengthSectors as int / 1024;
    var b := a / 1024;
    var g := b / 2;
    assert lengthSectors as int == 1024 * a + lengthSectors as int % 1024;
    assert a == 1024 * b + a % 1024;
    assert b == 2 * g + b % 2;
    g
  }

  /** The thresholds of the dual-boot branch, stated in sectors. */
  function Classify(lengthSectors: u64): (v: Verdict)
    ensures v == TooSmall <==> lengthSectors as int < 16 * SECTORS_PER_GIB
    ensures v == AskFirst <==> 16 * SECTORS_PER_GIB <= lengthSectors as int < 64 * SECTORS_PER_GIB
    ensures v == Enough <==> 64 * SECTORS_PER_GIB <= lengthSectors as int
  {
    var g := LengthGb(lengthSectors);
    if g < 16 then TooSmall
    else if g < 64 then AskFirst
    else Enough
  }

  /** `length_sectors * 500` on `u64`: `None` when the product overflows,
      which panics in a build with overflow checks. The request never
      exceeds the range's capacity at 512-byte sectors and stays strictly
      below it when the range is not empty. */
  function RootRequestBytes(lengthSectors: u64): (r: Option<u64>)
    ensures r.None? <==> lengthSectors as int * ROOT_BYTES_PER_SECTOR >= U64_BOUND
    ensures r.Some? ==> r.value as int == lengthSectors as int * ROOT_BYTES_PER_SECTOR
    ensures r.Some? ==> r.value as int <= lengthSectors as int * 512
    ensures r.Some? && lengthSectors > 0 ==> r.value as int < lengthSectors as int * 512
  {
    var bytes := lengthSectors as int * ROOT_BYTES_PER_SECTOR;
    if bytes < U64_BOUND then Some(bytes as u64) else None
  }
}
