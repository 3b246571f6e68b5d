/** The AHCI block-device adapter: construction over a zeroed device
    record, byte-buffer reads and writes turned into block-count requests
    to the SATA backend, and the backend's integer replies mapped onto
    `DevResult`.

    The backend (`ahci_init`, `ahci_sata_read_common`,
    `ahci_sata_write_common`) is not part of this model: each call is a
    function parameter from the arguments it receives to the value it
    returns. */
module Ahci {
  import opened MachineInt
  import opened DriverBase
  import BlockMath

  /** Geometry part of the device record (`blk_dev`). */
  datatype BlkDev = BlkDev(lba: u64, blksz: u64)

  /** The device record the backend fills in. Everything besides `blk_dev`
      (controller registers, ports, command tables) has a layout owned by
      the backend; it is kept as the raw bytes the backend reads and
      writes. */
  datatype AhciDevice = AhciDevice(hba: seq<byte>, blkDev: BlkDev)

  /** The adapter owns exactly one device record. */
  datatype AhciDriver = AhciDriver(device: AhciDevice)

  /** What `ahci_init` leaves behind: its status code and the record it
      populated in place. */
  datatype InitReply = InitReply(status: int, device: AhciDevice)

  /** Arguments of one `ahci_sata_read_common` / `ahci_sata_write_common`
      call, apart from the buffer pointer. */
  datatype SataRequest = SataRequest(device: AhciDevice, blockId: u64, count: u32)

  datatype Direction = Read | Write

  /** Diagnostics the adapter emits through the logger. */
  datatype LogEntry =
    | InitSucceeded
    | InitFailed(code: int)
    | Unaligned(bufLen: usize, blockSize: usize)
    | TransferFailed(dir: Direction, expected: nat, got: u64)

  /** A value together with the log lines produced while computing it. */
  datatype Logged<T> = Logged(value: T, log: seq<LogEntry>)

  // ---------------------------------------------------------------------
  // Construction

  predicate IsZeroed(d: AhciDevice) {
    && d.blkDev.lba == 0
    && d.blkDev.blksz == 0
    && forall i :: 0 <= i < |d.hba| ==> d.hba[i] == 0
  }

  /** The record as `write_bytes(.., 0, 1)` leaves it; `layoutSize` is the
      number of bytes of the backend's record outside `blk_dev`, which the
      backend fixes. */
  function ZeroDevice(layoutSize: nat): (d: AhciDevice)
    ensures IsZeroed(d) && |d.hba| == layoutSize
    ensures forall e :: IsZeroed(e) && |e.hba| == layoutSize ==> e == d
  {
    var d := AhciDevice(seq(layoutSize, _ => 0), BlkDev(0, 0));
    assert forall e :: IsZeroed(e) && |e.hba| == layoutSize ==> e.hba == d.hba;
    d
  }

  /** `AhciDriver::try_new`: hand a zeroed record to the initialiser and
      keep the populated record iff it reports status 0. */
  function TryNew(layoutSize: nat, init: AhciDevice -> InitReply): (r: Logged<Result<AhciDriver>>)
    ensures exists z :: IsZeroed(z) && |z.hba| == layoutSize && InitOutcome(init(z), r)
  {
    var reply := init(ZeroDevice(layoutSize));
    if reply.status == 0 then
      Logged(Ok(AhciDriver(reply.device)), [InitSucceeded])
    else
      Logged(Err(Io), [InitFailed(reply.status)])
  }

  /** How construction answers a given initialiser reply: success exactly
      for status 0, carrying the populated record; otherwise an I/O error
      and no driver at all. */
  predicate InitOutcome(reply: InitReply, r: Logged<Result<AhciDriver>>) {
    && (r.value.Ok? <==> reply.status == 0)
    && (r.value.Ok? ==> r.value.value.device == reply.device && r.log == [InitSucceeded])
    && (r.value.Err? ==> r.value.error == Io && r.log == [InitFailed(reply.status)])
  }

  /** Construction observes the initialiser only on a zeroed record: two
      initialisers that agree there give the same outcome. */
  lemma TryNewSeesOnlyZeroedDevice(layoutSize: nat, init1: AhciDevice -> InitReply, init2: AhciDevice -> InitReply)
    requires forall z :: IsZeroed(z) && |z.hba| == layoutSize ==> init1(z) == init2(z)
    ensures TryNew(layoutSize, init1) == TryNew(layoutSize, init2)
  {
  }

  // ---------------------------------------------------------------------
  // Identity and geometry queries

  function DeviceType(drv: AhciDriver): (t: DriverBase.DeviceType)
    ensures t == Block
  {
    Block
  }

  function DeviceName(drv: AhciDriver): (name: string)
    ensures name == "ahci"
  {
    "ahci"
  }

  /** `block_size`: `blksz as usize`, an identity on a 64-bit target.
      What it reports is stated by `GeometryAfterInit`. */
  function BlockSize(drv: AhciDriver): usize {
    drv.device.blkDev.blksz
  }

  /** `num_blocks`: the LBA span the initialiser recorded, as stated by
      `GeometryAfterInit`. */
  function NumBlocks(drv: AhciDriver): u64 {
    drv.device.blkDev.lba
  }

  /** A successfully constructed driver reports the geometry the
      initialiser wrote into the zeroed record. */
  lemma GeometryAfterInit(layoutSize: nat, init: AhciDevice -> InitReply)
    requires TryNew(layoutSize, init).value.Ok?
    ensures var reply := init(ZeroDevice(layoutSize));
            var drv := TryNew(layoutSize, init).value.value;
            && BlockSize(drv) == reply.device.blkDev.blksz
            && NumBlocks(drv) == reply.device.blkDev.lba
  {
  }

  // ---------------------------------------------------------------------
  // Reads and writes

  /** Inputs on which the block-count arithmetic is defined: a non-zero
      block size (the division panics otherwise) and no overflow of
      `len + bs - 1` in usize. */
  predicate TransferDefined(drv: AhciDriver, bufLen: usize) {
    && BlockSize(drv) > 0
    && bufLen + BlockSize(drv) - 1 <= USIZE_MAX
  }

  /** The backend call a read or write of `bufLen` bytes at `blockId`
      issues: the count is the number of blocks covering the buffer,
      narrowed to u32. */
  function Request(drv: AhciDriver, blockId: u64, bufLen: usize): (q: SataRequest)
    requires TransferDefined(drv, bufLen)
    ensures q.device == drv.device && q.blockId == blockId
    ensures q.count == BlockMath.BlocksToCover(bufLen, BlockSize(drv)) % U32_MODULUS
  {
    var blockCount := BlockMath.WrappingBlockCount(bufLen, BlockSize(drv));
    BlockMath.BlockCountMatchesCover(bufLen, BlockSize(drv));
    SataRequest(drv.device, blockId, AsU32(blockCount))
  }

  /** What a read or write promises, stated against the block-peeling
      count: success exactly when the backend reports the un-narrowed
      count, `Io` as the only error, an alignment warning exactly for a
      misaligned length, a failure line naming both counts exactly on
      failure, each at most once, the failure line last, and nothing else. */
  predicate TransferSpec(dir: Direction, drv: AhciDriver, blockId: u64, bufLen: usize,
                         backend: SataRequest -> u64, r: Logged<DevResult>)
    requires TransferDefined(drv, bufLen)
  {
    var bs := BlockSize(drv);
    var n := BlockMath.BlocksToCover(bufLen, bs);
    var got := backend(SataRequest(drv.device, blockId, n % U32_MODULUS));
    && (r.value.Ok? <==> got == n)
    && (r.value.Err? ==> r.value.error == Io)
    && (Unaligned(bufLen, bs) in r.log <==> bufLen % bs != 0)
    && (TransferFailed(dir, n, got) in r.log <==> r.value.Err?)
    && (forall e :: e in r.log ==> e == Unaligned(bufLen, bs) || e == TransferFailed(dir, n, got))
    && |r.log| == (if bufLen % bs != 0 then 1 else 0) + (if r.value.Err? then 1 else 0)
    && (r.value.Err? ==> r.log[|r.log| - 1] == TransferFailed(dir, n, got))
  }

  /** The body shared by `read_block` and `write_block`. */
  function Transfer(dir: Direction, drv: AhciDriver, blockId: u64, bufLen: usize,
                    backend: SataRequest -> u64): (r: Logged<DevResult>)
    requires TransferDefined(drv, bufLen)
    ensures TransferSpec(dir, drv, blockId, bufLen, backend, r)
  {
    var bs := BlockSize(drv);
    var blockCount := BlockMath.WrappingBlockCount(bufLen, bs);
    BlockMath.BlockCountMatchesCover(bufLen, bs);
    var warnings := if bufLen % bs != 0 then [Unaligned(bufLen, bs)] else [];
    var got := backend(Request(drv, blockId, bufLen));
    // `block_count as u64` is the identity: usize and u64 have one width.
    if got == blockCount then
      Logged(Ok(()), warnings)
    else
      Logged(Err(Io), warnings + [TransferFailed(dir, blockCount, got)])
  }

  /** `read_block` of a buffer of `bufLen` bytes. */
  function ReadBlock(drv: AhciDriver, blockId: u64, bufLen: usize,
                     backend: SataRequest -> u64): (r: Logged<DevResult>)
    requires TransferDefined(drv, bufLen)
    ensures TransferSpec(Read, drv, blockId, bufLen, backend, r)
  {
    Transfer(Read, drv, blockId, bufLen, backend)
  }

  /** `write_block` of a buffer of `bufLen` bytes. */
  function WriteBlock(drv: AhciDriver, blockId: u64, bufLen: usize,
                      backend: SataRequest -> u64): (r: Logged<DevResult>)
    requires TransferDefined(drv, bufLen)
    ensures TransferSpec(Write, drv, blockId, bufLen, backend, r)
  {
    Transfer(Write, drv, blockId, bufLen, backend)
  }

  /** A misaligned length is never an error by itself: the outcome is that
      of the buffer rounded up to whole blocks, and the log differs only by
      the alignment warning. (The second requires only keeps the rounded-up
      buffer itself inside the defined domain, so that it can be compared.) */
  lemma MisalignmentIsNonFatal(dir: Direction, drv: AhciDriver, blockId: u64, bufLen: usize,
                               backend: SataRequest -> u64)
    requires TransferDefined(drv, bufLen)
    requires var bs := BlockSize(drv);
             BlockMath.BlockCount(bufLen, bs) * bs + bs - 1 <= USIZE_MAX
    ensures var bs := BlockSize(drv);
            var padded := BlockMath.BlockCount(bufLen, bs) * bs;
            && padded % bs == 0
            && var r := Transfer(dir, drv, blockId, bufLen, backend);
               var p := Transfer(dir, drv, blockId, padded, backend);
               && r.value == p.value
               && r.log == (if bufLen % bs != 0 then [Unaligned(bufLen, bs)] else []) + p.log
  {
    var bs := BlockSize(drv);
    var n := BlockMath.BlockCount(bufLen, bs);
    BlockMath.TransferExtent(bufLen, bs);
    BlockMath.TransferExtent(n * bs, bs);
    BlockMath.BlockCountOfPadded(bufLen, bs);
    BlockMath.BlockCountMatchesCover(bufLen, bs);
    BlockMath.BlockCountMatchesCover(n * bs, bs);
  }

  /** A backend that transfers exactly the count it is asked for makes
      the call succeed iff the block count fits in u32: a larger count is
      narrowed on the way in but compared un-narrowed on the way out, so
      it is reported as an I/O error rather than silently truncated. */
  lemma ExactBackendSucceedsIffCountFits(dir: Direction, drv: AhciDriver, blockId: u64, bufLen: usize,
                                         backend: SataRequest -> u64)
    requires TransferDefined(drv, bufLen)
    requires backend(Request(drv, blockId, bufLen)) == Request(drv, blockId, bufLen).count
    ensures Transfer(dir, drv, blockId, bufLen, backend).value.Ok?
            <==> BlockMath.BlocksToCover(bufLen, BlockSize(drv)) < U32_MODULUS
  {
  }

  /** With a block count of 2^32 or more, success needs a reply larger
      than any count a u32 request can carry. */
  lemma OversizedCountNeedsOversizedReply(dir: Direction, drv: AhciDriver, blockId: u64, bufLen: usize,
                                          backend: SataRequest -> u64)
    requires TransferDefined(drv, bufLen)
    requires BlockMath.BlocksToCover(bufLen, BlockSize(drv)) >= U32_MODULUS
    ensures Transfer(dir, drv, blockId, bufLen, backend).value.Ok?
            ==> backend(Request(drv, blockId, bufLen)) >= U32_MODULUS
  {
  }

  /** Worked cases on a 512-byte-block disk of 1000 blocks: a 600-byte
      buffer asks for two blocks and is warned about; a backend reply of
      one block then fails the call with `Io`, a reply of two succeeds. */
  lemma MisalignedScenario(hba: seq<byte>, blockId: u64)
    ensures var drv := AhciDriver(AhciDevice(hba, BlkDev(1000, 512)));
            && TransferDefined(drv, 600)
            && Request(drv, blockId, 600).count == 2
            && WriteBlock(drv, blockId, 600, _ => 1).value == Err(Io)
            && WriteBlock(drv, blockId, 600, _ => 2).value == Ok(())
            && Unaligned(600, 512) in ReadBlock(drv, blockId, 600, _ => 2).log
  {
    var drv := AhciDriver(AhciDevice(hba, BlkDev(1000, 512)));
    assert BlockMath.BlocksToCover(600, 512) == 2;
  }

  // ---------------------------------------------------------------------
  // Flush

  /** `flush`: nothing to do, since every backend write flushes the
      device cache itself; always succeeds and leaves the driver as it was. */
  function Flush(drv: AhciDriver): (r: (DevResult, AhciDriver))
    ensures r.0.Ok? && r.1 == drv
  {
    (Ok(()), drv)
  }
}
