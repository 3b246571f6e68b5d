# AHCI block adapter — a Dafny model

This project models `AhciDriver`, the adapter that lets an AHCI/SATA disk
serve as a block device for the driver framework in `axdriver_block`. The
adapter does four things:

- It builds a zero-filled `ahci_device` record and hands it to the
  backend's `ahci_init`. It keeps the populated record only if the status is 0.
- It turns a byte buffer into a block count with `(len + bs - 1) / bs`.
  It warns, without failing, when the length is not a multiple of the block size.
  It calls `ahci_sata_read_common` / `ahci_sata_write_common` with that count
  narrowed to `u32`.
- It reports `Ok(())` exactly when the backend's returned count equals the
  un-narrowed block count, and `Err(Io)` otherwise.
- It answers the identity and geometry queries from the record: type `Block`,
  name `"ahci"`, `blk_dev.blksz` and `blk_dev.lba`. Its `flush` always succeeds.

Files and modules:

- `machine_int.dfy` (`MachineInt`): the 64-bit target's `u32`, `u64` and
  `usize`, the `as u32` cast, unsigned division, and wrapping `+` and `-`
  as a release build evaluates them.
- `driver_base.dfy` (`DriverBase`): the framework's `DevError`, `DevResult`
  and `DeviceType`.
- `block_math.dfy` (`BlockMath`): the block-count formula, its wrapping
  evaluation, and the proof that it is the ceiling of `len / bs`. The ceiling
  is checked against an independent block-peeling definition, `BlocksToCover`,
  and against the "least `n` with `n * bs >= len`" characterisation.
- `ahci.dfy` (`Ahci`): the device record, the driver, and every operation
  of `AhciDriver`.

The three backend functions are parameters of the model:

- `init: AhciDevice -> InitReply` returns the status code and the record
  as `ahci_init` leaves it.
- `backend: SataRequest -> u64` maps the arguments of a read or write call
  (device, start block, `u32` count) to the transferred count it returns.

The logger is modelled as the list of `LogEntry` values an operation emits.
This makes the alignment warning observable, and shows that it is never
an error.

## Model

| member | source | states |
|---|---|---|
| MachineInt.AsU32 | axdriver_block/src/ahci.rs:73 | `block_count as u32` keeps a count below 2^32. A larger count becomes strictly smaller while staying congruent to it modulo 2^32. |
| BlockMath.WrappingBlockCount | axdriver_block/src/ahci.rs:61 | The usize evaluation of `(len + bs - 1) / bs`, with wrapping `+`/`-`, equals the formula over unbounded integers whenever `len + bs - 1` fits in usize. That value is the covering count (`BlockMath.BlockCountMatchesCover`). Past that bound the usize evaluation strictly undercounts. |
| BlockMath.BlockCountMatchesCover | axdriver_block/src/ahci.rs:90 | The formula agrees, for every length and every non-zero block size, with peeling whole blocks off the buffer, where a trailing partial block takes a whole block. |
| BlockMath.BlockCountIsLeastCover | axdriver_block/src/ahci.rs:61 | The formula gives enough blocks to hold `len` bytes, and no smaller count does: it is the least `n` with `n * bs >= len`. |
| BlockMath.BlockCountCases | axdriver_block/src/ahci.rs:61-63 | The count is `len / bs` for an aligned length and `len / bs + 1` for a misaligned one. |
| BlockMath.BlockCountBoundaries | axdriver_block/src/ahci.rs:61 | Length 0 needs 0 blocks, length `bs` needs 1, and length `bs + 1` needs 2. |
| BlockMath.TransferExtent | axdriver_block/src/ahci.rs:61-69 | The rounded-up count covers `len` bytes and less than one extra block. It covers exactly `len` iff the length is aligned. So a misaligned buffer asks the backend for bytes past its end. |
| Ahci.ZeroDevice | axdriver_block/src/ahci.rs:20-28 | The record handed to the initialiser has every byte zero, including `blksz` and `lba`. It is the only such record of its size. |
| Ahci.TryNew | axdriver_block/src/ahci.rs:19-40 | Construction calls the initialiser on a zeroed record. It yields a driver holding the populated record iff the status is 0. Any other status yields `Err(Io)` with no driver. The log holds exactly one line: the success line, or the failing status. |
| Ahci.TryNewSeesOnlyZeroedDevice | axdriver_block/src/ahci.rs:21-31 | The outcome of construction depends only on what the initialiser does to a zeroed record. |
| Ahci.GeometryAfterInit | axdriver_block/src/ahci.rs:128-138 | After a successful construction, `block_size` and `num_blocks` (`Ahci.BlockSize`, `Ahci.NumBlocks`) report the `blksz` and `lba` that the initialiser wrote. |
| Ahci.DeviceType | axdriver_block/src/ahci.rs:49-51 | Every driver classifies itself as a `Block` device. |
| Ahci.DeviceName | axdriver_block/src/ahci.rs:53-55 | Every driver is named `"ahci"`. |
| Ahci.Request | axdriver_block/src/ahci.rs:72-74 | The backend receives the driver's own record, the caller's start block, and the covering block count reduced modulo 2^32. |
| Ahci.Transfer | axdriver_block/src/ahci.rs:59-120 | On the shared read/write path, success holds iff the backend reply equals the un-narrowed covering count. `Io` is the only error. An alignment warning is logged iff the length is misaligned. A failure line carrying both counts is logged iff the call fails, after the warning. Nothing else is logged, and nothing twice. |
| Ahci.ReadBlock | axdriver_block/src/ahci.rs:59-86 | `read_block` returns `Ok(())` iff the backend reports the full covering block count, and otherwise `Err(Io)`, never another kind. It warns iff the buffer is misaligned. It logs a read failure naming the expected and the reported counts iff it fails. It logs nothing else. |
| Ahci.WriteBlock | axdriver_block/src/ahci.rs:88-120 | `write_block` returns `Ok(())` iff the backend reports the full covering block count, and otherwise `Err(Io)`, never another kind. It warns iff the buffer is misaligned. It logs a write failure naming the expected and the reported counts iff it fails. It logs nothing else. |
| Ahci.MisalignmentIsNonFatal | axdriver_block/src/ahci.rs:92-98 | A misaligned buffer has the same outcome as the same buffer rounded up to whole blocks. The two logs differ only by the alignment warning. |
| Ahci.ExactBackendSucceedsIffCountFits | axdriver_block/src/ahci.rs:105-110 | Suppose the backend returns exactly the `u32` count it was asked for. Then the call succeeds iff the block count is below 2^32. A larger count is reported as `Io`, not silently truncated. |
| Ahci.OversizedCountNeedsOversizedReply | axdriver_block/src/ahci.rs:73-76 | With a block count of 2^32 or more, success needs a reply that no `u32` request count can equal. |
| Ahci.MisalignedScenario | axdriver_block/src/ahci.rs:88-120 | On a disk of 1000 blocks of 512 bytes, a 600-byte buffer requests 2 blocks and is warned about. A reply of 1 block fails with `Io`, and a reply of 2 succeeds. |
| Ahci.Flush | axdriver_block/src/ahci.rs:122-126 | `flush` always returns `Ok(())` and leaves the driver unchanged. |

## Left out

- The backend functions `ahci_init`, `ahci_sata_read_common` and `ahci_sata_write_common` are not part of this model. They perform the hardware I/O. Each appears only as a function parameter that returns the status or the transferred count.
- The byte layout of `ahci_device` is left out: ports, command headers and scatter-gather entries. It is defined by the backend. The model keeps `blk_dev.lba` and `blk_dev.blksz` as fields and everything else as opaque bytes. The size of the opaque part, the record without `blk_dev`, is the parameter `layoutSize`.
- Buffer contents, and so the data round trip (write, then read the same bytes back), are left out. Only the buffer length reaches the adapter's logic. The bytes are moved by the backend.
- Log message texts and levels are left out. The model records which diagnostic is emitted and with which numbers.
- `MaybeUninit` and `write_bytes` are modelled only by their effect, a zeroed record. The const-to-mut pointer cast in `write_block` has no counterpart, because buffers are not modelled (see above).
- DMA, MMIO and concurrency are left out. The adapter is single-owner and synchronous.
- The `device()` accessor is the `device` field of `AhciDriver`.
- `usize` is modelled as 64 bits. `blksz` is modelled as a `u64`, since its declaration is in the backend, so `blksz as usize` is the identity. On a 32-bit target both the usize arithmetic and this cast would narrow further.
- ReadBlock: requires a non-zero block size, because the source divides by it and panics. It also requires that `len + bs - 1` fits in usize. The model follows a release build, which wraps instead of checking overflow. `BlockMath.WrappingBlockCount` shows that outside this domain the wrapped formula undercounts. A debug build would panic on those inputs, and also when `len + bs` equals exactly 2^64. Panics are not modelled.
- WriteBlock: has the same two preconditions as ReadBlock, for the same reasons.
- Transfer: has the same two preconditions as ReadBlock, for the same reasons.
- MisalignmentIsNonFatal: also requires the rounded-up length to satisfy the same no-overflow bound, so that the two calls it compares are both defined.
- `DriverBase.DeviceType` lists only the classes `Block`, `Char`, `Net` and `Display`. Only `Block` is used here.
