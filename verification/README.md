# SEV-SNP launch measurement driver, modelled in Dafny

The Oak `snp_measurement` tool predicts the MEASUREMENT field of an AMD SEV-SNP
attestation report. It loads the Stage 0 firmware ROM, then feeds a `PageInfo`
accumulator a fixed sequence of updates:

1. the ROM content, at the ROM start address;
2. in legacy-boot mode only, the legacy shadow of the ROM, at the legacy start address;
3. one typed update per page of every SNP page descriptor of the firmware, at
   `start_address + page_number * 4096`;
4. the boot VMSA, at `VMSA_ADDRESS`;
5. the AP VMSA, built once from the firmware's SEV-ES reset block, at
   `VMSA_ADDRESS`, once for every vCPU after the first.

It then prints the 48-byte digest as lowercase hex.

The model turns every `update_from_*` call into a labelled `Event`:
`Content(bytes, address)`, `Typed(pageType, address)` or `Vmsa(state, address)`.
The driver's order, counts and address arithmetic become the pure sequence
`Events.LaunchEvents`. The accumulator becomes `Measurement.PageInfo`: an initial
digest plus an abstract step function. The launch digest is the left fold of
that step over the events.

Files:

- `wrappers.dfy`: `Option` and the `Byte` type.
- `hex.dfy`: the lowercase hex rendering (`hex::encode`) and its inverse,
  with round trips in both directions.
- `events.dfy`: the loaded-firmware data (`Stage0Info`, `SnpPage`, `SnpPageType`,
  `SevEsResetBlock`, `VmsaImage`), the `Event` datatype, `LaunchEvents`, and
  lemmas about order, counts and addresses.
- `measurement.dfy`: the 48-byte `Digest`, the fold, the driver `Measure` written
  call by call as in the source (one method per loop of the driver), and the
  printed line.

The collaborators the driver calls are inputs of the model:

- `load_stage0` becomes a `Stage0Info` value.
- `get_boot_vmsa()` becomes a `VmsaImage` value.
- `get_ap_vmsa` becomes a function parameter. It is applied once, to the
  firmware's reset block.
- `PageInfo::new()` and the `update_from_*` hashing become the `PageInfo` seed
  and step.

`page.rs`, `stage0.rs` and `vmsa.rs` are not part of this model. Three choices
therefore stand in for their code:

- `VMSA_ADDRESS` is taken as `0xFFFF_FFFF_F000`, the VMSA guest-physical
  address SEV-SNP launches conventionally use.
- The page-type set is `Zero | Unmeasured | Secrets | Cpuid`, the kinds of pages
  the firmware asks the platform to prepare.
- The legacy shadow bytes are a separate field. They are not derived from the
  ROM bytes, because `legacy_shadow_bytes()` is not part of this model.

The model follows `main.rs` where a stricter reading of the tool is possible:

- `vcpu_count` is a `usize`, so 0 is accepted. It folds the boot VMSA and no AP
  VMSA, like 1.
- A descriptor with `page_count` 0 is accepted and folds nothing.
- The ROM event always comes first, and the boot VMSA is folded even without any
  SNP pages.

## Model

| member | source | states |
|---|---|---|
| Measurement.Measure | snp_measurement/src/main.rs:65-92 | The driver's loops, written call by call, give exactly the left fold of the accumulator over `LaunchEvents`. So the digest depends only on the ROM, the legacy flag, the vCPU count and the collaborators' results: identical inputs give an identical digest. |
| Measurement.FoldPageRun | snp_measurement/src/main.rs:75-80 | The inner loop over `0..page_count` folds exactly the descriptor's page run, page 0 first. |
| Measurement.FoldSnpPages | snp_measurement/src/main.rs:74-81 | The outer loop over the descriptors folds exactly the typed events of every descriptor, in the loader's order. |
| Measurement.FoldVmsas | snp_measurement/src/main.rs:84-92 | The boot VMSA update followed by the loop over `1..vcpu_count` folds exactly one boot VMSA and `max(vcpu_count - 1, 0)` AP VMSAs at `VMSA_ADDRESS`. |
| Measurement.FoldAppend | snp_measurement/src/main.rs:65-92 | The running digest is a chain. Folding two event lists one after the other equals folding their concatenation. |
| Measurement.FoldSnoc | snp_measurement/src/main.rs:65-92 | Each further `update_from_*` call is one step applied to the digest of everything folded before it. |
| Measurement.LegacyBootDigest | snp_measurement/src/main.rs:67-72 | Without legacy boot, the digest is the ROM update followed by the remaining events. With legacy boot, exactly one shadow update is inserted between the ROM update and those same remaining events. |
| Measurement.MeasurementLine | snp_measurement/src/main.rs:96-99 | The printed line is the label followed by 96 lowercase hex characters (two per digest byte). Those characters decode back to the digest. |
| Hex.HexEncode | snp_measurement/src/main.rs:98 | The rendering has two characters per byte, and every character is a lowercase hex digit. |
| Hex.DecodeEncode | snp_measurement/src/main.rs:98 | Decoding the rendering of any byte string returns that byte string, so the rendering loses nothing. |
| Hex.HexDecode | snp_measurement/src/main.rs:98 | The decoder accepts a string if and only if it has even length and consists of lowercase hex digits, and then yields half as many bytes. |
| Hex.EncodeDecode | snp_measurement/src/main.rs:98 | Every string the decoder accepts is the rendering of its decoding. With `Hex.HexDecode` accepting every even-length lowercase hex string, the rendering is onto those strings. |
| Events.PageRunShape | snp_measurement/src/main.rs:75-79 | One descriptor yields `page_count` typed events, each with the descriptor's page type unchanged. Addresses strictly ascend in steps of at least 4096. The set of addresses is exactly the page-spaced offsets in `[start, start + page_count * 4096)`. |
| Events.SnpEventsAppend | snp_measurement/src/main.rs:74-81 | The typed events of a joined descriptor list are those of the first part followed by those of the second, and the page counts add. |
| Events.SnpEventsLength | snp_measurement/src/main.rs:74-81 | The descriptors contribute exactly the sum of their page counts. |
| Events.SnpEventsSplit | snp_measurement/src/main.rs:74-81 | Descriptor k's events sit between all events of the descriptors before it and all events of those after it. |
| Events.SnpEventAt | snp_measurement/src/main.rs:74-81 | Page i of descriptor k is the event at offset (pages of descriptors before k) + i. It carries the descriptor's type at address `start_address + i * 4096`. |
| Events.SnpEventOrigin | snp_measurement/src/main.rs:74-81 | Conversely, every typed event is page i of some descriptor k, at that same offset, so there are no stray or duplicated pages. |
| Events.DescriptorsInOrder | snp_measurement/src/main.rs:74-81 | Descriptors never interleave: in the typed events, page i1 of descriptor k1 comes strictly before page i2 of any later descriptor k2, and each of those events carries its own descriptor's type and address. |
| Events.EmptyDescriptorContributesNothing | snp_measurement/src/main.rs:75 | A descriptor with `page_count` 0 contributes nothing. The events equal those of the list without it. |
| Events.LaunchEventCount | snp_measurement/src/main.rs:65-92 | The run has `1 + (legacy_boot ? 1 : 0) + Σ page_count + 1 + max(vcpu_count - 1, 0)` events. |
| Events.ContentEvents | snp_measurement/src/main.rs:67-72 | The first event is the ROM content at `start_address`. The second event is content, namely the shadow at `legacy_start_address`, if and only if legacy boot is on. No other event is an `update_from_data` (`Content`) event; the VMSA images travel in `Vmsa` events. |
| Events.LegacyShadowIsInsertion | snp_measurement/src/main.rs:69-72 | The legacy-boot run is the plain run with the shadow event inserted right after the ROM event. Without legacy boot, the run is exactly the legacy run with that step omitted. |
| Events.TypedEventPositions | snp_measurement/src/main.rs:74-84 | Page i of descriptor k is at index (ROM events) + (pages before k) + i. The typed events are exactly the indices between the ROM events and the boot VMSA. |
| Events.VmsaEventPositions | snp_measurement/src/main.rs:83-92 | The boot VMSA is folded once, at `VMSA_ADDRESS`, immediately after every typed page. Every later event is the AP VMSA at `VMSA_ADDRESS`, and there are `max(vcpu_count - 1, 0)` of them. The VMSA events are exactly the tail of the run. |
| Events.SingleVcpuEndsWithBootVmsa | snp_measurement/src/main.rs:88-92 | With `vcpu_count` 0 or 1 the range `1..vcpu_count` is empty, so the boot VMSA is the last event. |
| Events.MinimalLaunchEvents | snp_measurement/src/main.rs:65-92 | With no legacy boot, no SNP pages and one vCPU, the run folds exactly the ROM and then the boot VMSA. |
| Events.LaunchAddressesAligned | snp_measurement/src/main.rs:68-92 | If the ROM, the shadow (when used) and every descriptor start on a 4096-byte boundary, then every address handed to the accumulator is page-aligned. |

## Left out

- The byte layout and SHA-384 chaining inside `PageInfo::update_from_*`, and the seed of `PageInfo::new()`. This is the PAGE_INFO digest of SNP_LAUNCH_UPDATE in the AMD SEV-SNP Firmware ABI specification. Its code is not part of this model, so the step and the seed are parameters. Order sensitivity and content sensitivity are properties of the hash and are not stated.
- The splitting of content updates into 4096-byte pages inside `update_from_data` and `update_from_vmsa`. This happens inside the accumulator, so each such call is one event.
- `load_stage0`: reading the file, checking the ROM size, parsing the metadata table and the reset block, and its error paths. It lives in a file not in this model, so its result is an input.
- `get_boot_vmsa` and `get_ap_vmsa` register contents. Their results are inputs.
- The alignment failure the accumulator raises on an unaligned address. Only the fact that aligned inputs give aligned addresses is stated (`Events.LaunchAddressesAligned`).
- Addresses are unbounded naturals. The u64 overflow of `start_address + page_number * 4096` is not modelled.
- CLI parsing, the default ROM path, logging and the actual printing. These are I/O; only the printed line's content is modelled.
- The application server and the HTTP test-double server in the same repository. They are network plumbing outside the measurement.
