/**
 * The launch digest: the PageInfo accumulator folded over the launch events,
 * the measurement driver that performs that fold call by call, and the line
 * it prints.
 *
 * The byte layout and SHA-384 chaining of one PageInfo update are abstract:
 * the accumulator is its initial digest plus a step function from the
 * current digest and one event to the next digest.
 */
module Measurement {
  import opened Wrappers
  import opened Bytes
  import opened Hex
  import opened Events

  /** A SEV-SNP launch digest is 48 bytes (SHA-384). */
  const DIGEST_SIZE: nat := 48

  type Digest = d: seq<Byte> | |d| == DIGEST_SIZE witness seq(48, _ => 0)

  /** The PageInfo accumulator: the digest `PageInfo::new()` starts from, and one update. */
  datatype PageInfo = PageInfo(seed: Digest, update: (Digest, Event) -> Digest)

  /** Left fold of the update over a sequence of events. */
  function Fold(update: (Digest, Event) -> Digest, digest: Digest, events: seq<Event>): Digest
    decreases |events|
  {
    if |events| == 0 then digest
    else Fold(update, update(digest, events[0]), events[1..])
  }

  /** The fold is a chain: folding a + b is folding b onto the digest of a. */
  lemma {:induction false} FoldAppend(
    update: (Digest, Event) -> Digest, digest: Digest, a: seq<Event>, b: seq<Event>)
    ensures Fold(update, digest, a + b) == Fold(update, Fold(update, digest, a), b)
    decreases |a|
  {
    if |a| > 0 {
      assert (a + b)[0] == a[0];
      assert (a + b)[1..] == a[1..] + b;
      FoldAppend(update, update(digest, a[0]), a[1..], b);
    } else {
      assert a + b == b;
    }
  }

  /** One more event is one more update of the running digest. */
  lemma {:induction false} FoldSnoc(update: (Digest, Event) -> Digest, digest: Digest, events: seq<Event>, e: Event)
    ensures Fold(update, digest, events + [e]) == update(Fold(update, digest, events), e)
  {
    FoldAppend(update, digest, events, [e]);
    assert [e][1..] == [];
  }

  /** The digest of a run: the accumulator folded over every launch event. */
  function LaunchDigest(
    info: PageInfo, stage0: Stage0Info, legacyBoot: bool, vcpuCount: nat,
    bootVmsa: VmsaImage, getApVmsa: SevEsResetBlock -> VmsaImage): Digest
  {
    Fold(info.update, info.seed, LaunchEvents(stage0, legacyBoot, vcpuCount, bootVmsa, getApVmsa))
  }

  /** The inner loop of the driver: every page of one descriptor, page 0 first. */
  method FoldPageRun(update: (Digest, Event) -> Digest, digest: Digest, page: SnpPage)
    returns (d: Digest)
    ensures d == Fold(update, digest, PageRun(page))
  {
    d := digest;
    var n := 0;
    while n < page.pageCount
      invariant n <= page.pageCount
      invariant d == Fold(update, digest, PageRun(page)[..n])
    {
      var e := Typed(page.pageType, page.startAddress + n * PAGE_SIZE);
      assert PageRun(page)[..n + 1] == PageRun(page)[..n] + [e];
      FoldSnoc(update, digest, PageRun(page)[..n], e);
      d := update(d, e);
      n := n + 1;
    }
    assert PageRun(page)[..n] == PageRun(page);
  }

  /** The outer loop of the driver: every descriptor, in the loader's order. */
  method FoldSnpPages(update: (Digest, Event) -> Digest, digest: Digest, pages: seq<SnpPage>)
    returns (d: Digest)
    ensures d == Fold(update, digest, SnpEvents(pages))
  {
    d := digest;
    var k := 0;
    while k < |pages|
      invariant k <= |pages|
      invariant d == Fold(update, digest, SnpEvents(pages[..k]))
    {
      var upTo := pages[..k + 1];
      assert upTo[..k] == pages[..k] && upTo[k] == pages[k];
      assert SnpEvents(upTo) == SnpEvents(pages[..k]) + PageRun(pages[k]);
      FoldAppend(update, digest, SnpEvents(pages[..k]), PageRun(pages[k]));
      d := FoldPageRun(update, d, pages[k]);
      k := k + 1;
    }
    assert pages[..k] == pages;
  }

  /** The boot VMSA, then the AP VMSA for every vCPU in `1..vcpu_count`. */
  method FoldVmsas(
    update: (Digest, Event) -> Digest, digest: Digest,
    bootVmsa: VmsaImage, apVmsa: VmsaImage, vcpuCount: nat)
    returns (d: Digest)
    ensures d == Fold(update, digest, VmsaEvents(bootVmsa, apVmsa, vcpuCount))
  {
    var boot := Vmsa(bootVmsa, VMSA_ADDRESS);
    var ap := Vmsa(apVmsa, VMSA_ADDRESS);
    assert Fold(update, digest, [boot]) == update(digest, boot) by {
      assert [boot][1..] == [];
    }
    d := update(digest, boot);
    var cpu := 1;
    while cpu < vcpuCount
      invariant 1 <= cpu && cpu - 1 <= ApVmsaCount(vcpuCount)
      invariant d == Fold(update, digest, [boot] + seq(cpu - 1, _ => ap))
    {
      assert seq(cpu, _ => ap) == seq(cpu - 1, _ => ap) + [ap];
      assert [boot] + seq(cpu, _ => ap) == [boot] + seq(cpu - 1, _ => ap) + [ap];
      FoldSnoc(update, digest, [boot] + seq(cpu - 1, _ => ap), ap);
      d := update(d, ap);
      cpu := cpu + 1;
    }
    assert cpu - 1 == ApVmsaCount(vcpuCount);
  }

  /**
   * The driver, call by call: the ROM, the optional legacy shadow, every page
   * of every SNP descriptor, the boot VMSA, then the AP VMSA (built once from
   * the reset block) for every vCPU after the first. Its digest is the fold
   * over exactly LaunchEvents, so equal inputs give equal digests.
   */
  method Measure(
    info: PageInfo, stage0: Stage0Info, legacyBoot: bool, vcpuCount: nat,
    bootVmsa: VmsaImage, getApVmsa: SevEsResetBlock -> VmsaImage)
    returns (digest: Digest)
    ensures digest == LaunchDigest(info, stage0, legacyBoot, vcpuCount, bootVmsa, getApVmsa)
  {
    var update := info.update;
    var rom := Content(stage0.romBytes, stage0.startAddress);
    var shadow := Content(stage0.legacyShadowBytes, stage0.legacyStartAddress);
    digest := update(info.seed, rom);
    assert digest == Fold(update, info.seed, [rom]) by {
      assert [rom][1..] == [];
    }
    if legacyBoot {
      FoldSnoc(update, info.seed, [rom], shadow);
      digest := update(digest, shadow);
    }
    assert digest == Fold(update, info.seed, RomEvents(stage0, legacyBoot));
    ghost var head := RomEvents(stage0, legacyBoot);
    ghost var middle := SnpEvents(stage0.snpPages);

    digest := FoldSnpPages(update, digest, stage0.snpPages);
    FoldAppend(update, info.seed, head, middle);

    var apVmsa := getApVmsa(stage0.sevEsResetBlock);
    digest := FoldVmsas(update, digest, bootVmsa, apVmsa, vcpuCount);
    FoldAppend(update, info.seed, head + middle, VmsaEvents(bootVmsa, apVmsa, vcpuCount));
  }

  /**
   * Legacy boot differs from a plain boot only by one extra update with the
   * shadow right after the ROM; the rest of the chain is the same events.
   */
  lemma {:induction false} LegacyBootDigest(
    info: PageInfo, stage0: Stage0Info, vcpuCount: nat,
    bootVmsa: VmsaImage, getApVmsa: SevEsResetBlock -> VmsaImage)
    ensures var rest := SnpEvents(stage0.snpPages)
                        + VmsaEvents(bootVmsa, getApVmsa(stage0.sevEsResetBlock), vcpuCount);
      var afterRom := info.update(info.seed, Content(stage0.romBytes, stage0.startAddress));
      && LaunchDigest(info, stage0, false, vcpuCount, bootVmsa, getApVmsa)
         == Fold(info.update, afterRom, rest)
      && LaunchDigest(info, stage0, true, vcpuCount, bootVmsa, getApVmsa)
         == Fold(info.update,
                 info.update(afterRom, Content(stage0.legacyShadowBytes, stage0.legacyStartAddress)),
                 rest)
  {
    var rest := SnpEvents(stage0.snpPages)
                + VmsaEvents(bootVmsa, getApVmsa(stage0.sevEsResetBlock), vcpuCount);
    var rom := Content(stage0.romBytes, stage0.startAddress);
    var shadow := Content(stage0.legacyShadowBytes, stage0.legacyStartAddress);
    assert LaunchEvents(stage0, false, vcpuCount, bootVmsa, getApVmsa) == [rom] + rest;
    assert LaunchEvents(stage0, true, vcpuCount, bootVmsa, getApVmsa) == [rom, shadow] + rest;
    FoldAppend(info.update, info.seed, [rom], rest);
    FoldAppend(info.update, info.seed, [rom, shadow], rest);
    assert [rom][1..] == [];
    assert [rom, shadow][1..] == [shadow];
    assert [shadow][1..] == [];
  }

  /** The label the driver prints in front of the hex digest. */
  const LABEL: string := "Attestation Measurement: "

  /**
   * The printed line: the label, then 96 lowercase hex characters that
   * decode back to the digest.
   */
  function MeasurementLine(digest: Digest): (line: string)
    ensures |line| == |LABEL| + 2 * DIGEST_SIZE
    ensures line[..|LABEL|] == LABEL
    ensures forall i :: |LABEL| <= i < |line| ==> IsLowerHexDigit(line[i])
    ensures HexDecode(line[|LABEL|..]) == Some(digest)
  {
    DecodeEncode(digest);
    var line := LABEL + HexEncode(digest);
    assert line[|LABEL|..] == HexEncode(digest);
    line
  }
}
