/**
 * The fold events of one SEV-SNP launch measurement, in the order the
 * measurement driver hands them to its PageInfo accumulator.
 *
 * Each `update_from_*` call of the driver becomes one labelled Event; the
 * whole run becomes the sequence LaunchEvents. The results of the firmware
 * loader and of the VMSA builders are opaque inputs.
 */
module Events {
  import opened Bytes

  /** Size of one 4 KiB guest page (`Size4KiB::SIZE`). */
  const PAGE_SIZE: nat := 4096

  /** Guest-physical address at which every VMSA is measured. */
  const VMSA_ADDRESS: nat := 0xFFFF_FFFF_F000

  /** The page kinds the firmware asks the platform to set up itself. */
  datatype SnpPageType = Zero | Unmeasured | Secrets | Cpuid

  /** One run of special pages from the Stage 0 metadata table. */
  datatype SnpPage = SnpPage(pageType: SnpPageType, startAddress: nat, pageCount: nat)

  /** The SEV-ES reset block table of the firmware, kept as raw bytes. */
  datatype SevEsResetBlock = SevEsResetBlock(table: seq<Byte>)

  /** The byte image of one virtual CPU save area. */
  datatype VmsaImage = VmsaImage(image: seq<Byte>)

  /** What `load_stage0` yields: the ROM, its legacy shadow and its metadata. */
  datatype Stage0Info = Stage0Info(
    romBytes: seq<Byte>,
    startAddress: nat,
    legacyShadowBytes: seq<Byte>,
    legacyStartAddress: nat,
    snpPages: seq<SnpPage>,
    sevEsResetBlock: SevEsResetBlock)

  /** One call into the PageInfo accumulator. */
  datatype Event =
    | Content(bytes: seq<Byte>, address: nat)     // update_from_data
    | Typed(pageType: SnpPageType, address: nat)  // update_from_snp_page
    | Vmsa(state: VmsaImage, address: nat)        // update_from_vmsa

  predicate Aligned(address: nat) {
    address % PAGE_SIZE == 0
  }

  /** Address of page `pageNumber` of a run: the start plus whole pages. */
  function PageAddress(page: SnpPage, pageNumber: nat): nat {
    page.startAddress + pageNumber * PAGE_SIZE
  }

  /** The typed events of one descriptor, page 0 first. */
  function PageRun(page: SnpPage): seq<Event> {
    seq(page.pageCount, (i: int) requires 0 <= i => Typed(page.pageType, PageAddress(page, i)))
  }

  /** The typed events of all descriptors, descriptor by descriptor. */
  function SnpEvents(pages: seq<SnpPage>): seq<Event>
    decreases |pages|
  {
    if |pages| == 0 then []
    else SnpEvents(pages[..|pages| - 1]) + PageRun(pages[|pages| - 1])
  }

  /** The sum of the page counts of the descriptors. */
  function TotalPageCount(pages: seq<SnpPage>): nat
    decreases |pages|
  {
    if |pages| == 0 then 0
    else TotalPageCount(pages[..|pages| - 1]) + pages[|pages| - 1].pageCount
  }

  /** Number of AP VMSAs: the length of the range `1..vcpu_count`. */
  function ApVmsaCount(vcpuCount: nat): nat {
    if vcpuCount <= 1 then 0 else vcpuCount - 1
  }

  /** The ROM content, followed by its legacy shadow in legacy-boot mode. */
  function RomEvents(stage0: Stage0Info, legacyBoot: bool): seq<Event> {
    [Content(stage0.romBytes, stage0.startAddress)]
    + (if legacyBoot then [Content(stage0.legacyShadowBytes, stage0.legacyStartAddress)] else [])
  }

  /** The boot VMSA once, then the AP VMSA once per further vCPU. */
  function VmsaEvents(bootVmsa: VmsaImage, apVmsa: VmsaImage, vcpuCount: nat): seq<Event> {
    [Vmsa(bootVmsa, VMSA_ADDRESS)] + seq(ApVmsaCount(vcpuCount), _ => Vmsa(apVmsa, VMSA_ADDRESS))
  }

  /**
   * Every event of one measurement run, in driver order. The AP VMSA is built
   * once, from the firmware's SEV-ES reset block.
   */
  function LaunchEvents(
    stage0: Stage0Info, legacyBoot: bool, vcpuCount: nat,
    bootVmsa: VmsaImage, getApVmsa: SevEsResetBlock -> VmsaImage): seq<Event>
  {
    RomEvents(stage0, legacyBoot)
    + SnpEvents(stage0.snpPages)
    + VmsaEvents(bootVmsa, getApVmsa(stage0.sevEsResetBlock), vcpuCount)
  }

  /** Index of the boot VMSA event: after the ROM events and all typed pages. */
  function BootVmsaIndex(stage0: Stage0Info, legacyBoot: bool): nat {
    (if legacyBoot then 2 else 1) + TotalPageCount(stage0.snpPages)
  }

  // ---------------------------------------------------------------------------
  // One descriptor

  /**
   * A run has page_count events, each of the descriptor's type, at ascending
   * page-spaced addresses; its addresses are exactly the page-aligned offsets
   * of [start, start + page_count * 4096).
   */
  lemma {:induction false} PageRunShape(page: SnpPage)
    ensures |PageRun(page)| == page.pageCount
    ensures forall i :: 0 <= i < |PageRun(page)| ==>
      PageRun(page)[i].Typed? && PageRun(page)[i].pageType == page.pageType
    ensures forall i, j :: 0 <= i < j < |PageRun(page)| ==>
      PageRun(page)[i].address + PAGE_SIZE <= PageRun(page)[j].address
    ensures forall a: nat :: InRun(page, a) <==>
      page.startAddress <= a < page.startAddress + page.pageCount * PAGE_SIZE
      && (a - page.startAddress) % PAGE_SIZE == 0
  {
    var run := PageRun(page);
    forall a: nat
      ensures InRun(page, a) <==>
        page.startAddress <= a < page.startAddress + page.pageCount * PAGE_SIZE
        && (a - page.startAddress) % PAGE_SIZE == 0
    {
      if page.startAddress <= a < page.startAddress + page.pageCount * PAGE_SIZE
         && (a - page.startAddress) % PAGE_SIZE == 0
      {
        var i := (a - page.startAddress) / PAGE_SIZE;
        assert i * PAGE_SIZE == a - page.startAddress;
        assert i * 4096 < page.pageCount * 4096;
        assert i < page.pageCount;
        assert run[i].address == a;
      }
      if InRun(page, a) {
        var i :| 0 <= i < |run| && run[i].address == a;
        assert a - page.startAddress == i * PAGE_SIZE;
        assert i + 1 <= page.pageCount;
        assert i * PAGE_SIZE + PAGE_SIZE <= page.pageCount * PAGE_SIZE;
      }
    }
    forall i, j | 0 <= i < j < |run|
      ensures run[i].address + PAGE_SIZE <= run[j].address
    {
      assert j * PAGE_SIZE >= (i + 1) * PAGE_SIZE;
    }
  }

  /** The address `a` is the address of some event of the run. */
  ghost predicate InRun(page: SnpPage, a: nat) {
    exists i :: 0 <= i < |PageRun(page)| && PageRun(page)[i].address == a
  }

  // ---------------------------------------------------------------------------
  // All descriptors

  /** Folding descriptors one list after another is the same as folding the joined list. */
  lemma {:induction false} SnpEventsAppend(a: seq<SnpPage>, b: seq<SnpPage>)
    ensures SnpEvents(a + b) == SnpEvents(a) + SnpEvents(b)
    ensures TotalPageCount(a + b) == TotalPageCount(a) + TotalPageCount(b)
    decreases |b|
  {
    if |b| > 0 {
      var b' := b[..|b| - 1];
      assert (a + b)[..|a + b| - 1] == a + b';
      SnpEventsAppend(a, b');
    } else {
      assert a + b == a;
    }
  }

  /** The descriptors contribute exactly the sum of their page counts. */
  lemma {:induction false} SnpEventsLength(pages: seq<SnpPage>)
    ensures |SnpEvents(pages)| == TotalPageCount(pages)
    decreases |pages|
  {
    if |pages| > 0 {
      SnpEventsLength(pages[..|pages| - 1]);
    }
  }

  /**
   * Page i of descriptor k is the event at offset (pages before k) + i, with
   * the descriptor's type and address start + i * 4096.
   */
  lemma {:induction false} SnpEventAt(pages: seq<SnpPage>, k: nat, i: nat)
    requires k < |pages| && i < pages[k].pageCount
    ensures TotalPageCount(pages[..k]) + i < |SnpEvents(pages)|
    ensures SnpEvents(pages)[TotalPageCount(pages[..k]) + i]
         == Typed(pages[k].pageType, pages[k].startAddress + i * PAGE_SIZE)
  {
    SnpEventsSplit(pages, k);
    SnpEventsLength(pages[..k]);
    var offset := TotalPageCount(pages[..k]);
    var run := PageRun(pages[k]);
    assert SnpEvents(pages)[offset + i] == run[i];
  }

  /** The events of descriptor k sit between those before it and those after it. */
  lemma {:induction false} SnpEventsSplit(pages: seq<SnpPage>, k: nat)
    requires k < |pages|
    ensures SnpEvents(pages) == SnpEvents(pages[..k]) + PageRun(pages[k]) + SnpEvents(pages[k + 1..])
    ensures TotalPageCount(pages) == TotalPageCount(pages[..k]) + pages[k].pageCount + TotalPageCount(pages[k + 1..])
  {
    var before, upTo, after := pages[..k], pages[..k + 1], pages[k + 1..];
    assert upTo[..|upTo| - 1] == before && upTo[|upTo| - 1] == pages[k];
    assert SnpEvents(upTo) == SnpEvents(before) + PageRun(pages[k]);
    assert TotalPageCount(upTo) == TotalPageCount(before) + pages[k].pageCount;
    assert pages == upTo + after;
    SnpEventsAppend(upTo, after);
  }

  /**
   * Every typed event comes from exactly one page of one descriptor: the
   * converse of SnpEventAt.
   */
  lemma {:induction false} SnpEventOrigin(pages: seq<SnpPage>, j: nat) returns (k: nat, i: nat)
    requires j < |SnpEvents(pages)|
    ensures k < |pages| && i < pages[k].pageCount
    ensures j == TotalPageCount(pages[..k]) + i
    ensures SnpEvents(pages)[j] == Typed(pages[k].pageType, pages[k].startAddress + i * PAGE_SIZE)
    decreases |pages|
  {
    var init := pages[..|pages| - 1];
    SnpEventsLength(init);
    if j < |SnpEvents(init)| {
      k, i := SnpEventOrigin(init, j);
      assert init[..k] == pages[..k];
    } else {
      k := |pages| - 1;
      i := j - |SnpEvents(init)|;
      assert pages[..k] == init;
    }
  }

  /**
   * Descriptors never interleave: page i1 of descriptor k1 is an earlier
   * event of SnpEvents than page i2 of any later descriptor k2.
   */
  lemma {:induction false} DescriptorsInOrder(pages: seq<SnpPage>, k1: nat, i1: nat, k2: nat, i2: nat)
    requires k1 < k2 < |pages|
    requires i1 < pages[k1].pageCount && i2 < pages[k2].pageCount
    ensures var events := SnpEvents(pages);
      var at1, at2 := TotalPageCount(pages[..k1]) + i1, TotalPageCount(pages[..k2]) + i2;
      && at1 < at2 < |events|
      && events[at1] == Typed(pages[k1].pageType, pages[k1].startAddress + i1 * PAGE_SIZE)
      && events[at2] == Typed(pages[k2].pageType, pages[k2].startAddress + i2 * PAGE_SIZE)
  {
    SnpEventAt(pages, k1, i1);
    SnpEventAt(pages, k2, i2);
    var prefix := pages[..k2];
    assert prefix[..k1] == pages[..k1] && prefix[k1] == pages[k1];
    SnpEventsSplit(prefix, k1);
  }

  /** A descriptor with page_count 0 contributes no events. */
  lemma {:induction false} EmptyDescriptorContributesNothing(pages: seq<SnpPage>, k: nat)
    requires k < |pages| && pages[k].pageCount == 0
    ensures SnpEvents(pages) == SnpEvents(pages[..k] + pages[k + 1..])
  {
    var before, after := pages[..k], pages[k + 1..];
    SnpEventsSplit(pages, k);
    var run := PageRun(pages[k]);
    assert run == [];
    calc {
      SnpEvents(pages);
      SnpEvents(before) + run + SnpEvents(after);
      SnpEvents(before) + SnpEvents(after);
      { SnpEventsAppend(before, after); }
      SnpEvents(before + after);
    }
  }

  // ---------------------------------------------------------------------------
  // The whole run

  /** Total count: ROM, optional shadow, every SNP page, the boot VMSA, the AP VMSAs. */
  lemma {:induction false} LaunchEventCount(
    stage0: Stage0Info, legacyBoot: bool, vcpuCount: nat,
    bootVmsa: VmsaImage, getApVmsa: SevEsResetBlock -> VmsaImage)
    ensures |LaunchEvents(stage0, legacyBoot, vcpuCount, bootVmsa, getApVmsa)|
         == 1 + (if legacyBoot then 1 else 0) + TotalPageCount(stage0.snpPages)
            + 1 + ApVmsaCount(vcpuCount)
  {
    SnpEventsLength(stage0.snpPages);
  }

  /**
   * The ROM content at its start address is the first event; the legacy
   * shadow is the second event iff legacy boot is on; no other event is an
   * `update_from_data` (Content) event.
   */
  lemma {:induction false} ContentEvents(
    stage0: Stage0Info, legacyBoot: bool, vcpuCount: nat,
    bootVmsa: VmsaImage, getApVmsa: SevEsResetBlock -> VmsaImage)
    ensures var events := LaunchEvents(stage0, legacyBoot, vcpuCount, bootVmsa, getApVmsa);
      && |events| >= 2
      && events[0] == Content(stage0.romBytes, stage0.startAddress)
      && (legacyBoot ==> events[1] == Content(stage0.legacyShadowBytes, stage0.legacyStartAddress))
      && (events[1].Content? <==> legacyBoot)
      && forall j :: 0 <= j < |events| ==> (events[j].Content? <==> j == 0 || (legacyBoot && j == 1))
  {
    var events := LaunchEvents(stage0, legacyBoot, vcpuCount, bootVmsa, getApVmsa);
    var rom := RomEvents(stage0, legacyBoot);
    var snp := SnpEvents(stage0.snpPages);
    var vmsas := VmsaEvents(bootVmsa, getApVmsa(stage0.sevEsResetBlock), vcpuCount);
    SnpEventsLength(stage0.snpPages);
    forall j | 0 <= j < |events|
      ensures events[j].Content? <==> j < |rom|
    {
      if j < |rom| {
        assert events[j] == rom[j];
      } else if j < |rom| + |snp| {
        var _, _ := SnpEventOrigin(stage0.snpPages, j - |rom|);
        assert events[j] == snp[j - |rom|];
      } else {
        assert events[j] == vmsas[j - |rom| - |snp|];
      }
    }
  }

  /**
   * Legacy boot inserts the shadow event right after the ROM event and
   * changes nothing else: without it the run is the legacy run with that one
   * step omitted.
   */
  lemma {:induction false} LegacyShadowIsInsertion(
    stage0: Stage0Info, vcpuCount: nat,
    bootVmsa: VmsaImage, getApVmsa: SevEsResetBlock -> VmsaImage)
    ensures var plain := LaunchEvents(stage0, false, vcpuCount, bootVmsa, getApVmsa);
      LaunchEvents(stage0, true, vcpuCount, bootVmsa, getApVmsa)
        == plain[..1] + [Content(stage0.legacyShadowBytes, stage0.legacyStartAddress)] + plain[1..]
  {
  }

  /**
   * The typed events sit between the ROM events and the boot VMSA: page i of
   * descriptor k is at a fixed index, and only those indices hold typed events.
   */
  lemma {:induction false} TypedEventPositions(
    stage0: Stage0Info, legacyBoot: bool, vcpuCount: nat,
    bootVmsa: VmsaImage, getApVmsa: SevEsResetBlock -> VmsaImage, k: nat, i: nat)
    requires k < |stage0.snpPages| && i < stage0.snpPages[k].pageCount
    ensures var events := LaunchEvents(stage0, legacyBoot, vcpuCount, bootVmsa, getApVmsa);
      var first := if legacyBoot then 2 else 1;
      && |events| == BootVmsaIndex(stage0, legacyBoot) + 1 + ApVmsaCount(vcpuCount)
      && first + TotalPageCount(stage0.snpPages[..k]) + i < BootVmsaIndex(stage0, legacyBoot)
      && events[first + TotalPageCount(stage0.snpPages[..k]) + i]
         == Typed(stage0.snpPages[k].pageType, stage0.snpPages[k].startAddress + i * PAGE_SIZE)
      && forall j :: 0 <= j < |events| ==> (events[j].Typed? <==> first <= j < BootVmsaIndex(stage0, legacyBoot))
  {
    var events := LaunchEvents(stage0, legacyBoot, vcpuCount, bootVmsa, getApVmsa);
    var rom := RomEvents(stage0, legacyBoot);
    var snp := SnpEvents(stage0.snpPages);
    var vmsas := VmsaEvents(bootVmsa, getApVmsa(stage0.sevEsResetBlock), vcpuCount);
    SnpEventAt(stage0.snpPages, k, i);
    SnpEventsLength(stage0.snpPages);
    assert events[|rom| + TotalPageCount(stage0.snpPages[..k]) + i]
        == snp[TotalPageCount(stage0.snpPages[..k]) + i];
    forall j | 0 <= j < |events|
      ensures events[j].Typed? <==> |rom| <= j < |rom| + |snp|
    {
      if j < |rom| {
        assert events[j] == rom[j];
      } else if j < |rom| + |snp| {
        var _, _ := SnpEventOrigin(stage0.snpPages, j - |rom|);
        assert events[j] == snp[j - |rom|];
      } else {
        assert events[j] == vmsas[j - |rom| - |snp|];
      }
    }
  }

  /**
   * The boot VMSA is folded once, at VMSA_ADDRESS, right after every typed
   * page; every later event is the AP VMSA at VMSA_ADDRESS, and there are
   * max(vcpu_count - 1, 0) of them, so the VMSA events are exactly the tail.
   */
  lemma {:induction false} VmsaEventPositions(
    stage0: Stage0Info, legacyBoot: bool, vcpuCount: nat,
    bootVmsa: VmsaImage, getApVmsa: SevEsResetBlock -> VmsaImage)
    ensures var events := LaunchEvents(stage0, legacyBoot, vcpuCount, bootVmsa, getApVmsa);
      var boot := BootVmsaIndex(stage0, legacyBoot);
      && |events| == boot + 1 + ApVmsaCount(vcpuCount)
      && events[boot] == Vmsa(bootVmsa, VMSA_ADDRESS)
      && (forall j :: boot < j < |events| ==> events[j] == Vmsa(getApVmsa(stage0.sevEsResetBlock), VMSA_ADDRESS))
      && (forall j :: 0 <= j < |events| ==> (events[j].Vmsa? <==> boot <= j))
  {
    var events := LaunchEvents(stage0, legacyBoot, vcpuCount, bootVmsa, getApVmsa);
    var rom := RomEvents(stage0, legacyBoot);
    var snp := SnpEvents(stage0.snpPages);
    var vmsas := VmsaEvents(bootVmsa, getApVmsa(stage0.sevEsResetBlock), vcpuCount);
    SnpEventsLength(stage0.snpPages);
    var boot := BootVmsaIndex(stage0, legacyBoot);
    assert boot == |rom| + |snp|;
    forall j | boot <= j < |events|
      ensures events[j] == vmsas[j - boot]
    {
    }
    forall j | 0 <= j < boot
      ensures !events[j].Vmsa?
    {
      if j < |rom| {
        assert events[j] == rom[j];
      } else {
        var _, _ := SnpEventOrigin(stage0.snpPages, j - |rom|);
        assert events[j] == snp[j - |rom|];
      }
    }
  }

  /** With one vCPU (or the degenerate count 0) the boot VMSA is the last event. */
  lemma {:induction false} SingleVcpuEndsWithBootVmsa(
    stage0: Stage0Info, legacyBoot: bool, vcpuCount: nat,
    bootVmsa: VmsaImage, getApVmsa: SevEsResetBlock -> VmsaImage)
    requires vcpuCount <= 1
    ensures var events := LaunchEvents(stage0, legacyBoot, vcpuCount, bootVmsa, getApVmsa);
      events[|events| - 1] == Vmsa(bootVmsa, VMSA_ADDRESS)
      && |events| == BootVmsaIndex(stage0, legacyBoot) + 1
  {
    VmsaEventPositions(stage0, legacyBoot, vcpuCount, bootVmsa, getApVmsa);
  }

  /**
   * The smallest run: no legacy shadow, no SNP pages and one vCPU fold
   * exactly the ROM and then the boot VMSA.
   */
  lemma {:induction false} MinimalLaunchEvents(
    stage0: Stage0Info, bootVmsa: VmsaImage, getApVmsa: SevEsResetBlock -> VmsaImage)
    requires |stage0.snpPages| == 0
    ensures LaunchEvents(stage0, false, 1, bootVmsa, getApVmsa)
         == [Content(stage0.romBytes, stage0.startAddress), Vmsa(bootVmsa, VMSA_ADDRESS)]
  {
  }

  /**
   * If the ROM, its shadow (when used) and every descriptor start on a page
   * boundary, every address handed to the accumulator is page-aligned.
   */
  lemma {:induction false} LaunchAddressesAligned(
    stage0: Stage0Info, legacyBoot: bool, vcpuCount: nat,
    bootVmsa: VmsaImage, getApVmsa: SevEsResetBlock -> VmsaImage)
    requires Aligned(stage0.startAddress)
    requires legacyBoot ==> Aligned(stage0.legacyStartAddress)
    requires forall k :: 0 <= k < |stage0.snpPages| ==> Aligned(stage0.snpPages[k].startAddress)
    ensures var events := LaunchEvents(stage0, legacyBoot, vcpuCount, bootVmsa, getApVmsa);
      forall j :: 0 <= j < |events| ==> Aligned(events[j].address)
  {
    var events := LaunchEvents(stage0, legacyBoot, vcpuCount, bootVmsa, getApVmsa);
    var rom := RomEvents(stage0, legacyBoot);
    var snp := SnpEvents(stage0.snpPages);
    var vmsas := VmsaEvents(bootVmsa, getApVmsa(stage0.sevEsResetBlock), vcpuCount);
    SnpEventsLength(stage0.snpPages);
    forall j | 0 <= j < |events|
      ensures Aligned(events[j].address)
    {
      if j < |rom| {
        assert events[j] == rom[j];
      } else if j < |rom| + |snp| {
        var k, i := SnpEventOrigin(stage0.snpPages, j - |rom|);
        assert events[j] == snp[j - |rom|];
        var start := stage0.snpPages[k].startAddress;
        assert Aligned(start);
        assert (start + i * PAGE_SIZE) % PAGE_SIZE == 0;
      } else {
        assert events[j] == vmsas[j - |rom| - |snp|];
      }
    }
  }
}
