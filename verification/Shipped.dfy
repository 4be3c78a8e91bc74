/**
 The configuration the repository ships (ssd_config.h:78-202): four partitions of one channel and
 two LUNs each, 2048 lines, 28 percent over-provisioning. All addresses below the advertised
 capacity together stay within what the partitions can hold without ever running out of lines.
 */
module Shipped {
  import opened Arith
  import opened FtlModel
  import opened FtlRuns
  import opened Geometry
  import opened GcOrder
  import opened LineMgmt

  const PARTS: nat := 4
  const LINES: nat := 2048
  const PAGE_BYTES: nat := 4096
  const ONESHOT_BYTES: nat := 49152
  const SECTOR_BYTES: nat := 512

  function DivRoundUp(a: nat, b: nat): (r: nat)
    requires 0 < b
    ensures a <= r * b < a + b
  {
    (a + b - 1) / b
  }

  // ssd_init_params for a device of c bytes (ssd.c:104-139).
  function Oneshots(c: nat): nat {
    DivRoundUp(DivRoundUp(c / PARTS, 2 * LINES), ONESHOT_BYTES)
  }

  function Chip(c: nat): Geometry {
    Geometry(1, 2, 12, Oneshots(c), 4, LINES)
  }

  // tlc_tt_lines * 15 / 100 with SLC_PORTION 10 (conv_ftl.c:914, ssd.c:228-230).
  function Threshold(): nat { (LINES - LINES * 10 / 100) * 15 / 100 }

  // ns->size / LBA_SIZE (conv_ftl.c:955).
  function Sectors(c: nat): nat { (c * 100 / 128) / SECTOR_BYTES }

  // The number of partition-local LPNs that the advertised size needs.
  function Limit(c: nat): nat { 1600 * Chip(c).PgsPerLine() }

  lemma PartitionBytes(c: nat)
    ensures c / PARTS <= LINES * Chip(c).PgsPerLine() * PAGE_BYTES
    ensures Chip(c).PgsPerLine() == 24 * Oneshots(c)
  {
    var blk := DivRoundUp(c / PARTS, 2 * LINES);
    var n := Oneshots(c);
    assert blk <= n * ONESHOT_BYTES;
    assert c / PARTS <= blk * (2 * LINES);
    assert blk * (2 * LINES) <= n * ONESHOT_BYTES * (2 * LINES);
  }

  lemma ChipValid(c: nat)
    requires 0 < Oneshots(c) && 12 * Oneshots(c) <= 65536
    ensures Chip(c).Valid() && ConfigOf(Chip(c), Threshold()).Valid()
    ensures Threshold() == 276
  {
    ScheduleIsGood(Chip(c));
    Positive(Chip(c));
  }

  /** Whatever the device size, as long as a block's pages fit the 16-bit page number (ssd.h:80), a
      sector below the advertised capacity belongs to a partition-local LPN below Limit, and so many
      LPNs are within Capacity: the host can rewrite the advertised capacity for ever
      (NeverOutOfLines, ConvWrite). */
  lemma AdvertisedFits(c: nat, sector: nat)
    requires 0 < Oneshots(c) && 12 * Oneshots(c) <= 65536
    requires sector < Sectors(c)
    ensures Chip(c).Valid() && ConfigOf(Chip(c), Threshold()).Valid()
    ensures Quo(Quo(sector, PAGE_BYTES / SECTOR_BYTES), PARTS) < Limit(c)
    ensures Limit(c) <= Capacity(ConfigOf(Chip(c), Threshold()))
  {
    ChipValid(c);
    PartitionBytes(c);
    var ppl := Chip(c).PgsPerLine();
    var local := Quo(Quo(sector, 8), 4);
    PartsMix(sector, 8);
    PartsMix(Quo(sector, 8), 4);
    assert 32 * local <= sector;
    assert SECTOR_BYTES * Sectors(c) <= c * 100 / 128;
    assert 512 * 32 * local < c * 100 / 128;
    assert c < 4 * 2048 * ppl * 4096 + 4;
  }
}
