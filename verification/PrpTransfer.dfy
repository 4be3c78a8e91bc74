/**
 The two ways of moving the data of a command between host memory and storage (io.c:49-246): page by
 page through its PRP entries (section 4.3 of NVM Express Base Specification 1.4), and by DMA, with
 entries that follow each other in memory joined into one transfer. Storage is contiguous, so what a
 way of moving does is the sequence of host addresses it pairs with the storage bytes in order.
 */
module PrpTransfer {
  import opened Arith

  const PAGE: nat := 4096

  function Min(a: nat, b: nat): nat { if a <= b then a else b }

  function Offs(addr: nat): nat { addr % PAGE }

  // How many bytes go through one entry (io.c:99-105).
  function Chunk(addr: nat, remaining: nat): (s: nat)
    ensures s <= remaining && s <= PAGE - Offs(addr)
    ensures remaining > 0 ==> s > 0
  {
    var size := Min(remaining, PAGE);
    if Offs(addr) != 0 && size + Offs(addr) > PAGE then PAGE - Offs(addr) else size
  }

  function Range(a: nat, n: nat): (r: seq<nat>)
    ensures |r| == n && forall k :: 0 <= k < n ==> r[k] == a + k
  {
    seq(n, k => a + k)
  }

  // How many entries the transfer of `remaining` bytes uses from entry i on (the first loop of
  // __do_perform_io_using_dma, io.c:162-194); Enough says that there are that many.
  ghost predicate Enough(prps: seq<nat>, i: nat, remaining: nat)
    decreases remaining
  {
    remaining == 0 || (i < |prps| && Enough(prps, i + 1, remaining - Chunk(prps[i], remaining)))
  }

  function Used(prps: seq<nat>, i: nat, remaining: nat): (n: nat)
    requires Enough(prps, i, remaining)
    ensures i <= n && (remaining > 0 ==> i < n <= |prps|) && (remaining == 0 ==> n == i)
    decreases remaining
  {
    if remaining == 0 then i else Used(prps, i + 1, remaining - Chunk(prps[i], remaining))
  }

  /** __do_perform_io: the host address of every byte, page by page. */
  function PageByPage(prps: seq<nat>, i: nat, remaining: nat): (r: seq<nat>)
    requires Enough(prps, i, remaining)
    ensures |r| == remaining
    decreases remaining
  {
    if remaining == 0 then []
    else
      var s := Chunk(prps[i], remaining);
      Range(prps[i], s) + PageByPage(prps, i + 1, remaining - s)
  }

  // Each entry stands for the memory from its address to the end of its page (section 4.3 of NVM Express Base
  // Specification 1.4): the addresses of entries i to n - 1, one after the other.
  function Tails(prps: seq<nat>, i: nat, n: nat): (r: seq<nat>)
    requires i <= n <= |prps|
    decreases n - i
  {
    if i == n then [] else seq(PAGE - prps[i] % PAGE, k => prps[i] + k) + Tails(prps, i + 1, n)
  }

  /** The bytes of a command are the first ones of the memory that its entries stand for, and no more
      entries are used than that takes. */
  lemma {:induction false} PagesInOrder(prps: seq<nat>, i: nat, remaining: nat)
    requires Enough(prps, i, remaining) && i <= |prps|
    ensures var n := Used(prps, i, remaining);
            && n <= |prps| && remaining <= |Tails(prps, i, n)|
            && PageByPage(prps, i, remaining) == Tails(prps, i, n)[..remaining]
            && (n > i ==> |Tails(prps, i, n - 1)| < remaining)
    decreases remaining
  {
    if remaining > 0 {
      var c := Chunk(prps[i], remaining);
      PagesInOrder(prps, i + 1, remaining - c);
      OneTail(prps, i, remaining);
    }
  }

  // The first entry's part: all of its page's tail, unless the transfer ends in it.
  lemma OneTail(prps: seq<nat>, i: nat, remaining: nat)
    requires 0 < remaining && i < |prps| && Enough(prps, i, remaining)
    requires var c := Chunk(prps[i], remaining); var n := Used(prps, i + 1, remaining - c);
             && n <= |prps| && remaining - c <= |Tails(prps, i + 1, n)|
             && PageByPage(prps, i + 1, remaining - c) == Tails(prps, i + 1, n)[..remaining - c]
             && (n > i + 1 ==> |Tails(prps, i + 1, n - 1)| < remaining - c)
    ensures var n := Used(prps, i, remaining);
            && n <= |prps| && remaining <= |Tails(prps, i, n)|
            && PageByPage(prps, i, remaining) == Tails(prps, i, n)[..remaining]
            && (n > i ==> |Tails(prps, i, n - 1)| < remaining)
  {
    var c, t := Chunk(prps[i], remaining), PAGE - prps[i] % PAGE;
    var n := Used(prps, i + 1, remaining - c);
    assert c == if remaining <= t then remaining else t;
    var tail := seq(t, k => prps[i] + k);
    assert Tails(prps, i, n) == tail + Tails(prps, i + 1, n);
    if n == i + 1 {
      assert Tails(prps, i, i) == [] && Tails(prps, i + 1, n) == [];
    }
    assert Range(prps[i], c) == tail[..c];
    assert (tail + Tails(prps, i + 1, n))[..remaining] == tail[..c] + Tails(prps, i + 1, n)[..remaining - c];
  }

  // The end of the run of adjacent entries that starts at i (io.c:225-230).
  function RunEnd(prps: seq<nat>, n: nat, i: nat): (r: nat)
    requires i < n <= |prps|
    ensures i < r <= n
    ensures forall j :: i < j < r ==> prps[j] == prps[j - 1] + PAGE
    ensures r < n ==> prps[r] != prps[r - 1] + PAGE
    decreases n - i
  {
    if i + 1 < n && prps[i + 1] == prps[i] + PAGE then RunEnd(prps, n, i + 1) else i + 1
  }

  // The bytes of one joined transfer (io.c:214-232).
  function RunSize(prps: seq<nat>, n: nat, i: nat, remaining: nat): (s: nat)
    requires i < n <= |prps| && 0 < remaining
    ensures 0 < s <= remaining
  {
    var pages := RunEnd(prps, n, i) - i - 1;
    assert pages * PAGE >= 0;
    Min(remaining, Chunk(prps[i], remaining) + pages * PAGE)
  }

  /** __do_perform_io_using_dma: the host address of every byte, run by run, as far as the first
      n entries go (PerformIoUsingDma shows that they go all the way). */
  function RunByRun(prps: seq<nat>, n: nat, i: nat, remaining: nat): (r: seq<nat>)
    requires n <= |prps|
    ensures |r| <= remaining
    decreases remaining
  {
    if remaining == 0 || i >= n then []
    else
      var s := RunSize(prps, n, i, remaining);
      Range(prps[i], s) + RunByRun(prps, n, RunEnd(prps, n, i), remaining - s)
  }

  // No entry used starts inside a page and is followed by the entry one page further.
  ghost predicate NoBadPair(prps: seq<nat>, n: nat, i: nat)
    requires n <= |prps|
  {
    forall j :: i <= j && j + 1 < n && prps[j + 1] == prps[j] + PAGE ==> Offs(prps[j]) == 0
  }

  lemma RangeSplit(a: nat, m: nat, n: nat)
    ensures Range(a, m) + Range(a + m, n) == Range(a, m + n)
  {
  }

  lemma SameOffs(a: nat)
    ensures Offs(a + PAGE) == Offs(a)
  {
  }

  lemma MoreLeft(prps: seq<nat>, i: nat, remaining: nat)
    requires 0 < remaining && Enough(prps, i, remaining) && i + 1 < Used(prps, i, remaining)
    ensures Chunk(prps[i], remaining) < remaining
    ensures Offs(prps[i]) == 0 ==> Chunk(prps[i], remaining) == PAGE
    ensures Used(prps, i + 1, remaining - Chunk(prps[i], remaining)) == Used(prps, i, remaining)
  {
  }

  // One page more at the front of a run.
  lemma LongerRun(prps: seq<nat>, n: nat, i: nat, remaining: nat)
    requires i + 1 < n <= |prps| && prps[i + 1] == prps[i] + PAGE && Offs(prps[i]) == 0 && PAGE < remaining
    ensures RunEnd(prps, n, i) == RunEnd(prps, n, i + 1)
    ensures RunSize(prps, n, i, remaining) == PAGE + RunSize(prps, n, i + 1, remaining - PAGE)
  {
    SameOffs(prps[i]);
    hide Offs;
    var pages := RunEnd(prps, n, i) - i - 1;
    assert pages >= 1 && pages * PAGE == (pages - 1) * PAGE + PAGE;
    assert Chunk(prps[i], remaining) == PAGE;
    assert Chunk(prps[i + 1], remaining - PAGE) == Min(remaining - PAGE, PAGE);
  }

  // The run from entry i on moves what its pages would move one by one.
  ghost predicate RunOk(prps: seq<nat>, i: nat, remaining: nat)
    requires 0 < remaining && Enough(prps, i, remaining)
  {
    var n := Used(prps, i, remaining);
    var r, s := RunEnd(prps, n, i), RunSize(prps, n, i, remaining);
    && Enough(prps, r, remaining - s) && (remaining > s ==> Used(prps, r, remaining - s) == n)
    && (remaining == s ==> r == n)
    && PageByPage(prps, i, remaining) == Range(prps[i], s) + PageByPage(prps, r, remaining - s)
  }

  lemma LongerOk(prps: seq<nat>, i: nat, remaining: nat)
    requires PAGE < remaining && Enough(prps, i, remaining) && Chunk(prps[i], remaining) == PAGE && Offs(prps[i]) == 0
    requires i + 1 < Used(prps, i, remaining) == Used(prps, i + 1, remaining - PAGE) && prps[i + 1] == prps[i] + PAGE
    requires RunOk(prps, i + 1, remaining - PAGE)
    ensures RunOk(prps, i, remaining)
  {
    hide Enough, Used, Chunk, Range, RunEnd, RunSize, PageByPage;
    var n := Used(prps, i, remaining);
    var r, s := RunEnd(prps, n, i + 1), RunSize(prps, n, i + 1, remaining - PAGE);
    LongerRun(prps, n, i, remaining);
    LongerPages(prps, i, remaining, r, s);
  }

  lemma LongerPages(prps: seq<nat>, i: nat, remaining: nat, r: nat, s: nat)
    requires PAGE < remaining && Enough(prps, i, remaining)
    requires Chunk(prps[i], remaining) == PAGE && s <= remaining - PAGE
    requires i + 1 < |prps| && prps[i + 1] == prps[i] + PAGE && Enough(prps, r, remaining - PAGE - s)
    requires PageByPage(prps, i + 1, remaining - PAGE)
             == Range(prps[i + 1], s) + PageByPage(prps, r, remaining - PAGE - s)
    ensures PageByPage(prps, i, remaining) == Range(prps[i], PAGE + s) + PageByPage(prps, r, remaining - (PAGE + s))
  {
    RangeSplit(prps[i], PAGE, s);
  }

  // A run of one entry.
  lemma ShortOk(prps: seq<nat>, i: nat, remaining: nat)
    requires 0 < remaining && Enough(prps, i, remaining)
    requires var n := Used(prps, i, remaining); !(i + 1 < n && prps[i + 1] == prps[i] + PAGE)
    ensures RunOk(prps, i, remaining) && RunEnd(prps, Used(prps, i, remaining), i) == i + 1
  {
    var n := Used(prps, i, remaining);
    assert RunEnd(prps, n, i) == i + 1;
  }

  lemma {:induction false} RunIsPages(prps: seq<nat>, i: nat, remaining: nat)
    requires 0 < remaining && Enough(prps, i, remaining)
    requires var n := Used(prps, i, remaining); i + 1 < n && prps[i + 1] == prps[i] + PAGE ==> Offs(prps[i]) == 0
    ensures RunOk(prps, i, remaining)
    decreases remaining
  {
    hide RunOk;
    var n := Used(prps, i, remaining);
    if i + 1 < n && prps[i + 1] == prps[i] + PAGE {
      MoreLeft(prps, i, remaining);
      SameOffs(prps[i]);
      RunIsPages(prps, i + 1, remaining - PAGE);
      LongerOk(prps, i, remaining);
    } else {
      ShortOk(prps, i, remaining);
    }
  }

  // From entry i on, up to the first run that starts inside a page.
  lemma {:induction false} SameTransfer(prps: seq<nat>, i: nat, remaining: nat)
    requires Enough(prps, i, remaining)
    requires NoBadPair(prps, if remaining == 0 then 0 else Used(prps, i, remaining), i)
    ensures RunByRun(prps, if remaining == 0 then 0 else Used(prps, i, remaining), i, remaining)
            == PageByPage(prps, i, remaining)
    decreases remaining
  {
    if remaining > 0 {
      var n := Used(prps, i, remaining);
      RunIsPages(prps, i, remaining);
      var r, s := RunEnd(prps, n, i), RunSize(prps, n, i, remaining);
      if remaining > s {
        SameTransfer(prps, r, remaining - s);
      }
    }
  }

  // A longer run that starts inside a page goes wrong where its first page ends.
  lemma BadRun(prps: seq<nat>, i: nat, remaining: nat)
    requires 0 < remaining && Enough(prps, i, remaining)
    requires i + 1 < Used(prps, i, remaining) && prps[i + 1] == prps[i] + PAGE && Offs(prps[i]) != 0
    ensures RunByRun(prps, Used(prps, i, remaining), i, remaining) != PageByPage(prps, i, remaining)
  {
    MoreLeft(prps, i, remaining);
    var n, c := Used(prps, i, remaining), Chunk(prps[i], remaining);
    assert PageByPage(prps, i + 1, remaining - c)[0] == prps[i + 1];
    assert PageByPage(prps, i, remaining)[c] == prps[i] + PAGE;
    var s := RunSize(prps, n, i, remaining);
    assert (RunEnd(prps, n, i) - i - 1) * PAGE >= PAGE;
    assert RunByRun(prps, n, i, remaining)[c] == prps[i] + c;
  }

  // In a run that starts on a page boundary every entry does.
  lemma {:induction false} RunAligned(prps: seq<nat>, n: nat, i: nat, j: nat)
    requires i < n <= |prps| && i <= j < RunEnd(prps, n, i) && Offs(prps[i]) == 0
    ensures Offs(prps[j]) == 0
    decreases j
  {
    if i < j {
      RunAligned(prps, n, i, j - 1);
      SameOffs(prps[j - 1]);
    }
  }

  // A bad pair beyond a good run is beyond the run's end.
  lemma BadBeyond(prps: seq<nat>, n: nat, i: nat)
    requires i < n <= |prps| && !NoBadPair(prps, n, i)
    requires i + 1 < n && prps[i + 1] == prps[i] + PAGE ==> Offs(prps[i]) == 0
    ensures RunEnd(prps, n, i) < n && !NoBadPair(prps, n, RunEnd(prps, n, i))
  {
    hide Offs;
    var r := RunEnd(prps, n, i);
    var j :| i <= j && j + 1 < n && prps[j + 1] == prps[j] + PAGE && Offs(prps[j]) != 0;
    if j < r {
      if i + 1 < n && prps[i + 1] == prps[i] + PAGE {
        RunAligned(prps, n, i, j);
      }
      assert false;
    }
  }

  lemma {:induction false} DifferentTransfer(prps: seq<nat>, i: nat, remaining: nat)
    requires 0 < remaining && Enough(prps, i, remaining)
    requires !NoBadPair(prps, Used(prps, i, remaining), i)
    ensures RunByRun(prps, Used(prps, i, remaining), i, remaining) != PageByPage(prps, i, remaining)
    decreases remaining
  {
    hide Offs, Chunk, NoBadPair;
    var n := Used(prps, i, remaining);
    if i + 1 < n && prps[i + 1] == prps[i] + PAGE && Offs(prps[i]) != 0 {
      BadRun(prps, i, remaining);
    } else {
      BadBeyond(prps, n, i);
      RunIsPages(prps, i, remaining);
      var r, s := RunEnd(prps, n, i), RunSize(prps, n, i, remaining);
      DifferentTransfer(prps, r, remaining - s);
      DifferBehind(Range(prps[i], s), RunByRun(prps, n, r, remaining - s), PageByPage(prps, r, remaining - s));
    }
  }

  lemma DifferBehind(a: seq<nat>, b: seq<nat>, c: seq<nat>)
    requires b != c
    ensures a + b != a + c
  {
    if |b| == |c| {
      var k :| 0 <= k < |b| && b[k] != c[k];
      assert (a + b)[|a| + k] == b[k] && (a + c)[|a| + k] == c[k];
    }
  }

  /** The two ways move the same bytes exactly when no entry used starts inside a page and is followed
      by the entry one page further on. */
  lemma TransfersAgree(prps: seq<nat>, length: nat)
    requires 0 < length && Enough(prps, 0, length)
    ensures var n := Used(prps, 0, length);
            RunByRun(prps, n, 0, length) == PageByPage(prps, 0, length) <==> NoBadPair(prps, n, 0)
  {
    if NoBadPair(prps, Used(prps, 0, length), 0) {
      SameTransfer(prps, 0, length);
    } else {
      DifferentTransfer(prps, 0, length);
    }
  }

  /** And they do differ: for a page of data through an entry in the first half of a page and the entry
      a page further on, the joined transfer goes on behind the first page, where the other starts the second entry. */
  lemma TransfersDiffer(addr: nat)
    requires 0 < Offs(addr) <= PAGE / 2
    ensures var prps := [addr, addr + PAGE]; var k := PAGE - Offs(addr);
            && Enough(prps, 0, PAGE) && Used(prps, 0, PAGE) == 2 && !NoBadPair(prps, 2, 0)
            && PageByPage(prps, 0, PAGE)[k] == addr + PAGE
            && |RunByRun(prps, 2, 0, PAGE)| > k && RunByRun(prps, 2, 0, PAGE)[k] == addr + k
  {
    var prps, k := [addr, addr + PAGE], PAGE - Offs(addr);
    SameOffs(addr);
    assert Chunk(prps[0], PAGE) == k && Chunk(prps[1], PAGE - k) == PAGE - k;
    assert Enough(prps, 1, PAGE - k) && Used(prps, 1, PAGE - k) == 2;
    assert PageByPage(prps, 1, PAGE - k)[0] == addr + PAGE;
    assert prps[0 + 1] == prps[0] + PAGE;
    assert RunEnd(prps, 2, 0) == 2 && RunSize(prps, 2, 0, PAGE) == PAGE;
  }

  /** In particular for every command whose entries after the first are page-aligned, as section 4.3
      of the specification demands. */
  lemma AlignedEntriesAgree(prps: seq<nat>, length: nat)
    requires 0 < length && Enough(prps, 0, length)
    requires forall j :: 1 <= j < |prps| ==> Offs(prps[j]) == 0
    ensures RunByRun(prps, Used(prps, 0, length), 0, length) == PageByPage(prps, 0, length)
  {
    var n := Used(prps, 0, length);
    forall j | 0 <= j && j + 1 < n && prps[j + 1] == prps[j] + PAGE ensures Offs(prps[j]) == 0 {
      SameOffs(prps[j]);
    }
    TransfersAgree(prps, length);
  }

  // ----- the loops -----

  // A memcpy or an ioat_dma_submit: host address, storage offset, size.
  datatype Transfer = Transfer(host: nat, offset: nat, size: nat)

  // The host address paired with each storage byte, for transfers that fill storage from `offset` on.
  function Moved(ts: seq<Transfer>): seq<nat> {
    if ts == [] then [] else Moved(ts[..|ts| - 1]) + Range(ts[|ts| - 1].host, ts[|ts| - 1].size)
  }

  // The transfers fill the storage contiguously from `offset` to `end`.
  ghost predicate Contiguous(ts: seq<Transfer>, offset: nat, end: nat) {
    if ts == [] then offset == end
    else ts[|ts| - 1].offset + ts[|ts| - 1].size == end && Contiguous(ts[..|ts| - 1], offset, ts[|ts| - 1].offset)
  }

  lemma OneMore(ts: seq<Transfer>, t: Transfer, offset: nat)
    requires Contiguous(ts, offset, t.offset)
    ensures Moved(ts + [t]) == Moved(ts) + Range(t.host, t.size)
    ensures Contiguous(ts + [t], offset, t.offset + t.size)
  {
    assert (ts + [t])[..|ts|] == ts;
  }

  lemma Step(a: seq<nat>, b: seq<nat>, c: seq<nat>)
    ensures a + (b + c) == (a + b) + c
  {
  }

  /** __do_perform_io (io.c:66-125) over the entries of the command. */
  method PerformIo(prps: seq<nat>, offset: nat, length: nat) returns (ts: seq<Transfer>)
    requires Enough(prps, 0, length)
    ensures Contiguous(ts, offset, offset + length) && Moved(ts) == PageByPage(prps, 0, length)
  {
    hide Moved, Contiguous, Range, Chunk;
    var remaining: nat, at: nat, i: nat := length, offset, 0;
    ts := [];
    Nothing(offset);
    while remaining > 0
      invariant remaining <= length && at + remaining == offset + length
      invariant Enough(prps, i, remaining) && Contiguous(ts, offset, at)
      invariant PageByPage(prps, 0, length) == Moved(ts) + PageByPage(prps, i, remaining)
    {
      var paddr := prps[i];
      var size := Chunk(paddr, remaining);
      ChunkFits(paddr, remaining);
      OneMore(ts, Transfer(paddr, at, size), offset);
      Step(Moved(ts), Range(paddr, size), PageByPage(prps, i + 1, remaining - size));
      ts := ts + [Transfer(paddr, at, size)];
      i := i + 1;
      remaining := remaining - size;
      at := at + size;
    }
  }

  lemma Nothing(offset: nat)
    ensures Moved([]) == [] && Contiguous([], offset, offset)
  {
  }

  lemma ChunkFits(addr: nat, remaining: nat)
    requires remaining > 0
    ensures 0 < Chunk(addr, remaining) <= remaining
  {
  }

  // The first loop of __do_perform_io_using_dma (io.c:162-194): how many entries there are.
  method CountPrps(prps: seq<nat>, length: nat) returns (n: nat)
    requires Enough(prps, 0, length)
    ensures n == Used(prps, 0, length)
  {
    hide Chunk;
    var remaining: nat := length;
    n := 0;
    while remaining > 0
      invariant Enough(prps, n, remaining) && Used(prps, n, remaining) == Used(prps, 0, length)
    {
      ChunkFits(prps[n], remaining);
      remaining := remaining - Chunk(prps[n], remaining);
      n := n + 1;
    }
  }

  // What is left for entry r when the pages from i on have been moved one by one.
  function LeftAt(prps: seq<nat>, i: nat, remaining: nat, r: nat): (left: nat)
    requires i <= r && Enough(prps, i, remaining) && (remaining > 0 ==> r <= Used(prps, i, remaining))
    requires remaining == 0 ==> r == i
    ensures left <= remaining && Enough(prps, r, left)
    ensures remaining > 0 ==> (left > 0 ==> Used(prps, r, left) == Used(prps, i, remaining))
                              && (left == 0 ==> r == Used(prps, i, remaining))
    decreases r - i
  {
    if i == r then remaining else LeftAt(prps, i + 1, remaining - Chunk(prps[i], remaining), r)
  }

  lemma {:induction false} LeftBound(prps: seq<nat>, i: nat, remaining: nat, r: nat)
    requires i < r && 0 < remaining && Enough(prps, i, remaining) && r <= Used(prps, i, remaining)
    ensures LeftAt(prps, i, remaining, r) >= remaining - Chunk(prps[i], remaining) - (r - i - 1) * PAGE
    decreases r - i
  {
    hide Chunk;
    if i + 1 < r {
      MoreLeft(prps, i, remaining);
      var left := remaining - Chunk(prps[i], remaining);
      LeftBound(prps, i + 1, left, r);
      ChunkAtMost(prps[i + 1], left);
    }
  }

  lemma ChunkAtMost(addr: nat, remaining: nat)
    ensures Chunk(addr, remaining) <= PAGE
  {
  }

  lemma ChunkMono(addr: nat, a: nat, b: nat)
    requires a <= b
    ensures Chunk(addr, a) <= Chunk(addr, b) && (Chunk(addr, a) < a ==> Chunk(addr, a) == Chunk(addr, b))
  {
  }

  // Joining entries never leaves more to move than taking them one by one.
  lemma RunCovers(prps: seq<nat>, i: nat, pages: nat, remaining: nat)
    requires 0 < remaining <= pages && Enough(prps, i, pages)
    ensures var n := Used(prps, i, pages); var r := RunEnd(prps, n, i); var s := RunSize(prps, n, i, remaining);
            remaining - s <= LeftAt(prps, i, pages, r)
  {
    hide Chunk, Enough;
    var n := Used(prps, i, pages);
    LeftBound(prps, i, pages, RunEnd(prps, n, i));
    ChunkMono(prps[i], remaining, pages);
  }

  // One joined transfer: how far the loop over adjacent entries goes (io.c:214-232).
  method JoinRun(prps: seq<nat>, n: nat, i: nat, remaining: nat) returns (io: nat, r: nat)
    requires i < n <= |prps| && 0 < remaining
    ensures r == RunEnd(prps, n, i) && io == RunSize(prps, n, i, remaining)
  {
    var size := Chunk(prps[i], remaining);
    ghost var c := size;
    r := i + 1;
    while r < n && prps[r] == prps[r - 1] + PAGE
      invariant i < r <= n && RunEnd(prps, n, i) == RunEnd(prps, n, r - 1)
      invariant size == c + (r - i - 1) * PAGE
    {
      size := size + PAGE;
      r := r + 1;
    }
    io := Min(remaining, size);
  }

  /** __do_perform_io_using_dma (io.c:208-243): it never runs out of entries, whatever they are. */
  method PerformIoUsingDma(prps: seq<nat>, offset: nat, length: nat) returns (ts: seq<Transfer>)
    requires Enough(prps, 0, length)
    ensures Contiguous(ts, offset, offset + length)
    ensures Moved(ts) == RunByRun(prps, Used(prps, 0, length), 0, length)
  {
    hide Moved, Contiguous, Range, Chunk, Enough, RunEnd, RunSize, LeftAt;
    var n := CountPrps(prps, length);
    var remaining: nat, at: nat, i: nat := length, offset, 0;
    ghost var pages: nat := length;
    ts := [];
    Nothing(offset);
    while remaining > 0
      invariant remaining <= pages && at + remaining == offset + length
      invariant Enough(prps, i, pages) && (pages > 0 ==> Used(prps, i, pages) == n)
      invariant Contiguous(ts, offset, at)
      invariant RunByRun(prps, n, 0, length) == Moved(ts) + RunByRun(prps, n, i, remaining)
    {
      RunCovers(prps, i, pages, remaining);
      var paddr := prps[i];
      var io, r := JoinRun(prps, n, i, remaining);
      OneMore(ts, Transfer(paddr, at, io), offset);
      Step(Moved(ts), Range(paddr, io), RunByRun(prps, n, r, remaining - io));
      pages := LeftAt(prps, i, pages, r);
      ts := ts + [Transfer(paddr, at, io)];
      i := r;
      remaining := remaining - io;
      at := at + io;
    }
  }
}
