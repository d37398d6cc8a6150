/** Describing the buffer of an NVMe command by physical region pages (PRPs): the driver's pool of PRP list entries,
    what a controller reads from it (section 4.3 of the NVM Express Base Specification 1.4), and for which commands of
    a request the two agree. */
module NvmePrps {
  import opened Prelude
  import opened NvmeTransfer

  // ------------------------------------------------------------------ the pages of a buffer

  /** Pages that the bytes `dma .. dma + length` touch. */
  function PageSpan(dma: nat, length: nat, pageSize: nat): nat
    requires pageSize > 0
  {
    (dma % pageSize + length + pageSize - 1) / pageSize
  }

  /** The start of the first page of a buffer at `dma`, and that of page `i` of a buffer whose first page is `first`. */
  function FirstPage(dma: nat, pageSize: nat): nat
    requires pageSize > 0
  {
    dma - dma % pageSize
  }

  function PageAt(first: nat, pageSize: nat, i: nat): nat
  {
    first + Multiple(pageSize, i)
  }

  /** The `n` pages of a buffer behind its first one. */
  function Pages(first: nat, pageSize: nat, n: nat): (s: seq<nat>)
    ensures |s| == n && forall k | 0 <= k < n :: s[k] == PageAt(first, pageSize, k + 1)
  {
    if n == 0 then [] else Pages(first, pageSize, n - 1) + [PageAt(first, pageSize, n)]
  }

  lemma SpanIs(dma: nat, length: nat, pageSize: nat, n: nat)
    requires pageSize > 0 && n > 0
    requires Multiple(pageSize, n - 1) < dma % pageSize + length <= Multiple(pageSize, n)
    ensures PageSpan(dma, length, pageSize) == n
  {
    MultipleIsProduct(pageSize, n - 1);
    MultipleIsProduct(pageSize, n);
    QuotientIs(dma % pageSize + length + pageSize - 1, pageSize, n);
  }

  /** The bounds of the page span. */
  lemma SpanBounds(dma: nat, length: nat, pageSize: nat)
    requires pageSize > 0 && length > 0
    ensures var n := PageSpan(dma, length, pageSize);
      n > 0 && Multiple(pageSize, n - 1) < dma % pageSize + length <= Multiple(pageSize, n)
  {
    var x, n := dma % pageSize + length + pageSize - 1, PageSpan(dma, length, pageSize);
    assert x == n * pageSize + x % pageSize;
    MultipleIsProduct(pageSize, n - 1);
    MultipleIsProduct(pageSize, n);
  }

  // ------------------------------------------------------------------ what a controller reads

  /** The entries of a PRP list of `n` entries that starts at word `at` of a memory of `words` at `address`. If more
      entries remain than a page holds, the last word of the page is the address of the next one. */
  function ListEntries(words: seq<nat>, address: nat, at: nat, n: nat, perPage: nat): Option<seq<nat>>
    requires perPage >= 2
    decreases n
  {
    if at + Min(n, perPage) > |words| then None
    else if n <= perPage then Some(words[at..at + n])
    else
      var link := words[at + perPage - 1];
      if link < address || (link - address) % 8 != 0 then None
      else
        var rest := ListEntries(words, address, (link - address) / 8, n - (perPage - 1), perPage);
        if rest.None? then None else Some(words[at..at + perPage - 1] + rest.value)
  }

  /** The further pages of a transfer: none, the one that PRP2 names, or those of the list that it points to. */
  function FurtherPages(words: seq<nat>, address: nat, prp2: nat, span: nat, perPage: nat): Option<seq<nat>>
    requires perPage >= 2
  {
    if span <= 1 then Some([])
    else if span == 2 then Some([prp2])
    else if prp2 < address || (prp2 - address) % 8 != 0 then None
    else ListEntries(words, address, (prp2 - address) / 8, span - 1, perPage)
  }

  /** PRP1 with PRP2 or its list names exactly the pages that the buffer touches. */
  ghost predicate Described(words: seq<nat>, address: nat, dma: nat, prp2: nat, length: nat, perPage: nat)
    requires perPage >= 2
  {
    var span := PageSpan(dma, length, 8 * perPage);
    && span > 0
    && FurtherPages(words, address, prp2, span, perPage)
       == Some(Pages(FirstPage(dma, 8 * perPage), 8 * perPage, span - 1))
  }

  // ------------------------------------------------------------------ the pool

  /** The pages that `n` words take, and the words in the pages that are allocated for a buffer of `span` pages. */
  function PagesOf(n: nat, perPage: nat): nat
    requires perPage > 0
  {
    (n + perPage - 1) / perPage
  }

  function RoomFor(span: nat, perPage: nat): nat
    requires perPage > 0
  {
    if span == 0 then 0 else Multiple(perPage, PagesOf(span - 1, perPage))
  }

  lemma RoundedUp(n: nat, perPage: nat)
    requires perPage > 0
    ensures var k := PagesOf(n, perPage);
      Multiple(perPage, k) == k * perPage && n <= Multiple(perPage, k) && (n > 0 ==> perPage <= Multiple(perPage, k))
  {
    var k := PagesOf(n, perPage);
    MultipleIsProduct(perPage, k);
    assert n + perPage - 1 == k * perPage + (n + perPage - 1) % perPage;
    if n > 0 && k > 0 {
      MultipleMonotone(perPage, 1, k);
    }
  }

  lemma RoomBounds(n: nat, perPage: nat)
    requires perPage > 0
    ensures var room := Multiple(perPage, PagesOf(n, perPage));
      room < n + perPage && (n <= 8 * perPage ==> room <= 8 * perPage)
  {
    var k := PagesOf(n, perPage);
    RoundedUp(n, perPage);
    assert n + perPage - 1 == k * perPage + (n + perPage - 1) % perPage;
    if k > 8 {
      MultipleMonotone(perPage, 9, k);
      MultipleIsProduct(perPage, 9);
    } else {
      MultipleMonotone(perPage, k, 8);
      MultipleIsProduct(perPage, 8);
    }
  }

  lemma SpanIsPrps(dma: nat, length: nat, pageSize: nat, n: nat)
    requires pageSize > 0 && length > pageSize - dma % pageSize
    requires n == (length - (pageSize - dma % pageSize) + pageSize - 1) / pageSize
    ensures PageSpan(dma, length, pageSize) == n + 1 && (length > 2 * pageSize - dma % pageSize ==> n > 1)
  {
    var y := length - (pageSize - dma % pageSize) + pageSize - 1;
    assert y == n * pageSize + y % pageSize;
    MultipleIsProduct(pageSize, n);
    SpanIs(dma, length, pageSize, n + 1);
  }

  lemma SecondPage(dma: nat, pageSize: nat)
    requires pageSize > 0
    ensures PageAt(FirstPage(dma, pageSize), pageSize, 1) == dma + (pageSize - dma % pageSize)
  {
    assert Multiple(pageSize, 0) == 0;
  }

  lemma TwoPages(dma: nat, length: nat, pageSize: nat, next: nat)
    requires pageSize > 0 && next == dma + (pageSize - dma % pageSize)
    requires pageSize - dma % pageSize < length <= 2 * pageSize - dma % pageSize
    ensures PageSpan(dma, length, pageSize) == 2 && Pages(FirstPage(dma, pageSize), pageSize, 1) == [next]
  {
    SpanIs(dma, length, pageSize, 2);
  }

  /** The words from the second page of the pool up to the eighth are never written. */
  ghost predicate Gap(words: seq<nat>, perPage: nat)
  {
    forall i | perPage <= i < 8 * perPage && i < |words| :: words[i] == 0
  }

  ghost predicate Apart(dma: nat, length: nat, address: nat, words: nat)
  {
    dma + length <= address || address + 8 * words <= dma
  }

  /** What the pool holds after `j` entries. Up to one entry less than a page holds, the list is in place. From there on
      the last word of the page is a link, and the further entries lie behind the eighth page. */
  ghost predicate Filling(words: seq<nat>, address: nat, first: nat, perPage: nat, j: nat, inside: bool)
  {
    if j < perPage then inside && j <= |words| && forall k | 0 <= k < j :: words[k] == PageAt(first, 8 * perPage, k + 1)
    else
      && 0 < perPage <= |words| && words[perPage - 1] == address + 8 * perPage
      && (inside ==> 8 * perPage < |words| && 8 * j < |words| + 7 * perPage)
  }

  /** Page `n` of a buffer that touches more than `n` pages begins inside the buffer. */
  lemma LastPageInside(dma: nat, length: nat, pageSize: nat, n: nat)
    requires pageSize > 0 && length > 0 && 0 < n < PageSpan(dma, length, pageSize)
    ensures dma < PageAt(FirstPage(dma, pageSize), pageSize, n) < dma + length
  {
    SpanBounds(dma, length, pageSize);
    MultipleMonotone(pageSize, n, PageSpan(dma, length, pageSize) - 1);
    MultipleMonotone(pageSize, 1, n);
  }

  /** A filled list describes the buffer exactly if it leaves a word of the page free. */
  lemma ListExactly(words: seq<nat>, address: nat, dma: nat, length: nat, perPage: nat, inside: bool)
    requires perPage >= 2 && length > 0 && PageSpan(dma, length, 8 * perPage) > 2 && perPage <= |words|
    requires Filling(words, address, FirstPage(dma, 8 * perPage), perPage, PageSpan(dma, length, 8 * perPage) - 1,
      inside)
    requires Gap(words, perPage) && Apart(dma, length, address, |words|)
    ensures inside && Described(words, address, dma, address, length, perPage) <==>
      PageSpan(dma, length, 8 * perPage) <= perPage
  {
    var pageSize, n := 8 * perPage, PageSpan(dma, length, 8 * perPage) - 1;
    var first := FirstPage(dma, pageSize);
    if n < perPage {
      assert words[..n] == Pages(first, pageSize, n);
    } else {
      LastPageInside(dma, length, pageSize, perPage);
      if n == perPage {
        assert words[..n][perPage - 1] == address + pageSize;
      } else {
        LinkLeadsToGap(words, address, n, perPage);
      }
    }
  }

  lemma LinkLeadsToGap(words: seq<nat>, address: nat, n: nat, perPage: nat)
    requires perPage >= 2 && perPage < n && perPage <= |words| && Gap(words, perPage) &&
      words[perPage - 1] == address + 8 * perPage
    ensures var e := ListEntries(words, address, 0, n, perPage);
      e.Some? ==> |e.value| >= perPage && e.value[perPage - 1] == 0
  {
    var rest := ListEntries(words, address, perPage, n - (perPage - 1), perPage);
    if rest.Some? {
      assert rest.value[0] == words[perPage] == 0;
    }
  }

  /** PRP2 for a buffer of `span` pages, with the list at `pool`. */
  function SecondPrp(dma: nat, span: nat, pageSize: nat, pool: nat): nat
    requires pageSize > 0
  {
    if span <= 1 then 0 else if span == 2 then PageAt(FirstPage(dma, pageSize), pageSize, 1) else pool
  }

  class PrpPool {
    const pageSize: nat
    const perPage: nat           // words in a page
    var address: nat
    var words: seq<nat>          // the words allocated at `address`
    var entryCount: nat

    ghost predicate Valid()
      reads this
    {
      && pageSize == 8 * perPage && perPage >= 2
      && |words| >= perPage && 0 < entryCount <= |words| && Gap(words, perPage)
    }

    constructor (pageSize: nat, address: nat)
      requires pageSize >= 512 && pageSize % 8 == 0
      ensures Valid() && this.pageSize == pageSize && this.address == address && |words| == perPage
      ensures entryCount == 64
    {
      this.pageSize, this.perPage, this.address := pageSize, pageSize / 8, address;
      words, entryCount := seq(pageSize / 8, _ => 0), 64;
    }

    /** A store to word `i` from the start of the pool; one that lies outside is reported and not modelled further. */
    method Store(i: nat, value: nat) returns (inside: bool)
      requires Valid() && !(perPage <= i < 8 * perPage)
      modifies this`words
      ensures Valid() && (inside <==> i < |old(words)|)
      ensures words == if inside then old(words)[i := value] else old(words)
    {
      inside := i < |words|;
      if inside {
        words := words[i := value];
      }
    }

    /** The loop that fills in the list: the pages of a buffer behind its first one. The link to a further page of the
        list is one page on in bytes; the store position moves on by a page size in words. */
    method Fill(ghost first: nat, next: nat, numberPrps: nat) returns (inside: bool)
      requires Valid() && next == PageAt(first, pageSize, 1)
      modifies this`words
      ensures Valid() && |words| == |old(words)|
      ensures Filling(words, address, first, perPage, numberPrps, inside)
    {
      var left, dmaAddress, base, i := numberPrps, next, 0, 0;
      inside := true;
      ghost var j := 0;
      while left > 0
        invariant left >= 0 && j + left == numberPrps && dmaAddress == PageAt(first, pageSize, j + 1)
        invariant Valid() && |words| == |old(words)| && i <= perPage - 1
        invariant if j <= perPage - 1 then base == 0 && i == j else base >= pageSize && base >= 8 * (j - i)
        invariant Filling(words, address, first, perPage, j, inside)
      {
        if i == perPage - 1 {
          var linked := Store(base + i, 8 * base + address + pageSize);
          inside := inside && linked;
          i := 0;
          base := base + pageSize;
        }
        var stored := Store(base + i, dmaAddress);
        inside := inside && stored;
        i := i + 1;
        dmaAddress := dmaAddress + pageSize;
        left, j := left - 1, j + 1;
      }
    }

    /** Makes room for `numberPrps` entries, in whole pages; `newPool` is the address of a new pool if one is needed. */
    method Reserve(numberPrps: nat, newPool: nat)
      requires Valid()
      modifies this
      ensures Valid()
      ensures numberPrps <= old(entryCount) ==> address == old(address) && words == old(words)
      ensures numberPrps > old(entryCount) ==>
        address == newPool && |words| == Multiple(perPage, PagesOf(numberPrps, perPage))
    {
      if numberPrps > entryCount {
        var numPages := (numberPrps + perPage - 1) / perPage;
        RoundedUp(numberPrps, perPage);
        address := newPool;
        words := seq(numPages * perPage, _ => 0);
        entryCount := perPage * numPages;
      }
    }

    /** `nvme_setup_physical_region_pools`. Every store lies in the pool and PRP1 with PRP2 or its list names the pages
        of the buffer, as a controller reads them, if and only if the buffer touches no more pages than a page of the
        pool has words. A call that allocates the pool anew stores outside it if and only if the buffer touches more.
        PRP2 itself is 0, the second page or the pool's address by the number of pages. */
    method SetupPrps(dmaAddress: nat, totalLength: nat, newPool: nat) returns (prp2: nat, inside: bool)
      requires Valid() && Apart(dmaAddress, totalLength, address, |words|)
      requires Apart(dmaAddress, totalLength, newPool, RoomFor(PageSpan(dmaAddress, totalLength, pageSize), perPage))
      modifies this
      ensures Valid() && (totalLength == 0 ==> prp2 == 0 && inside)
      ensures totalLength > 0 ==> Exact(dmaAddress, totalLength, prp2, inside)
      ensures totalLength > 0 ==>
        prp2 == SecondPrp(dmaAddress, PageSpan(dmaAddress, totalLength, pageSize), pageSize, address)
      ensures (address == old(address) && |words| == |old(words)|) ||
        (address == newPool && |words| == RoomFor(PageSpan(dmaAddress, totalLength, pageSize), perPage))
      ensures totalLength > 0 && PageSpan(dmaAddress, totalLength, pageSize) > old(entryCount) + 1 ==>
        (inside <==> PageSpan(dmaAddress, totalLength, pageSize) <= perPage)
    {
      inside := true;
      var offset := dmaAddress % pageSize;
      var length := totalLength - (pageSize - offset);
      if length <= 0 {
        prp2 := 0;
        if totalLength > 0 { SpanIs(dmaAddress, totalLength, pageSize, 1); }
        return;
      }
      var dma := dmaAddress + (pageSize - offset);
      if length <= pageSize {
        prp2 := dma;
        TwoPages(dmaAddress, totalLength, pageSize, dma);
        return;
      }
      prp2, inside := BuildList(dmaAddress, totalLength, length, dma, newPool);
    }

    /** The stores lie in the pool and describe the buffer if and only if it has no more pages than a page has words. */
    ghost predicate Exact(dma: nat, length: nat, prp2: nat, inside: bool)
      requires Valid()
      reads this
    {
      inside && Described(words, address, dma, prp2, length, perPage) <==> PageSpan(dma, length, pageSize) <= perPage
    }

    method CountPrps(ghost dmaAddress: nat, ghost totalLength: nat, length: nat) returns (numberPrps: nat)
      requires Valid() && length == totalLength - (pageSize - dmaAddress % pageSize) > pageSize
      ensures 1 < numberPrps == PageSpan(dmaAddress, totalLength, pageSize) - 1
    {
      numberPrps := (length + pageSize - 1) / pageSize;
      SpanIsPrps(dmaAddress, totalLength, pageSize, numberPrps);
    }

    /** A transfer of more than two pages. */
    method BuildList(ghost dmaAddress: nat, ghost totalLength: nat, length: nat, dma: nat, newPool: nat)
      returns (prp2: nat, inside: bool)
      requires Valid() && Apart(dmaAddress, totalLength, address, |words|)
      requires Apart(dmaAddress, totalLength, newPool, RoomFor(PageSpan(dmaAddress, totalLength, pageSize), perPage))
      requires length == totalLength - (pageSize - dmaAddress % pageSize) > pageSize
      requires dma == dmaAddress + (pageSize - dmaAddress % pageSize)
      modifies this
      ensures Valid() && Exact(dmaAddress, totalLength, prp2, inside)
      ensures prp2 == address && PageSpan(dmaAddress, totalLength, pageSize) > 2
      ensures (address == old(address) && |words| == |old(words)|) ||
        (address == newPool && |words| == RoomFor(PageSpan(dmaAddress, totalLength, pageSize), perPage))
      ensures PageSpan(dmaAddress, totalLength, pageSize) > old(entryCount) + 1 ==>
        (inside <==> PageSpan(dmaAddress, totalLength, pageSize) <= perPage)
    {
      var numberPrps := CountPrps(dmaAddress, totalLength, length);
      Reserve(numberPrps, newPool);
      SecondPage(dmaAddress, pageSize);
      inside := Fill(FirstPage(dmaAddress, pageSize), dma, numberPrps);
      prp2 := address;
      ListExactly(words, address, dmaAddress, totalLength, perPage, inside);
      RoomBounds(numberPrps, perPage);
    }
  }

  // ------------------------------------------------------------------ which commands can be described

  function SpanOf(c: Rw, perBlock: nat, pageSize: nat): nat
    requires pageSize > 0
  {
    PageSpan(c.prp1, Multiple(perBlock, c.length + 1), pageSize)
  }

  /** The buffer of a command touches no more pages than a page of the pool has words. */
  predicate Describable(c: Rw, perBlock: nat, pageSize: nat)
    requires pageSize > 0
  {
    SpanOf(c, perBlock, pageSize) <= pageSize / 8
  }

  predicate DescribableAt(blockCount: nat, buffer: nat, perBlock: nat, limit: nat, pageSize: nat, i: nat)
    requires pageSize > 0 && limit > 0 && Multiple(limit, i) < blockCount
  {
    Describable(Nth(0, blockCount, buffer, perBlock, limit, i), perBlock, pageSize)
  }

  /** All commands of a request can be described. */
  ghost predicate AllDescribable(blockCount: nat, buffer: nat, perBlock: nat, limit: nat, pageSize: nat)
    requires pageSize > 0 && limit > 0
  {
    forall i: nat {:trigger DescribableAt(blockCount, buffer, perBlock, limit, pageSize, i)} |
      Multiple(limit, i) < blockCount :: DescribableAt(blockCount, buffer, perBlock, limit, pageSize, i)
  }

  lemma OffsetStays(x: nat, k: nat, pageSize: nat)
    requires pageSize > 0
    ensures (x + Multiple(pageSize, k)) % pageSize == x % pageSize
  {
    MultipleIsProduct(pageSize, k);
    var q, r := x / pageSize, x % pageSize;
    var y := x + k * pageSize;
    assert y == (q + k) * pageSize + r;
    QuotientIs(y, pageSize, q + k);
    assert y == (y / pageSize) * pageSize + y % pageSize;
  }

  /** A shorter transfer at the same offset touches no more pages. */
  lemma SpanMonotone(a: nat, length: nat, b: nat, more: nat, pageSize: nat)
    requires pageSize > 0 && a % pageSize == b % pageSize && 0 < length <= more
    ensures PageSpan(a, length, pageSize) <= PageSpan(b, more, pageSize)
  {
    SpanBounds(a, length, pageSize);
    SpanBounds(b, more, pageSize);
    var m, n := PageSpan(a, length, pageSize), PageSpan(b, more, pageSize);
    if n < m { MultipleMonotone(pageSize, n, m - 1); }
  }

  lemma {:induction false} MultipleNested(a: nat, b: nat, n: nat)
    ensures Multiple(a, Multiple(b, n)) == Multiple(Multiple(a, b), n)
  {
    if n > 0 {
      MultipleNested(a, b, n - 1);
      MultipleSum(a, Multiple(b, n - 1), b);
    }
  }

  lemma PowersMultiply(a: nat, b: nat)
    ensures Multiple(Pow2(a), Pow2(b)) == Pow2(a + b)
  {
    MultipleIsProduct(Pow2(a), Pow2(b));
    Pow2Sum(a, b);
  }

  /** A whole number of full commands is a whole number of pages, if a command is not smaller than a page. */
  lemma CommandsArePages(transferShift: nat, lbaShift: nat, pageShift: nat, i: nat)
    requires lbaShift <= transferShift && pageShift <= transferShift
    ensures Multiple(Pow2(lbaShift), Multiple(Pow2(transferShift - lbaShift), i))
      == Multiple(Pow2(pageShift), Multiple(Pow2(transferShift - pageShift), i))
  {
    MultipleNested(Pow2(lbaShift), Pow2(transferShift - lbaShift), i);
    PowersMultiply(lbaShift, transferShift - lbaShift);
    MultipleNested(Pow2(pageShift), Pow2(transferShift - pageShift), i);
    PowersMultiply(pageShift, transferShift - pageShift);
  }

  /** A transfer that is not longer than a page touches at most two. */
  lemma ShortSpan(dma: nat, length: nat, pageSize: nat)
    requires 0 < length <= pageSize
    ensures PageSpan(dma, length, pageSize) <= 2
  {
    SpanBounds(dma, length, pageSize);
    var n := PageSpan(dma, length, pageSize);
    if n > 2 { MultipleMonotone(pageSize, 2, n - 1); }
  }

  lemma EighthOf(pageShift: nat)
    requires pageShift >= 4
    ensures Pow2(pageShift) / 8 == Pow2(pageShift - 3) >= 2
  {
    Pow2Monotone(1, pageShift - 3);
    assert Pow2(pageShift) == 2 * Pow2(pageShift - 1) && Pow2(pageShift - 1) == 2 * Pow2(pageShift - 2);
  }

  /** The first command of a request touches at least as many pages as any other, unless commands are too short to
      matter. */
  lemma FirstDecides(blockCount: nat, buffer: nat, transferShift: nat, lbaShift: nat, pageShift: nat, i: nat)
    requires lbaShift <= transferShift && pageShift >= 4
    requires Multiple(Pow2(transferShift - lbaShift), i) < blockCount
    requires DescribableAt(blockCount, buffer, Pow2(lbaShift), Pow2(transferShift - lbaShift), Pow2(pageShift), 0)
    ensures DescribableAt(blockCount, buffer, Pow2(lbaShift), Pow2(transferShift - lbaShift), Pow2(pageShift), i)
  {
    var perBlock, limit, pageSize := Pow2(lbaShift), Pow2(transferShift - lbaShift), Pow2(pageShift);
    var c, d := Nth(0, blockCount, buffer, perBlock, limit, i), Nth(0, blockCount, buffer, perBlock, limit, 0);
    MultipleMonotone(perBlock, c.length + 1, d.length + 1);
    MultipleMonotone(perBlock, 0, c.length + 1);
    if transferShift < pageShift {
      MultipleMonotone(perBlock, c.length + 1, limit);
      PowersMultiply(lbaShift, transferShift - lbaShift);
      Pow2Monotone(transferShift, pageShift);
      ShortSpan(c.prp1, Multiple(perBlock, c.length + 1), pageSize);
      EighthOf(pageShift);
    } else {
      CommandsArePages(transferShift, lbaShift, pageShift, i);
      OffsetStays(buffer, Multiple(Pow2(transferShift - pageShift), i), pageSize);
      SpanMonotone(c.prp1, Multiple(perBlock, c.length + 1), d.prp1, Multiple(perBlock, d.length + 1), pageSize);
    }
  }

  /** A command of 2^transferShift bytes is shorter than a page of the pool can list, or just as long and begins with a
      page. */
  predicate Listable(buffer: nat, transferShift: nat, pageShift: nat)
  {
    transferShift + 3 < 2 * pageShift || (transferShift + 3 == 2 * pageShift && buffer % Pow2(pageShift) == 0)
  }

  lemma FullSpan(buffer: nat, transferShift: nat, pageShift: nat)
    requires pageShift <= transferShift
    ensures PageSpan(buffer, Pow2(transferShift), Pow2(pageShift))
      == Pow2(transferShift - pageShift) + (if buffer % Pow2(pageShift) == 0 then 0 else 1)
  {
    var pageSize, q := Pow2(pageShift), Pow2(transferShift - pageShift);
    PowersMultiply(pageShift, transferShift - pageShift);
    MultipleMonotone(pageSize, q - 1, q);
    SpanIs(buffer, Pow2(transferShift), pageSize, if buffer % pageSize == 0 then q else q + 1);
  }

  lemma PowersOrdered(a: nat, b: nat)
    ensures (a < b ==> Pow2(a) < Pow2(b)) && (a > b ==> Pow2(a) > Pow2(b))
  {
    if a < b { Pow2Monotone(a, b); } else { Pow2Monotone(b, a); }
  }

  lemma FullExactly(buffer: nat, transferShift: nat, pageShift: nat)
    requires pageShift >= 4
    ensures PageSpan(buffer, Pow2(transferShift), Pow2(pageShift)) <= Pow2(pageShift) / 8
      <==> Listable(buffer, transferShift, pageShift)
  {
    EighthOf(pageShift);
    if transferShift < pageShift {
      Pow2Monotone(transferShift, pageShift);
      ShortSpan(buffer, Pow2(transferShift), Pow2(pageShift));
    } else {
      FullSpan(buffer, transferShift, pageShift);
      PowersOrdered(transferShift - pageShift, pageShift - 3);
    }
  }

  /** The commands of a request can all be described if and only if the first one can. For a request of at least one
      full command, that is so if and only if the buffer is `Listable`. */
  lemma DescribableExactly(blockCount: nat, buffer: nat, transferShift: nat, lbaShift: nat, pageShift: nat)
    requires lbaShift <= transferShift && pageShift >= 4 && blockCount > 0
    ensures AllDescribable(blockCount, buffer, Pow2(lbaShift), Pow2(transferShift - lbaShift), Pow2(pageShift))
      <==> PageSpan(buffer, Multiple(Pow2(lbaShift), Min(Pow2(transferShift - lbaShift), blockCount)), Pow2(pageShift))
             <= Pow2(pageShift) / 8
    ensures blockCount >= Pow2(transferShift - lbaShift) ==>
      (AllDescribable(blockCount, buffer, Pow2(lbaShift), Pow2(transferShift - lbaShift), Pow2(pageShift)) <==>
        Listable(buffer, transferShift, pageShift))
  {
    var perBlock, limit, pageSize := Pow2(lbaShift), Pow2(transferShift - lbaShift), Pow2(pageShift);
    assert Multiple(limit, 0) == 0 && Multiple(perBlock, 0) == 0;
    if DescribableAt(blockCount, buffer, perBlock, limit, pageSize, 0) {
      forall i: nat | Multiple(limit, i) < blockCount
        ensures DescribableAt(blockCount, buffer, perBlock, limit, pageSize, i)
      {
        FirstDecides(blockCount, buffer, transferShift, lbaShift, pageShift, i);
      }
    }
    PowersMultiply(lbaShift, transferShift - lbaShift);
    FullExactly(buffer, transferShift, pageShift);
  }

  /** The same for the commands that a request has issued. */
  lemma IssuedExactly(commands: seq<Rw>, blockNumber: nat, blockCount: nat, buffer: nat, transferShift: nat,
                      lbaShift: nat, pageShift: nat)
    requires lbaShift <= transferShift && pageShift >= 4 && commands != []
    requires FirstOnes(commands, blockNumber, blockCount, buffer, Pow2(lbaShift), Pow2(transferShift - lbaShift))
    ensures (forall c | c in commands :: Describable(c, Pow2(lbaShift), Pow2(pageShift)))
      <==> PageSpan(buffer, Multiple(Pow2(lbaShift), Min(Pow2(transferShift - lbaShift), blockCount)), Pow2(pageShift))
             <= Pow2(pageShift) / 8
  {
    var perBlock, limit, pageSize := Pow2(lbaShift), Pow2(transferShift - lbaShift), Pow2(pageShift);
    assert IsNth(commands[0], blockNumber, blockCount, buffer, perBlock, limit, 0);
    if Describable(commands[0], perBlock, pageSize) {
      forall i | 0 <= i < |commands| ensures Describable(commands[i], perBlock, pageSize) {
        assert IsNth(commands[i], blockNumber, blockCount, buffer, perBlock, limit, i);
        FirstDecides(blockCount, buffer, transferShift, lbaShift, pageShift, i);
      }
    }
  }

  // ------------------------------------------------------------------ a whole request

  /** Pools for the buffers of the commands do not overlap any of these buffers. */
  ghost predicate Clear(commands: seq<Rw>, perBlock: nat, address: nat, words: nat)
  {
    forall c | c in commands :: Apart(c.prp1, Multiple(perBlock, c.length + 1), address, words)
  }

  ghost predicate PoolsClear(commands: seq<Rw>, perBlock: nat, pageSize: nat, perPage: nat, pools: nat -> nat)
    requires pageSize > 0 && perPage > 0
  {
    forall i | 0 <= i < |commands| ::
      Clear(commands, perBlock, pools(i), RoomFor(SpanOf(commands[i], perBlock, pageSize), perPage))
  }

  /** What a set-up call leaves: the pool, the value of PRP2, and whether every store lay in the pool. */
  datatype Call = Call(words: seq<nat>, address: nat, prp2: nat, inside: bool)

  /** The call gives its command the right PRP2, and describes its buffer exactly if that can be described. */
  ghost predicate Serves(call: Call, c: Rw, perBlock: nat, perPage: nat)
    requires perPage >= 2
  {
    && call.prp2 == SecondPrp(c.prp1, SpanOf(c, perBlock, 8 * perPage), 8 * perPage, call.address)
    && (call.inside && Described(call.words, call.address, c.prp1, call.prp2, Multiple(perBlock, c.length + 1), perPage)
        <==> Describable(c, perBlock, 8 * perPage))
  }

  /** The set-up calls of a request, one per command, whose PRP2 the command then gets. `pools(i)` is the pool that call
      `i` gets if it allocates one. */
  method DescribeAll(pool: PrpPool, commands: seq<Rw>, perBlock: nat, pools: nat -> nat)
    returns (prp2s: seq<nat>, ghost calls: seq<Call>)
    requires pool.Valid() && perBlock > 0 && Clear(commands, perBlock, pool.address, |pool.words|)
    requires PoolsClear(commands, perBlock, pool.pageSize, pool.perPage, pools)
    modifies pool
    ensures pool.Valid() && |prp2s| == |calls| == |commands|
    ensures forall i | 0 <= i < |commands| ::
      prp2s[i] == calls[i].prp2 && Serves(calls[i], commands[i], perBlock, pool.perPage)
    ensures commands != [] ==> calls[|calls| - 1].words == pool.words && calls[|calls| - 1].address == pool.address
  {
    prp2s, calls := [], [];
    for i := 0 to |commands|
      invariant pool.Valid() && |prp2s| == |calls| == i && Clear(commands, perBlock, pool.address, |pool.words|)
      invariant forall k | 0 <= k < i ::
        prp2s[k] == calls[k].prp2 && Serves(calls[k], commands[k], perBlock, pool.perPage)
      invariant i > 0 ==> calls[i - 1].words == pool.words && calls[i - 1].address == pool.address
    {
      var prp2, inside := DescribeOne(pool, commands, i, perBlock, pools(i));
      prp2s := prp2s + [prp2];
      calls := calls + [Call(pool.words, pool.address, prp2, inside)];
    }
  }

  method DescribeOne(pool: PrpPool, commands: seq<Rw>, i: nat, perBlock: nat, newPool: nat)
    returns (prp2: nat, inside: bool)
    requires pool.Valid() && perBlock > 0 && i < |commands| && Clear(commands, perBlock, pool.address, |pool.words|)
    requires Clear(commands, perBlock, newPool, RoomFor(SpanOf(commands[i], perBlock, pool.pageSize), pool.perPage))
    modifies pool
    ensures pool.Valid() && Clear(commands, perBlock, pool.address, |pool.words|)
    ensures Serves(Call(pool.words, pool.address, prp2, inside), commands[i], perBlock, pool.perPage)
  {
    var c := commands[i];
    var size := SizeOf(c.length + 1, perBlock);
    MultipleMonotone(perBlock, 0, c.length + 1);
    assert c in commands;
    prp2, inside := pool.SetupPrps(c.prp1, size, newPool);
  }

  /** A first transfer of 2 MiB on 4096-byte pages whose buffer does not begin with a page has 512 entries to list, one
      page full, and stores outside the pool that it has just allocated for them. */
  method StoresOutside(address: nat, newPool: nat, dma: nat) returns (pool: PrpPool, prp2: nat, inside: bool)
    requires dma % 4096 != 0 && Apart(dma, 0x20_0000, address, 512) && Apart(dma, 0x20_0000, newPool, 512)
    ensures PageSpan(dma, 0x20_0000, 4096) == 513 && !inside
  {
    pool := new PrpPool(4096, address);
    assert PageSpan(dma, 0x20_0000, 4096) == 513;
    assert PagesOf(512, 512) == 1 && RoomFor(513, 512) == 512 by { assert Multiple(512, 1) == 512; }
    prp2, inside := pool.SetupPrps(dma, 0x20_0000, newPool);
  }
}
