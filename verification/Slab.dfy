/** One size class of the kernel heap: regions cut into entries of equal size, the free entries chained through their
    first words. Memory is an array of 8-byte words; an entry is named by the number of its first word, and its address
    is eight times that. */
module Slab {
  import opened Prelude

  /** The header area in words, for entries of `f` words. */
  function HeaderWords(f: nat): nat
  {
    if f == 1 then 2 else f
  }

  /** The original rounds the 8-byte header up in entries: to a multiple of the entry size above the header size. */
  lemma HeaderIs(f: nat)
    requires f > 0
    ensures 8 * HeaderWords(f) == (8 + 8 * f) / (8 * f) * (8 * f)
  {
    if f > 1 { assert (8 + 8 * f) / (8 * f) == 1; }
  }

  /** The number of entries in a region of `words` words: the size behind the header over the entry size. */
  function SlotCount(words: nat, f: nat): nat
    requires f > 0 && HeaderWords(f) <= words
  {
    (words - HeaderWords(f)) / f
  }

  /** The word at which entry `k` begins. */
  function WordOf(k: nat, f: nat): nat
  {
    HeaderWords(f) + Multiple(f, k)
  }

  /** Every entry lies inside the region, behind the header. */
  lemma SlotInside(words: nat, f: nat, k: nat)
    requires f > 0 && HeaderWords(f) <= words && k < SlotCount(words, f)
    ensures 1 <= HeaderWords(f) <= WordOf(k, f) && WordOf(k, f) + f <= words
  {
    var n := SlotCount(words, f);
    MultipleMonotone(f, k, n);
    MultipleIsProduct(f, n);
    assert n * f <= words - HeaderWords(f);
  }

  predicate Apart(j: nat, k: nat, f: nat)
  {
    WordOf(j, f) + f <= WordOf(k, f) || WordOf(k, f) + f <= WordOf(j, f)
  }

  /** Different entries do not overlap. */
  lemma SlotsApart(j: nat, k: nat, f: nat)
    requires f > 0 && j != k
    ensures Apart(j, k, f)
  {
    if j < k { MultipleMonotone(f, j, k); } else { MultipleMonotone(f, k, j); }
  }

  /** The sizes in bytes, as the original computes them. */
  lemma CountIs(words: nat, f: nat)
    requires f > 0 && HeaderWords(f) <= words
    ensures (8 * words - 8 * HeaderWords(f)) / (8 * f) == SlotCount(words, f)
  {
    var left, n := words - HeaderWords(f), SlotCount(words, f);
    assert n * f <= left < n * f + f;
    assert n * (8 * f) == 8 * (n * f);
    QuotientIs(8 * left, 8 * f, n);
  }

  // ------------------------------------------------------------------ what holds in every state

  /** The address of the `i`-th free entry, or 0 behind the last one. */
  ghost function Link(free: seq<nat>, i: nat): nat
  {
    if i < |free| then 8 * free[i] else 0
  }

  ghost predicate ChainedAt(free: seq<nat>, i: nat, memory: seq<nat>)
  {
    i < |free| && free[i] < |memory| && memory[free[i]] == Link(free, i + 1)
  }

  /** The free entries are chained through their first words. */
  ghost predicate Chained(free: seq<nat>, memory: seq<nat>)
  {
    forall i {:trigger ChainedAt(free, i, memory)} | 0 <= i < |free| :: ChainedAt(free, i, memory)
  }

  ghost predicate Distinct(s: seq<nat>)
  {
    forall i, j | 0 <= i < j < |s| :: s[i] != s[j]
  }

  /** What became of the entries: on the free list, handed out, or given back and not taken. */
  datatype Books = Books(free: seq<nat>, live: set<nat>, lost: set<nat>)

  ghost predicate Parted(b: Books, entries: set<nat>)
  {
    && Distinct(b.free)
    && (forall i | 0 <= i < |b.free| :: b.free[i] in entries && b.free[i] !in b.live && b.free[i] !in b.lost)
    && b.live !! b.lost && b.live <= entries && b.lost <= entries
    && (forall e | e in entries :: e in b.free || e in b.live || e in b.lost)
  }

  predicate Apart2(d: nat, e: nat, f: nat)
  {
    d + f <= e || e + f <= d
  }

  /** Entries lie in memory, apart from each other and from the headers. */
  ghost predicate Spaced(entries: set<nat>, headers: set<nat>, f: nat, size: nat)
  {
    && (forall e | e in entries :: 0 < e && e + f <= size)
    && (forall d, e | d in entries && e in entries && d != e :: Apart2(d, e, f))
    && (forall h, e | h in headers && e in entries :: h < e || e + f <= h)
  }

  /** Every header names the slab. */
  ghost predicate Named(memory: seq<nat>, headers: set<nat>, handle: nat)
  {
    forall h | h in headers :: h < |memory| && memory[h] == handle
  }

  ghost predicate Sound(memory: seq<nat>, firstFree: nat, b: Books, entries: set<nat>, headers: set<nat>, f: nat)
  {
    && f > 0 && firstFree == Link(b.free, 0)
    && Chained(b.free, memory) && Parted(b, entries) && Spaced(entries, headers, f, |memory|)
  }

  ghost function Elements(s: seq<nat>): (r: set<nat>)
    requires Distinct(s)
    ensures |r| == |s| && forall k :: k in r <==> k in s
  {
    if s == [] then {} else {s[0]} + Elements(s[1..])
  }

  /** Free, live and lost entries make up all entries. */
  lemma PartedCount(b: Books, entries: set<nat>)
    requires Parted(b, entries)
    ensures |b.free| + |b.live| + |b.lost| == |entries|
  {
    assert entries == Elements(b.free) + b.live + b.lost;
    assert |Elements(b.free) + b.live| == |b.free| + |b.live|;
  }

  // ------------------------------------------------------------------ pushing and popping

  /** Only the words of entry `e` may differ. */
  ghost predicate OnlyEntry(memory: seq<nat>, memory': seq<nat>, e: nat, f: nat)
  {
    |memory'| == |memory| && forall x | 0 <= x < |memory| && !(e <= x < e + f) :: memory'[x] == memory[x]
  }

  lemma PopKeeps(memory: seq<nat>, memory': seq<nat>, b: Books, entries: set<nat>, headers: set<nat>, f: nat)
    requires b.free != [] && Sound(memory, 8 * b.free[0], b, entries, headers, f) &&
      OnlyEntry(memory, memory', b.free[0], f)
    ensures b.free[0] < |memory|
    ensures Sound(memory', memory[b.free[0]], Books(b.free[1..], b.live + {b.free[0]}, b.lost), entries, headers, f)
  {
    var e, rest := b.free[0], b.free[1..];
    assert ChainedAt(b.free, 0, memory);
    forall i | 0 <= i < |rest| ensures ChainedAt(rest, i, memory') {
      assert ChainedAt(b.free, i + 1, memory);
      assert Apart2(e, b.free[i + 1], f);
    }
    forall d | d in entries ensures d in rest || d in b.live + {e} || d in b.lost {
      if d in b.free && d != e {
        var i :| 0 <= i < |b.free| && b.free[i] == d;
        assert rest[i - 1] == d;
      }
    }
  }

  lemma PushKeeps(memory: seq<nat>, firstFree: nat, b: Books, entries: set<nat>, headers: set<nat>, f: nat, e: nat)
    requires Sound(memory, firstFree, b, entries, headers, f) && e in entries && e !in b.free
    ensures e < |memory|
    ensures Sound(memory[e := firstFree], 8 * e, Books([e] + b.free, b.live - {e}, b.lost - {e}), entries, headers, f)
  {
    var all, memory' := [e] + b.free, memory[e := firstFree];
    forall i | 0 <= i < |all| ensures ChainedAt(all, i, memory') {
      if i > 0 {
        assert ChainedAt(b.free, i - 1, memory);
        assert all[i] == b.free[i - 1] != e;
      }
    }
    forall d | d in entries ensures d in all || d in b.live - {e} || d in b.lost - {e} {
      if d in b.free {
        var i :| 0 <= i < |b.free| && b.free[i] == d;
        assert all[i + 1] == d;
      }
    }
  }

  /** A chain that starts at a free entry which points back at the head of the list runs through the list and comes
      back. */
  lemma {:induction false} ChainReturns(memory: seq<nat>, free: seq<nat>, k: nat, again: seq<nat>, i: nat)
    requires Chained(free, memory) && Distinct(free) && k < |free| &&
      (forall j | 0 <= j < |free| :: 0 < free[j] < |memory|)
    requires Chained(again, memory[free[k] := Link(free, 0)]) && again != [] && again[0] == free[k] && i <= k
    ensures i + 1 < |again| && again[i + 1] == free[i]
  {
    var memory' := memory[free[k] := Link(free, 0)];
    if i == 0 {
      assert ChainedAt(again, 0, memory');
    } else {
      ChainReturns(memory, free, k, again, i - 1);
      assert ChainedAt(free, i - 1, memory) && ChainedAt(again, i, memory');
    }
  }

  /** The free list and the memory fit to some books about these entries. */
  ghost predicate Keepable(memory: seq<nat>, firstFree: nat, entries: set<nat>, headers: set<nat>, f: nat)
  {
    exists b :: Sound(memory, firstFree, b, entries, headers, f)
  }

  /** When an accepted address may come back: afterwards the books can be kept, with the same entries, if and only if
      the address is that of an entry that is not on the free list. */
  lemma PushSoundExactly(memory: seq<nat>, firstFree: nat, b: Books,
                         entries: set<nat>, headers: set<nat>, f: nat, e: nat)
    requires Sound(memory, firstFree, b, entries, headers, f) && 0 < e < |memory|
    ensures Keepable(memory[e := firstFree], 8 * e, entries, headers, f) <==> e in entries && e !in b.free
  {
    if e in entries && e !in b.free {
      PushKeeps(memory, firstFree, b, entries, headers, f, e);
    }
    var memory', address := memory[e := firstFree], 8 * e;
    forall b' | Sound(memory', address, b', entries, headers, f) ensures e in entries && e !in b.free {
      assert b'.free != [] && b'.free[0] == e;
      if e in b.free {
        var k :| 0 <= k < |b.free| && b.free[k] == e;
        ChainReturns(memory, b.free, k, b'.free, k);
      }
    }
  }

  // ------------------------------------------------------------------ a new region

  /** The entries of a region in order. */
  ghost function Listing(base: nat, n: nat, f: nat): (r: seq<nat>)
    ensures |r| == n && forall k | 0 <= k < n :: r[k] == base + WordOf(k, f)
  {
    seq(n, k requires k >= 0 => base + WordOf(k, f))
  }

  /** A region that overlaps no entry and no header. */
  ghost predicate Clear(base: nat, words: nat, entries: set<nat>, headers: set<nat>, f: nat)
  {
    && (forall e | e in entries :: e + f <= base || base + words <= e)
    && (forall h | h in headers :: h < base || base + words <= h)
  }

  lemma ListingDistinct(base: nat, n: nat, f: nat)
    requires f > 0
    ensures Distinct(Listing(base, n, f))
  {
    forall i, j | 0 <= i < j < n ensures Listing(base, n, f)[i] != Listing(base, n, f)[j] {
      MultipleMonotone(f, i, j);
    }
  }

  /** Entries inside a clear region, behind its first word. */
  ghost predicate Within(more: set<nat>, base: nat, words: nat, f: nat)
  {
    && (forall e | e in more :: base < e && e + f <= base + words)
    && (forall d, e | d in more && e in more && d != e :: Apart2(d, e, f))
  }

  lemma ListingWithin(base: nat, words: nat, f: nat, more: set<nat>)
    requires f > 0 && HeaderWords(f) <= words
    requires forall e :: e in more <==> e in Listing(base, SlotCount(words, f), f)
    ensures Within(more, base, words, f)
  {
    var n := SlotCount(words, f);
    var list := Listing(base, n, f);
    forall e | e in more ensures base < e && e + f <= base + words {
      var k :| 0 <= k < |list| && list[k] == e;
      SlotInside(words, f, k);
    }
    forall d, e | d in more && e in more && d != e ensures Apart2(d, e, f) {
      var j :| 0 <= j < |list| && list[j] == d;
      var k :| 0 <= k < |list| && list[k] == e;
      SlotsApart(j, k, f);
    }
  }

  lemma SpacedUnion(entries: set<nat>, headers: set<nat>, more: set<nat>, base: nat, words: nat, f: nat, size: nat)
    requires f > 0 && words > 0 && base + words <= size && Spaced(entries, headers, f, size) &&
      Clear(base, words, entries, headers, f)
    requires Within(more, base, words, f)
    ensures Spaced(entries + more, headers + {base}, f, size) && more !! entries
  {
  }

  /** A new region goes to a slab whose free list is empty. */
  lemma RegionKeeps(memory: seq<nat>, memory': seq<nat>, b: Books,
                    entries: set<nat>, headers: set<nat>, f: nat, base: nat,
                    words: nat, list: seq<nat>, more: set<nat>)
    requires f > 0 && 0 < base && 0 < words && base + words <= |memory| == |memory'|
    requires b.free == [] && Sound(memory, 0, b, entries, headers, f) && Clear(base, words, entries, headers, f)
    requires Distinct(list) && (forall e :: e in more <==> e in list) && Within(more, base, words, f) &&
      Chained(list, memory')
    ensures more !! entries && |entries + more| == |entries| + |more|
    ensures Sound(memory', Link(list, 0), b.(free := list), entries + more, headers + {base}, f)
  {
    SpacedUnion(entries, headers, more, base, words, f, |memory|);
    NewParted(b, entries, list, more);
  }

  lemma NewParted(b: Books, entries: set<nat>, list: seq<nat>, more: set<nat>)
    requires b.free == [] && Parted(b, entries) && Distinct(list) && more !! entries && forall e ::
      e in more <==> e in list
    ensures Parted(b.(free := list), entries + more)
  {
    assert forall k | 0 <= k < |list| :: list[k] in list;
  }

  /** The loop of `heap_create_slab`: links the entries of a region in order. */
  method Thread(memory: array<nat>, base: nat, f: nat, count: nat)
    requires f > 0 && count > 0 && base + WordOf(count - 1, f) < memory.Length
    modifies memory
    ensures Chained(Listing(base, count, f), memory[..])
    ensures forall x | 0 <= x < memory.Length && !(base + HeaderWords(f) <= x <= base + WordOf(count - 1, f)) ::
      memory[x] == old(memory[x])
  {
    var max := count - 1;
    var i, w := 0, base + HeaderWords(f);
    while i < max
      invariant 0 <= i <= max && w == base + WordOf(i, f) <= base + WordOf(max, f)
      invariant forall j | 0 <= j < i :: LinksOn(memory[..], j, base, f)
      invariant forall x | 0 <= x < memory.Length && !(base + HeaderWords(f) <= x < w) :: memory[x] == old(memory[x])
    {
      ghost var before := memory[..];
      MultipleMonotone(f, i + 1, max);
      memory[w] := 8 * (w + f);
      LinksStay(before, memory[..], i, w, base, f);
      assert LinksOn(memory[..], i, base, f);
      i, w := i + 1, w + f;
    }
    ghost var before := memory[..];
    memory[w] := 0;
    LinksStay(before, memory[..], max, w, base, f);
    ghost var list := Listing(base, count, f);
    forall j | 0 <= j < count ensures ChainedAt(list, j, memory[..]) {
      if j < max { assert LinksOn(memory[..], j, base, f); }
    }
  }

  lemma LinksStay(memory: seq<nat>, memory': seq<nat>, n: nat, w: nat, base: nat, f: nat)
    requires f > 0 && w == base + WordOf(n, f) < |memory| && forall j | 0 <= j < n :: LinksOn(memory, j, base, f)
    requires |memory'| == |memory| && forall x | 0 <= x < w :: memory'[x] == memory[x]
    ensures forall j | 0 <= j < n :: LinksOn(memory', j, base, f)
  {
    forall j | 0 <= j < n ensures LinksOn(memory', j, base, f) {
      assert LinksOn(memory, j, base, f);
      MultipleMonotone(f, j, n);
    }
  }

  ghost predicate LinksOn(memory: seq<nat>, j: nat, base: nat, f: nat)
  {
    base + WordOf(j, f) < |memory| && memory[base + WordOf(j, f)] == 8 * (base + WordOf(j + 1, f))
  }

  /** The header size in bytes and the number of entries, as `heap_create_slab` computes them. */
  method Measure(words: nat, f: nat) returns (headerOffset: nat, count: nat)
    requires f > 0 && HeaderWords(f) <= words
    ensures headerOffset == 8 * HeaderWords(f) && count == SlotCount(words, f)
  {
    HeaderIs(f);
    CountIs(words, f);
    headerOffset := (8 + 8 * f) / (8 * f) * (8 * f);
    count := (8 * words - headerOffset) / (8 * f);
  }

  /** Writes the header and the links of a region. */
  method LayOut(memory: array<nat>, base: nat, words: nat, f: nat, count: nat, handle: nat)
    requires f > 0 && count > 0 && base + words <= memory.Length && WordOf(count - 1, f) < words
    modifies memory
    ensures Chained(Listing(base, count, f), memory[..]) && memory[base] == handle
    ensures forall x | 0 <= x < memory.Length && !(base <= x < base + words) :: memory[x] == old(memory[x])
  {
    memory[base] := handle;
    Thread(memory, base, f, count);
  }

  class Slab {
    const handle: nat            // the address of this structure, which every header holds
    const memory: array<nat>
    const factor: nat            // words per entry
    var start: nat               // the present region: its first word,
    var length: nat              // its words,
    var endAddress: nat          // and the bound that addresses are held against
    var firstFree: nat           // 0 stands for none
    ghost var books: Books
    ghost var entries: set<nat>  // the entries of all regions so far
    ghost var headers: set<nat>

    ghost predicate Valid()
      reads this, memory
    {
      && Sound(memory[..], firstFree, books, entries, headers, factor)
      && endAddress == 8 * start + 64 * length
      && Named(memory[..], headers, handle)
    }

    constructor (memory: array<nat>, factor: nat, handle: nat)
      requires factor > 0
      ensures Valid() && books == Books([], {}, {}) && entries == {} && this.memory == memory && this.factor == factor
    {
      this.memory, this.factor, this.handle := memory, factor, handle;
      start, length, endAddress, firstFree := 0, 0, 0, 0;
      books, entries, headers := Books([], {}, {}), {}, {};
    }

    /** What every state guarantees: free, live and lost entries make up all entries, none is two of these, and entries
        lie apart from each other and from every header. Every header still names the slab. */
    lemma Safe()
      requires Valid()
      ensures |books.free| + |books.live| + |books.lost| == |entries| && Parted(books, entries)
      ensures Spaced(entries, headers, factor, memory.Length) && Named(memory[..], headers, handle)
    {
      PartedCount(books, entries);
    }

    /** `heap_create_slab` on the region that the page allocator returned. The end address is the start plus the size in
        bytes, but the sum is formed on a pointer to pointers, which scales the size by eight. */
    method CreateSlab(base: nat, words: nat)
      requires Valid() && books.free == [] && 0 < base && base + words <= memory.Length
      requires HeaderWords(factor) <= words && SlotCount(words, factor) > 0 &&
        Clear(base, words, entries, headers, factor)
      modifies this`start, this`length, this`endAddress, this`firstFree, this`books, this`entries, this`headers, memory
      ensures Valid() && start == base && length == words && headers == old(headers) + {base}
      ensures books == old(books).(free := Listing(base, SlotCount(words, factor), factor))
      ensures old(entries) <= entries && |entries| == |old(entries)| + SlotCount(words, factor)
      ensures forall x | 0 <= x < memory.Length && !(base <= x < base + words) :: memory[x] == old(memory[x])
    {
      var headerOffset, count := Measure(words, factor);
      SlotInside(words, factor, count - 1);
      ghost var more := Members(base, count, factor);
      ListingDistinct(base, count, factor);
      ListingWithin(base, words, factor, more);
      Install(base, words, headerOffset, count, more);
    }

    method Install(base: nat, words: nat, headerOffset: nat, count: nat, ghost more: set<nat>)
      requires Valid() && books.free == [] && 0 < base && base + words <= memory.Length &&
        headerOffset == 8 * HeaderWords(factor)
      requires count > 0 && WordOf(count - 1, factor) < words && Clear(base, words, entries, headers, factor)
      requires Distinct(Listing(base, count, factor)) && forall e :: e in more <==> e in Listing(base, count, factor)
      requires Within(more, base, words, factor) && |more| == count
      modifies this`start, this`length, this`endAddress, this`firstFree, this`books, this`entries, this`headers, memory
      ensures Valid() && start == base && length == words && headers == old(headers) + {base}
      ensures books == old(books).(free := Listing(base, count, factor))
      ensures old(entries) <= entries && |entries| == |old(entries)| + count
      ensures forall x | 0 <= x < memory.Length && !(base <= x < base + words) :: memory[x] == old(memory[x])
    {
      start, length := base, words;
      endAddress := 8 * base + 8 * (8 * words);
      firstFree := 8 * base + headerOffset;
      LayOut(memory, base, words, factor, count, handle);
      ghost var list := Listing(base, count, factor);
      assert Named(memory[..], headers + {base}, handle);
      RegionKeeps(old(memory[..]), memory[..], books, entries, headers, factor, base, words, list, more);
      books, entries, headers := books.(free := list), entries + more, headers + {base};
    }

    /** `heap_allocate_from_slab`: an empty slab is created anew on a region of `words` words at `base`. */
    method Allocate(base: nat, words: nat) returns (p: nat)
      requires Valid() && 0 < base && base + words <= memory.Length
      requires HeaderWords(factor) <= words && SlotCount(words, factor) > 0 &&
        Clear(base, words, entries, headers, factor)
      modifies this`start, this`length, this`endAddress, this`firstFree, this`books, this`entries, this`headers, memory
      ensures Valid() && p % 8 == 0 && p / 8 !in old(books.live) && Zeroed(memory[..], p / 8, factor)
      ensures old(books.free) != [] ==>
        p == 8 * old(books.free)[0] && entries == old(entries) && headers == old(headers)
      ensures old(books.free) != [] ==> start == old(start) && length == old(length)
      ensures old(books.free) != [] ==> OnlyEntry(old(memory[..]), memory[..], p / 8, factor)
      ensures old(books.free) == [] ==> p == 8 * (base + HeaderWords(factor)) && start == base && length == words
      ensures old(books.free) == [] ==> headers == old(headers) + {base} && old(entries) <= entries
      ensures old(books.free) == [] ==> |entries| == |old(entries)| + SlotCount(words, factor)
      ensures var all := if old(books.free) == [] then Listing(base, SlotCount(words, factor), factor)
        else old(books.free);
        all != [] && books == Books(all[1..], old(books.live) + {p / 8}, old(books.lost))
    {
      if firstFree == 0 {
        CreateSlab(base, words);
      }
      p := Pop();
    }

    method Pop() returns (p: nat)
      requires Valid() && books.free != []
      modifies this`firstFree, this`books, memory
      ensures Valid() && p == 8 * old(books.free)[0] && Zeroed(memory[..], p / 8, factor)
      ensures books == Books(old(books.free)[1..], old(books.live) + {p / 8}, old(books.lost))
      ensures OnlyEntry(old(memory[..]), memory[..], p / 8, factor)
    {
      ghost var e := books.free[0];
      assert ChainedAt(books.free, 0, memory[..]) && e in entries;
      p := firstFree;
      var w := p / 8;
      firstFree := memory[w];
      for j := 0 to factor
        modifies memory
        invariant forall x | 0 <= x < memory.Length :: memory[x] == if w <= x < w + j then 0 else old(memory[x])
      {
        memory[w + j] := 0;
      }
      PopKeeps(old(memory[..]), memory[..], books, entries, headers, factor);
      books := Books(books.free[1..], books.live + {e}, books.lost);
    }

    /** The range test of `heap_free_in_slab`: it accepts addresses up to eight region sizes behind the start. */
    predicate Accepts(address: nat)
      reads this
    {
      address != 0 && 8 * start <= address <= 8 * start + 64 * length
    }

    /** `heap_free_in_slab`. A live entry of any region comes back to the free list if its address is accepted, and is
        lost if it is not. */
    method Free(address: nat)
      requires Valid() && address % 8 == 0 && (Accepts(address) ==> address / 8 < memory.Length)
      modifies this`firstFree, this`books, memory
      ensures !Accepts(address) ==> firstFree == old(firstFree) && memory[..] == old(memory[..])
      ensures Accepts(address) ==> firstFree == address && memory[..] == old(memory[..])[address / 8 := old(firstFree)]
      ensures var e, was := address / 8, old(books);
        && (e in was.live && Accepts(address) ==> Valid() && books == Books([e] + was.free, was.live - {e}, was.lost))
        && (e in was.live && !Accepts(address) ==>
             Valid() && books == was.(live := was.live - {e}, lost := was.lost + {e}))
        && (Accepts(address) ==>
             (Keepable(memory[..], firstFree, entries, headers, factor) <==> e in entries && e !in was.free))
    {
      ghost var e := address / 8;
      if address == 0 {
        return;
      }
      if address > endAddress || address < 8 * start {
        if e in books.live {
          books := books.(live := books.live - {e}, lost := books.lost + {e});
        }
        return;
      }
      PushSoundExactly(memory[..], firstFree, books, entries, headers, factor, e);
      if e in books.live {
        PushKeeps(memory[..], firstFree, books, entries, headers, factor, e);
        books := Books([e] + books.free, books.live - {e}, books.lost);
      }
      memory[address / 8] := firstFree;
      firstFree := address;
    }
  }

  ghost function Members(base: nat, n: nat, f: nat): (r: set<nat>)
    requires f > 0
    ensures |r| == n && forall e :: e in r <==> e in Listing(base, n, f)
  {
    ListingDistinct(base, n, f);
    Elements(Listing(base, n, f))
  }

  ghost predicate Zeroed(memory: seq<nat>, e: nat, f: nat)
  {
    e + f <= |memory| && forall x | e <= x < e + f :: memory[x] == 0
  }

  /** A run that takes an entry back into a region it is not in: the slab has run empty, its next region lies below the
      present one by at most seven region sizes, and then a live entry of the present region is freed. */
  method OldEntryReturns(slab: Slab, base: nat, words: nat, earlier: nat)
    requires slab.Valid() && slab.books.free == [] && earlier in slab.books.live
    requires 0 < base && base + words <= earlier <= base + 8 * words && base + words <= slab.memory.Length
    requires HeaderWords(slab.factor) <= words && SlotCount(words, slab.factor) > 0
    requires Clear(base, words, slab.entries, slab.headers, slab.factor)
    modifies slab, slab.memory
    ensures slab.Valid() && slab.start == base && slab.length == words
    ensures slab.books.free != [] && slab.books.free[0] == earlier &&
      !(slab.start <= earlier < slab.start + slab.length)
  {
    var p := slab.Allocate(base, words);
    ReturnEntry(slab, earlier);
  }

  method ReturnEntry(slab: Slab, e: nat)
    requires slab.Valid() && e in slab.books.live && slab.start <= e <= slab.start + 8 * slab.length
    modifies slab`firstFree, slab`books, slab.memory
    ensures slab.Valid() && slab.books.free == [e] + old(slab.books.free)
  {
    assert e in slab.entries && (8 * e) / 8 == e && slab.Accepts(8 * e);
    slab.Free(8 * e);
  }
}
