/** Sizes: pages of 512 bytes, block classes for small objects, and where blocks lie in a page. */
module Blocks {

  const PAGE: nat := 512
  const HEADER: nat := 8
  const CLASSES: nat := 13

  /** Class of an object of 8(i+1) bytes, header included. */
  function BlockChain(i: nat): nat
    requires i < 32
  {
    match i
    case 0 => 0 case 1 => 0 case 2 => 1 case 3 => 2 case 4 => 3 case 5 => 4 case 6 => 5 case 7 => 6
    case 8 => 7 case 9 => 8 case 10 => 9 case 11 => 9 case 12 => 10 case 13 => 10 case 14 => 10
    case 15 => 10 case 16 => 11 case 17 => 11 case 18 => 11 case 19 => 11 case 20 => 11
    case 21 => 12 case 22 => 12 case 23 => 12 case 24 => 12 case 25 => 12 case 26 => 12
    case 27 => 12 case 28 => 12 case 29 => 12 case 30 => 12 case _ => 12
  }

  /** Size of the block such an object gets. */
  function BlockSize(i: nat): nat
    requires i < 32
  {
    match i
    case 0 => 16 case 1 => 16 case 2 => 24 case 3 => 32 case 4 => 40 case 5 => 48 case 6 => 56
    case 7 => 64 case 8 => 72 case 9 => 80 case 10 => 96 case 11 => 96 case 12 => 128 case 13 => 128
    case 14 => 128 case 15 => 128 case 16 => 168 case 17 => 168 case 18 => 168 case 19 => 168
    case 20 => 168 case 21 => 256 case 22 => 256 case 23 => 256 case 24 => 256 case 25 => 256
    case 26 => 256 case 27 => 256 case 28 => 256 case 29 => 256 case 30 => 256 case _ => 256
  }

  /** Block size of a class. */
  function ClassSize(c: nat): nat
    requires c < CLASSES
  {
    match c
    case 0 => 16 case 1 => 24 case 2 => 32 case 3 => 40 case 4 => 48 case 5 => 56 case 6 => 64
    case 7 => 72 case 8 => 80 case 9 => 96 case 10 => 128 case 11 => 168 case _ => 256
  }

  /** Number of pages that hold `n` bytes. */
  function Pages(n: nat): (p: nat)
    ensures Adr(p) - PAGE < n <= Adr(p)
  {
    (n + PAGE - 1) / PAGE
  }

  /** An object whose payload has `size` bytes shares a page with others of its class. */
  predicate IsSmall(size: nat) { size + HEADER <= PAGE / 2 }

  /** These are just the objects for which there is a block that holds them. */
  lemma SmallIff(size: nat)
    ensures IsSmall(size) <==> exists c :: 0 <= c < CLASSES && size + HEADER <= ClassSize(c)
  {
    assert ClassSize(12) == PAGE / 2;
  }

  function SizeIndex(size: nat): (i: nat)
    requires IsSmall(size)
    ensures i < 32
  {
    (size + HEADER + 7) / 8 - 1
  }

  function ClassOf(size: nat): (c: nat)
    requires IsSmall(size)
    ensures c < CLASSES
  {
    BlockChain(SizeIndex(size))
  }

  /** The tables agree: a block holds the object and its header, and is that of the smallest class
      that does. */
  lemma BlockFits(size: nat)
    requires IsSmall(size)
    ensures BlockSize(SizeIndex(size)) == ClassSize(ClassOf(size))
    ensures size + HEADER <= ClassSize(ClassOf(size))
    ensures forall c :: 0 <= c < CLASSES && size + HEADER <= ClassSize(c) ==> ClassOf(size) <= c
  {
    assert 8 * SizeIndex(size) < size + HEADER <= 8 * (SizeIndex(size) + 1);
  }

  /** `b` is the address of a block of `z` bytes in the page at `page`. */
  predicate IsBlock(b: nat, page: nat, z: nat)
    requires 0 < z
  {
    page <= b && b + z <= page + PAGE && (b - page) % z == 0
  }

  /** Address of page number `s`. */
  function Adr(s: nat): nat { PAGE * s }

  /** Number of the page that address `a` lies in. */
  function PageOf(a: nat): (s: nat)
    ensures Adr(s) <= a < Adr(s) + PAGE
  {
    a / PAGE
  }

  lemma PageOfAdr(s: nat)
    ensures PageOf(Adr(s)) == s
  {
  }

  lemma BlockSizes(c: nat)
    requires c < CLASSES
    ensures 16 <= ClassSize(c) <= 256
  {
  }

  /** The address arithmetic by which a block is found from any address inside it. */
  lemma BlockStart(b: nat, page: nat, z: nat, addr: nat)
    requires 0 < z && IsBlock(b, page, z) && b <= addr < b + z
    ensures (addr - page) - (addr - page) % z == b - page
  {
    var k := (b - page) / z;
    assert b - page == k * z;
    assert addr - page == k * z + (addr - b);
    DivModUnique(addr - page, z, k, addr - b);
  }

  lemma MulMono(x: int, y: int, z: nat)
    ensures x <= y ==> x * z <= y * z
  {
  }

  lemma DivModUnique(n: nat, z: nat, k: nat, r: nat)
    requires 0 < z && n == k * z + r && r < z
    ensures n / z == k && n % z == r
  {
    var q, m := n / z, n % z;
    assert q * z + m == n;
    MulMono(q + 1, k, z);
    MulMono(k + 1, q, z);
  }

  /** Among the block sizes, those that are powers of two. */
  predicate IsPowerOfTwo(z: nat) { z == 16 || z == 32 || z == 64 || z == 128 || z == 256 }

  lemma ModShift(n: nat, m: nat, z: nat)
    requires 0 < z
    ensures (n + m * z) % z == n % z
  {
    var q, r := n / z, n % z;
    assert n + m * z == (q + m) * z + r;
    DivModUnique(n + m * z, z, q + m, r);
  }

  /** Masking the low bits of an address is the same as going back to a block start in the page. */
  lemma MaskedStart(s: nat, addr: nat, z: nat)
    requires IsPowerOfTwo(z) && Adr(s) <= addr
    ensures addr % z == (addr - Adr(s)) % z
  {
    var k := if z == 16 then 32 else if z == 32 then 16 else if z == 64 then 8 else if z == 128 then 4 else 2;
    assert Adr(s) == (k * s) * z;
    ModShift(addr - Adr(s), k * s, z);
  }

  lemma ModAtMost(n: nat, z: nat)
    requires 0 < z
    ensures 0 <= n % z <= n
  {
    if n < z { DivModUnique(n, z, 0, n); }
  }

  /** Start of the block of `z` bytes that `addr` lies in, as the header lookup computes it. */
  function StartOf(addr: nat, z: nat): nat
    requires 0 < z
  {
    ModAtMost(addr, z); ModAtMost(addr % PAGE, z); ModAtMost(addr, PAGE);
    if IsPowerOfTwo(z) then addr - addr % z else addr - addr % PAGE % z
  }

  lemma StartOfBlock(a: nat, s: nat, z: nat, addr: nat)
    requires 0 < z && IsBlock(a, Adr(s), z) && a <= addr < a + z
    ensures StartOf(addr, z) == a
  {
    BlockStart(a, Adr(s), z, addr);
    assert addr % PAGE == addr - Adr(s) by { PageOffset(s, addr); }
    if IsPowerOfTwo(z) { MaskedStart(s, addr, z); }
  }

  lemma PageOffset(s: nat, addr: nat)
    requires Adr(s) <= addr < Adr(s) + PAGE
    ensures addr % PAGE == addr - Adr(s) && PageOf(addr) == s
  {
  }

  /** Blocks of one page do not overlap. */
  lemma BlocksApart(a: nat, b: nat, page: nat, z: nat)
    requires 0 < z && IsBlock(a, page, z) && IsBlock(b, page, z) && a < b
    ensures a + z <= b
  {
    var i, j := (a - page) / z, (b - page) / z;
    assert a - page == i * z && b - page == j * z;
    MulMono(j, i, z);
    MulMono(i + 1, j, z);
  }

  /** The block after `b`, if the page has room for one. */
  lemma NextBlock(b: nat, page: nat, z: nat)
    requires 0 < z && IsBlock(b, page, z)
    ensures b + 2 * z <= page + PAGE ==> IsBlock(b + z, page, z)
  {
    var k := (b - page) / z;
    assert b - page == k * z;
    assert b + z - page == (k + 1) * z;
    DivModUnique(b + z - page, z, k + 1, 0);
  }

  // ---------- Size of the page map ----------

  /** Bytes of a bitmap for a file of `fileSize` bytes that will hold the bitmap too. */
  function MapBytes(fileSize: nat): nat { (fileSize + HEADER + PAGE * 8 - 2) / (PAGE * 8 - 1) }

  /** Payload of a page map with room for `m` bytes, `factor` times as many pages as needed. */
  function MapSize(m: nat, factor: nat): nat
    requires 0 < factor
  {
    Adr(Pages(m + HEADER)) * factor - HEADER
  }

  /** The bitmap is the shortest with a bit for each page of the file and of the bitmap itself, header included. */
  lemma MapBytesLeast(fileSize: nat, m: nat)
    ensures m >= MapBytes(fileSize) <==> fileSize + m + HEADER <= m * 8 * PAGE
  {
    EnoughBytes(fileSize + HEADER);
    var k := MapBytes(fileSize);
    assert fileSize + HEADER <= 4095 * k < fileSize + HEADER + 4095;
    if m >= k { MulMono(k, m, 4095); } else { MulMono(m + 1, k, 4095); }
  }

  /** Object and header of a page map are `factor` times the whole pages that hold the bitmap and a header. */
  lemma MapSizeIs(m: nat, factor: nat)
    requires 0 < factor
    ensures exists k: nat :: MapSize(m, factor) + HEADER == Adr(k) * factor && Adr(k) - PAGE < m + HEADER <= Adr(k)
  {
    var k := Pages(m + HEADER);
    MulMono(1, factor, Adr(k));
    assert MapSize(m, factor) + HEADER == Adr(k) * factor;
  }

  /** A page map of `size` bytes is what a file of `end` pages gets. */
  ghost predicate MapFor(size: nat, end: nat, factor: nat) {
    exists m: nat, k: nat {:trigger IsLeast(m, end), Adr(k)} ::
      IsLeast(m, end) && size + HEADER == Adr(k) * factor && Adr(k) - PAGE < m + HEADER <= Adr(k)
  }

  /** `m` is the least number of bytes that have a bit for each page of the file and of themselves with a header. */
  ghost predicate IsLeast(m: nat, end: nat) {
    && Adr(end) + m + HEADER <= m * 8 * PAGE
    && forall x: nat :: Adr(end) + x + HEADER <= x * 8 * PAGE ==> m <= x
  }

  lemma MapForIs(end: nat, factor: nat)
    requires 0 < factor
    ensures MapFor(MapSize(MapBytes(Adr(end)), factor), end, factor)
  {
    var m := MapBytes(Adr(end));
    MapBytesLeast(Adr(end), m);
    forall x: nat | Adr(end) + x + HEADER <= x * 8 * PAGE ensures m <= x { MapBytesLeast(Adr(end), x); }
    assert IsLeast(m, end);
    MapSizeIs(m, factor);
  }

  /** The bound closes: a map sized for the present file also has a bit for each page that it adds
      to the file itself. */
  lemma MapCovers(end: nat, factor: nat)
    requires 1 <= end && (factor == 1 || factor == 2 || factor == 8)
    ensures var size := MapSize(MapBytes(Adr(end)), factor);
            !IsSmall(size) && end + Pages(size + HEADER) <= 8 * size && MapBytes(Adr(end)) <= size
  {
    var m := MapBytes(Adr(end));
    var k := Pages(m + HEADER);
    var n := if factor == 1 then k else if factor == 2 then 2 * k else 8 * k;
    EnoughBytes(Adr(end) + HEADER);
    assert MapSize(m, factor) + HEADER == Adr(n);
    WholePages(n);
  }

  /** The division rounds up. */
  lemma EnoughBytes(n: nat)
    ensures (PAGE * 8 - 1) * ((n + PAGE * 8 - 2) / (PAGE * 8 - 1)) >= n
  {
  }

  lemma WholePages(n: nat)
    ensures Pages(Adr(n)) == n
  {
  }

  /** A map that has become too small for `end` pages is shorter than the one that replaces it. */
  lemma MapGrows(end: nat, bytes: nat)
    requires Adr(end) > bytes * PAGE * 8
    ensures bytes < MapBytes(Adr(end))
  {
  }
}
