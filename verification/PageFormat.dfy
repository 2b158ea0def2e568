/** The entry format and address split of 4-level paging (Intel 64 and IA-32 Software
    Developer's Manual, volume 3A, section 4.5), as paging.h encodes and decodes it.
    Masks and shifts are written as division and remainder by powers of two. */
module PageFormat {
  import opened Machine

  const ENTRIES: nat := 512
  const PHYS_LIMIT: nat := 0x8_0000_0000_0000       // 2^51, page_table_phys_address drops the rest
  const MASK_LIMIT: nat := 0x10_0000_0000_0000      // 2^52, the first bit above PAGE_ADDR_MASK
  const PAGES: nat := 0x10_0000_0000                // 2^36 pages in a 48-bit address space

  type Word = w: nat | w < WORD
  type Table = t: seq<Word> | |t| == ENTRIES witness seq(ENTRIES, _ => 0)

  /** A frame the allocator may hand out: page aligned, non-null and below 2^51. */
  predicate IsFrame(f: nat) {
    0 < f < PHYS_LIMIT && f % PAGE_SIZE == 0
  }

  /** PAGE_PRESENT | PAGE_RW */
  const BASIC_ATTRIBUTES: nat := 3

  /** `frame & PAGE_ADDR_MASK | create_basic_page_attributes()`; the mask clears bits 0 and 1. */
  function Encode(frame: nat): Word {
    (frame % MASK_LIMIT) / PAGE_SIZE * PAGE_SIZE + BASIC_ATTRIBUTES
  }

  predicate Present(entry: Word) {
    entry % 2 == 1
  }

  function PhysAddress(entry: Word): nat {
    (entry % PHYS_LIMIT) / PAGE_SIZE * PAGE_SIZE
  }

  /** Decoding an encoded address gives it back for exactly the aligned addresses below 2^51. */
  lemma DecodeEncode(f: nat)
    ensures Present(Encode(f))
    ensures PhysAddress(Encode(f)) == f <==> f % 4096 == 0 && f < 0x8_0000_0000_0000
  {
    var m := f % MASK_LIMIT;
    var e := Encode(f);
    assert e == m - m % PAGE_SIZE + 3;
    if f % PAGE_SIZE == 0 && f < PHYS_LIMIT {
      assert m == f && e == f + 3 && e % PHYS_LIMIT == e;
    }
  }

  /** Bit 51 of an address is stored although it is not read back; the bits above it are not stored. */
  lemma EncodeHighBits()
    ensures Encode(0x8_0000_0000_0000) == 0x8_0000_0000_0003 && PhysAddress(0x8_0000_0000_0003) == 0
    ensures Encode(0x10_0000_0000_0000) == 3
  {
  }

  /** What map_to_page stores for a frame: bits 0 and 1 set, the frame's address, and every other bit clear. */
  lemma EncodeWord(f: nat)
    requires IsFrame(f)
    ensures Encode(f) == f + 3 && Encode(f) % 4096 == 3 && Encode(f) < 0x8_0000_0000_0000
  {
    assert f % MASK_LIMIT == f;
  }

  /** Present and writable. */
  predicate IsWritable(entry: Word) {
    entry % 4 == 3
  }

  /** Present, writable, a page address below 2^51, and nothing else. */
  predicate IsBasic(entry: Word) {
    entry % PAGE_SIZE == 3 && entry < PHYS_LIMIT
  }

  lemma BasicIsWritable(entry: Word)
    ensures IsBasic(entry) ==> IsWritable(entry) && Present(entry)
    ensures IsWritable(entry) ==> Present(entry)
  {
  }

  /** The page an address lies in: bits 12 to 47. */
  function Page(va: nat): (page: nat)
    ensures page < PAGES
  {
    va / PAGE_SIZE % PAGES
  }

  /** calculate_pt_indices: the pgd, pud, pmd and pt index of an address. */
  function Indices(va: nat): (path: seq<nat>)
    ensures |path| == 4 && forall k | 0 <= k < 4 :: path[k] < ENTRIES
  {
    [va / 0x80_0000_0000 % ENTRIES, va / 0x4000_0000 % ENTRIES, va / 0x20_0000 % ENTRIES, va / PAGE_SIZE % ENTRIES]
  }

  lemma NestedDivision(va: nat)
    ensures va / 0x20_0000 == va / 0x1000 / 512
    ensures va / 0x4000_0000 == va / 0x20_0000 / 512
    ensures va / 0x80_0000_0000 == va / 0x4000_0000 / 512
  {
  }

  lemma LastOfFour(v: nat)
    ensures v % PAGES == v / 512 % 0x800_0000 * 512 + v % 512
  {
  }

  lemma LastOfThree(v: nat)
    ensures v % 0x800_0000 == v / 512 % 0x4_0000 * 512 + v % 512
  {
  }

  lemma LastOfTwo(v: nat)
    ensures v % 0x4_0000 == v / 512 % 512 * 512 + v % 512
  {
  }

  lemma FourDigits(v: nat)
    ensures v % PAGES == ((v / 512 / 512 / 512 % 512 * 512 + v / 512 / 512 % 512) * 512 + v / 512 % 512) * 512 + v % 512
  {
    LastOfFour(v);
    LastOfThree(v / 512);
    LastOfTwo(v / 512 / 512);
  }

  /** The four indices are the base-512 digits of the page number. */
  lemma IndicesAreDigits(va: nat)
    ensures var p := Indices(va); Page(va) == ((p[0] * 512 + p[1]) * 512 + p[2]) * 512 + p[3]
  {
    NestedDivision(va);
    FourDigits(va / PAGE_SIZE);
  }

  /** Two addresses take the same path through the tables exactly when they lie in the same page. */
  lemma IndicesInjective(a: nat, b: nat)
    ensures Indices(a) == Indices(b) <==> Page(a) == Page(b)
  {
    IndicesAreDigits(a);
    IndicesAreDigits(b);
    var p, q := Indices(a), Indices(b);
    if Page(a) == Page(b) {
      DigitsUnique(p[0], p[1], p[2], p[3], q[0], q[1], q[2], q[3]);
    }
  }

  lemma DigitsUnique(a: nat, b: nat, c: nat, d: nat, a': nat, b': nat, c': nat, d': nat)
    requires b < 512 && c < 512 && d < 512 && b' < 512 && c' < 512 && d' < 512
    requires ((a * 512 + b) * 512 + c) * 512 + d == ((a' * 512 + b') * 512 + c') * 512 + d'
    ensures a == a' && b == b' && c == c' && d == d'
  {
  }
}
