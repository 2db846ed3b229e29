/** The encoding of one page-table entry: rights, cache type, and the bit operations the
    walk performs on raw 64-bit words. Everything above this module works on the decoded
    view and relies on the lemmas here for what the words mean. */
module Entries {
  import opened Basics

  const PAGE_SIZE: nat := 0x1000
  const SIZE_2M: nat := 0x20_0000
  const SIZE_1G: nat := 0x4000_0000

  // Bit positions of the flags: the source writes each as `1 << position`.
  const PTE_PRESENT: nat := 0
  const PTE_WRITE: nat := 1
  const PTE_USER: nat := 2
  const PTE_PWT: nat := 3
  const PTE_PCD: nat := 4
  const PTE_HUGE: nat := 7
  const PTE_NX: nat := 63

  /** One past the largest physical address an entry can name. */
  const PHYS_LIMIT: nat := 0x10_0000_0000_0000

  datatype Rights = Rights(write: bool, exec: bool, user: bool) {
    /** The combination a walk performs: grant only what both grant. */
    function Intersect(other: Rights): Rights {
      Rights(write && other.write, exec && other.exec, user && other.user)
    }
  }

  const RO: Rights := Rights(false, false, false)
  const RW: Rights := Rights(true, false, false)
  const ALL: Rights := Rights(true, true, true)

  datatype MemoryType = Normal | Device

  /** An entry as the processor reads it. `pwt` is kept apart from `pcd` because the source
      decides the cache type from `pcd` alone. */
  datatype Pte = Pte(present: bool, write: bool, user: bool, pwt: bool, pcd: bool, huge: bool,
                     exec: bool, addr: nat) {
    function GetRights(): Rights {
      Rights(write, exec, user)
    }

    function GetType(): MemoryType {
      if pcd then Device else Normal
    }
  }

  const ABSENT: Pte := Pte(false, false, false, false, false, false, true, 0)

  /** `word & (1 << k) != 0`. */
  predicate HasBit(word: nat, k: nat) {
    if k == 0 then word % 2 == 1 else HasBit(word / 2, k - 1)
  }

  /** `word | (1 << k)`. */
  function OrBit(word: nat, k: nat): nat {
    if k == 0 then (if word % 2 == 1 then word else word + 1)
    else 2 * OrBit(word / 2, k - 1) + word % 2
  }

  /** `word | (1 << k)` when `on`, and `word` otherwise: one `if` of the source's bit builders. */
  function OrIf(on: bool, word: nat, k: nat): nat {
    if on then OrBit(word, k) else word
  }

  /** `word & mask`, for the mask of bits `lo` to `hi - 1`. */
  function Masked(word: nat, lo: nat, hi: nat): nat {
    if hi == 0 then 0
    else if lo > 0 then 2 * Masked(word / 2, lo - 1, hi - 1)
    else 2 * Masked(word / 2, 0, hi - 1) + word % 2
  }

  /** `word & PTE_ADDR_MASK`. */
  function AddrField(word: nat): nat {
    Masked(word, 12, 52)
  }

  function Decode(word: nat): Pte {
    Pte(HasBit(word, PTE_PRESENT), HasBit(word, PTE_WRITE), HasBit(word, PTE_USER),
        HasBit(word, PTE_PWT), HasBit(word, PTE_PCD), HasBit(word, PTE_HUGE),
        !HasBit(word, PTE_NX), AddrField(word))
  }

  /** The address with the permission bits of `rights`: the word before the cache and size bits. */
  function RightsWord(phys: nat, rights: Rights): nat {
    var a := OrBit(phys, PTE_PRESENT);
    var b := OrIf(rights.write, a, PTE_WRITE);
    var c := OrIf(rights.user, b, PTE_USER);
    OrIf(!rights.exec, c, PTE_NX)
  }

  /** What `map_leaf` writes: the address, the rights, the cache bits, and `PS` above level 0. */
  function LeafWord(phys: nat, rights: Rights, memoryType: MemoryType, large: bool): nat {
    var d := RightsWord(phys, rights);
    var e := OrIf(memoryType.Device?, d, PTE_PCD);
    var f := OrIf(memoryType.Device?, e, PTE_PWT);
    OrIf(large, f, PTE_HUGE)
  }

  function LeafPte(phys: nat, rights: Rights, memoryType: MemoryType, large: bool): Pte {
    Pte(true, rights.write, rights.user, memoryType.Device?, memoryType.Device?, large, rights.exec, phys)
  }

  /** `word | intermediate_bits(needed)`. */
  function WidenWord(word: nat, needed: Rights): nat {
    OrIf(needed.user, OrBit(OrBit(word, PTE_PRESENT), PTE_WRITE), PTE_USER)
  }

  function WidenPte(e: Pte, needed: Rights): Pte {
    e.(present := true, write := true, user := e.user || needed.user)
  }

  /** An entry pointing at a table, fresh or widened for `needed`. */
  function TablePte(table: nat, needed: Rights): Pte {
    Pte(true, true, needed.user, false, false, false, true, table)
  }

  function Pow2(n: nat): (p: nat)
    ensures p > 0
  {
    if n == 0 then 1 else 2 * Pow2(n - 1)
  }

  /** Setting a bit sets that bit and no other. */
  lemma {:induction false} OrBitHas(word: nat, k: nat, j: nat)
    ensures HasBit(OrBit(word, k), j) == (j == k || HasBit(word, j))
  {
    if k > 0 && j > 0 {
      OrBitHas(word / 2, k - 1, j - 1);
    }
  }

  /** Setting a bit outside a mask leaves the masked part alone. */
  lemma {:induction false} OrBitMasked(word: nat, k: nat, lo: nat, hi: nat)
    requires k < lo || hi <= k
    ensures Masked(OrBit(word, k), lo, hi) == Masked(word, lo, hi)
  {
    if hi > 0 && k > 0 {
      OrBitMasked(word / 2, k - 1, if lo > 0 then lo - 1 else 0, hi - 1);
    }
  }

  /** Setting a bit below the top keeps the word in range. */
  lemma {:induction false} OrBitFits(word: nat, k: nat, n: nat)
    requires word < Pow2(n) && k < n
    ensures OrBit(word, k) < Pow2(n)
  {
    var half := Pow2(n - 1);
    assert Pow2(n) == 2 * half;
    hide Pow2;
    HalfFits(word, half);
    if k > 0 {
      OrBitFits(word / 2, k - 1, n - 1);
      DoubledFits(OrBit(word / 2, k - 1), word % 2, half);
    } else {
      DoubledFits(word / 2, 1, half);
    }
  }

  lemma HalfFits(x: nat, half: nat)
    requires x < 2 * half
    ensures x / 2 < half
  {
  }

  lemma DoubledFits(y: nat, bit: nat, half: nat)
    requires y < half && bit < 2
    ensures 2 * y + bit < 2 * half
  {
  }

  /** A multiple of `2^lo` below `2^hi` is its own masked part, and has no bit below `lo`. */
  lemma {:induction false} MaskedAligned(q: nat, lo: nat, hi: nat)
    requires Pow2(lo) * q < Pow2(hi)
    ensures Masked(Pow2(lo) * q, lo, hi) == Pow2(lo) * q
    ensures forall k: nat :: k < lo || hi <= k ==> !HasBit(Pow2(lo) * q, k)
    decreases hi
  {
    var w := Pow2(lo) * q;
    if hi == 0 {
      assert w == 0;
      ZeroBits();
    } else if lo > 0 {
      DoubleShift(lo, q);
      MaskedAligned(q, lo - 1, hi - 1);
    } else {
      MaskedAligned(q / 2, 0, hi - 1);
      assert w == q;
    }
    forall k: nat | k < lo || hi <= k
      ensures !HasBit(w, k)
    {
      if hi > 0 && k > 0 {
        assert HasBit(w, k) == HasBit(w / 2, k - 1);
      }
    }
  }

  lemma DoubleShift(lo: nat, q: nat)
    requires lo > 0
    ensures Pow2(lo) * q == 2 * (Pow2(lo - 1) * q)
  {
  }

  lemma {:induction false} ZeroBit(k: nat)
    ensures !HasBit(0, k)
  {
    if k > 0 {
      ZeroBit(k - 1);
    }
  }

  lemma ZeroBits()
    ensures forall k: nat :: !HasBit(0, k)
  {
    forall k: nat
      ensures !HasBit(0, k)
    {
      ZeroBit(k);
    }
  }

  lemma Powers()
    ensures Pow2(12) == 0x1000
    ensures Pow2(52) == 0x10_0000_0000_0000
    ensures Pow2(64) == 0x1_0000_0000_0000_0000
  {
    Pow2Nibble(0);
    Pow2Nibble(4);
    Pow2Nibble(8);
    Pow2Nibble(12);
    Pow2Nibble(16);
    Pow2Nibble(20);
    Pow2Nibble(24);
    Pow2Nibble(28);
    Pow2Nibble(32);
    Pow2Nibble(36);
    Pow2Nibble(40);
    Pow2Nibble(44);
    Pow2Nibble(48);
    Pow2Nibble(52);
    Pow2Nibble(56);
    Pow2Nibble(60);
  }

  lemma Pow2Nibble(n: nat)
    ensures Pow2(n + 4) == 16 * Pow2(n)
  {
    assert Pow2(n + 2) == 4 * Pow2(n);
  }

  /** What setting one flag bit means for the decoded entry. */
  function SetFlag(e: Pte, k: nat): Pte {
    if k == PTE_PRESENT then e.(present := true)
    else if k == PTE_WRITE then e.(write := true)
    else if k == PTE_USER then e.(user := true)
    else if k == PTE_PWT then e.(pwt := true)
    else if k == PTE_PCD then e.(pcd := true)
    else if k == PTE_HUGE then e.(huge := true)
    else if k == PTE_NX then e.(exec := false)
    else e
  }

  /** The flag positions lie outside the address field. */
  predicate IsFlag(k: nat) {
    k < 12 || k == PTE_NX
  }

  /** Setting one of the flag bits changes that flag of the decoded entry and nothing else. */
  lemma DecodeOrBit(word: u64, k: nat)
    requires IsFlag(k)
    ensures OrBit(word, k) < 0x1_0000_0000_0000_0000
    ensures Decode(OrBit(word, k)) == SetFlag(Decode(word), k)
  {
    Powers();
    OrBitFits(word, k, 64);
    OrBitMasked(word, k, 12, 52);
    OrBitHas(word, k, PTE_PRESENT);
    OrBitHas(word, k, PTE_WRITE);
    OrBitHas(word, k, PTE_USER);
    OrBitHas(word, k, PTE_PWT);
    OrBitHas(word, k, PTE_PCD);
    OrBitHas(word, k, PTE_HUGE);
    OrBitHas(word, k, PTE_NX);
  }

  lemma DecodeZero()
    ensures Decode(0) == ABSENT
  {
    DecodeAddress(0);
  }

  /** An aligned physical address decodes as an entry with no flag set. */
  lemma DecodeAddress(phys: nat)
    requires phys % PAGE_SIZE == 0 && phys < PHYS_LIMIT
    ensures Decode(phys) == ABSENT.(addr := phys)
  {
    Powers();
    assert phys == Pow2(12) * (phys / PAGE_SIZE);
    MaskedAligned(phys / PAGE_SIZE, 12, 52);
  }

  lemma DecodeOrIf(on: bool, word: u64, k: nat)
    requires IsFlag(k)
    ensures OrIf(on, word, k) < 0x1_0000_0000_0000_0000
    ensures Decode(OrIf(on, word, k)) == if on then SetFlag(Decode(word), k) else Decode(word)
  {
    DecodeOrBit(word, k);
  }

  lemma DecodeRights(phys: nat, rights: Rights)
    requires phys % PAGE_SIZE == 0 && phys < PHYS_LIMIT
    ensures RightsWord(phys, rights) < 0x1_0000_0000_0000_0000
    ensures Decode(RightsWord(phys, rights)) ==
            Pte(true, rights.write, rights.user, false, false, false, rights.exec, phys)
  {
    DecodeAddress(phys);
    DecodeOrBit(phys, PTE_PRESENT);
    var a := OrBit(phys, PTE_PRESENT);
    DecodeOrIf(rights.write, a, PTE_WRITE);
    var b := OrIf(rights.write, a, PTE_WRITE);
    DecodeOrIf(rights.user, b, PTE_USER);
    DecodeOrIf(!rights.exec, OrIf(rights.user, b, PTE_USER), PTE_NX);
  }

  /** Decoding the word of a leaf gives back exactly what was asked for, for every page-aligned
      physical address an entry can hold. */
  lemma DecodeLeaf(phys: nat, rights: Rights, memoryType: MemoryType, large: bool)
    requires phys % PAGE_SIZE == 0 && phys < PHYS_LIMIT
    ensures LeafWord(phys, rights, memoryType, large) < 0x1_0000_0000_0000_0000
    ensures Decode(LeafWord(phys, rights, memoryType, large)) == LeafPte(phys, rights, memoryType, large)
  {
    DecodeRights(phys, rights);
    var d := RightsWord(phys, rights);
    DecodeOrIf(memoryType.Device?, d, PTE_PCD);
    var e := OrIf(memoryType.Device?, d, PTE_PCD);
    DecodeOrIf(memoryType.Device?, e, PTE_PWT);
    DecodeOrIf(large, OrIf(memoryType.Device?, e, PTE_PWT), PTE_HUGE);
  }

  /** No more than that: an entry names the address it is asked for exactly when the address is one an
      entry can hold. */
  lemma LeafAddressIff(phys: u64, rights: Rights, memoryType: MemoryType, large: bool)
    requires phys % PAGE_SIZE == 0
    ensures Decode(LeafWord(phys, rights, memoryType, large)).addr == phys <==> phys < PHYS_LIMIT
  {
    if phys < PHYS_LIMIT {
      DecodeLeaf(phys, rights, memoryType, large);
    } else {
      FieldIsBounded(LeafWord(phys, rights, memoryType, large));
    }
  }

  lemma FieldIsBounded(word: nat)
    ensures AddrField(word) < PHYS_LIMIT
  {
    MaskedBelow(word, 12, 52);
    Powers();
  }

  lemma {:induction false} MaskedBelow(word: nat, lo: nat, hi: nat)
    ensures Masked(word, lo, hi) < Pow2(hi)
  {
    if hi > 0 {
      MaskedBelow(word / 2, if lo > 0 then lo - 1 else 0, hi - 1);
    }
  }

  /** Widening changes the three permission bits and nothing else, whatever the word held. */
  lemma DecodeWiden(word: u64, needed: Rights)
    ensures WidenWord(word, needed) < 0x1_0000_0000_0000_0000
    ensures Decode(WidenWord(word, needed)) == WidenPte(Decode(word), needed)
  {
    DecodeOrBit(word, PTE_PRESENT);
    var a := OrBit(word, PTE_PRESENT);
    DecodeOrBit(a, PTE_WRITE);
    DecodeOrIf(needed.user, OrBit(a, PTE_WRITE), PTE_USER);
  }

  lemma {:induction false} OrBitSet(word: nat, k: nat)
    requires HasBit(word, k)
    ensures OrBit(word, k) == word
  {
    if k > 0 {
      OrBitSet(word / 2, k - 1);
    }
  }

  /** A pointer that is writable already, and open to ring 3 if that is needed, is not changed by
      widening it. */
  lemma WidenNothing(word: nat, needed: Rights)
    requires Decode(word).present && Decode(word).write && (needed.user ==> Decode(word).user)
    ensures WidenWord(word, needed) == word
  {
    OrBitSet(word, PTE_PRESENT);
    OrBitSet(word, PTE_WRITE);
    if needed.user {
      OrBitSet(word, PTE_USER);
    }
  }

  lemma DecodeTable(table: nat, needed: Rights)
    requires table % PAGE_SIZE == 0 && table < PHYS_LIMIT
    ensures WidenWord(table, needed) < 0x1_0000_0000_0000_0000
    ensures Decode(WidenWord(table, needed)) == TablePte(table, needed)
  {
    DecodeAddress(table);
    DecodeWiden(table, needed);
  }

  // ---------------------------------------------------------------------------------------
  // The words as the architecture numbers their bits
  // ---------------------------------------------------------------------------------------

  lemma {:induction false} BitIs(word: nat, k: nat)
    ensures HasBit(word, k) <==> word / Pow2(k) % 2 == 1
  {
    if k > 0 {
      BitIs(word / 2, k - 1);
      HalvedFirst(word, Pow2(k - 1));
    }
  }

  lemma HalvedFirst(x: nat, d: nat)
    requires d > 0
    ensures x / 2 / d == x / (2 * d)
  {
    var q, r := x / (2 * d), x % (2 * d);
    assert x == 2 * (q * d) + r;
    assert x / 2 == q * d + r / 2;
    QuotientIs(x / 2, d, q, r / 2);
  }

  lemma {:induction false} LowPart(word: nat, n: nat)
    ensures Masked(word, 0, n) == word % Pow2(n)
  {
    if n > 0 {
      LowPart(word / 2, n - 1);
      TwoTimesRemainder(word, Pow2(n - 1));
    }
  }

  lemma TwoTimesRemainder(x: nat, d: nat)
    requires d > 0
    ensures 2 * (x / 2 % d) + x % 2 == x % (2 * d)
  {
    var h := x / 2;
    var q, r := h / d, h % d;
    assert h == q * d + r;
    assert x == q * (2 * d) + (2 * r + x % 2);
    QuotientIs(x, 2 * d, q, 2 * r + x % 2);
    assert x == x / (2 * d) * (2 * d) + x % (2 * d);
  }

  lemma {:induction false} MiddlePart(word: nat, lo: nat, hi: nat)
    requires lo <= hi
    ensures Masked(word, lo, hi) == Pow2(lo) * (word / Pow2(lo) % Pow2(hi - lo))
    decreases lo
  {
    if lo == 0 {
      LowPart(word, hi);
    } else {
      var p, q := Pow2(lo - 1), Pow2(hi - lo);
      MiddlePart(word / 2, lo - 1, hi - 1);
      assert Masked(word, lo, hi) == 2 * (p * (word / 2 / p % q));
      HalvedFirst(word, p);
      TwiceTimes(p, word / (2 * p) % q);
    }
  }

  lemma TwiceTimes(p: nat, m: nat)
    ensures 2 * (p * m) == 2 * p * m
  {
  }

  lemma SmallPowers()
    ensures Pow2(0) == 1 && Pow2(1) == 2 && Pow2(2) == 4 && Pow2(3) == 8 && Pow2(4) == 16 && Pow2(7) == 128
    ensures Pow2(40) == 0x100_0000_0000 && Pow2(63) == 0x8000_0000_0000_0000
  {
    Powers();
    assert Pow2(64) == 2 * Pow2(63);
    assert Pow2(52) == 2 * Pow2(51) == 4 * Pow2(50) == 8 * Pow2(49) == 16 * Pow2(48);
    assert Pow2(48) == 2 * Pow2(47) == 4 * Pow2(46) == 8 * Pow2(45) == 16 * Pow2(44);
    assert Pow2(44) == 2 * Pow2(43) == 4 * Pow2(42) == 8 * Pow2(41) == 16 * Pow2(40);
    assert Pow2(4) == 16;
    assert Pow2(7) == 2 * Pow2(6) == 4 * Pow2(5) == 8 * Pow2(4);
  }

  /** Decoding reads bit 0 as present, 1 as writable, 2 as ring 3's, 3 and 4 as the cache bits, 7 as the
      size bit, 63 as no-execute, and bits 12 to 51 as the address. */
  lemma DecodeIs(word: nat)
    ensures var e := Decode(word);
            && e.present == (word % 2 == 1) && e.write == (word / 2 % 2 == 1) && e.user == (word / 4 % 2 == 1)
            && e.pwt == (word / 8 % 2 == 1) && e.pcd == (word / 16 % 2 == 1) && e.huge == (word / 128 % 2 == 1)
            && e.exec == (word / 0x8000_0000_0000_0000 % 2 == 0)
            && e.addr == word / 4096 % 0x100_0000_0000 * 4096
            && e.GetRights() == Rights(word / 2 % 2 == 1, word / 0x8000_0000_0000_0000 % 2 == 0, word / 4 % 2 == 1)
            && e.GetType() == (if word / 16 % 2 == 1 then Device else Normal)
  {
    hide HasBit, Pow2, Masked;
    SmallPowers();
    Powers();
    BitIs(word, 0);
    BitIs(word, 1);
    BitIs(word, 2);
    BitIs(word, 3);
    BitIs(word, 4);
    BitIs(word, 7);
    BitIs(word, 63);
    MiddlePart(word, 12, 52);
  }

  lemma {:induction false} OrBitAdds(word: nat, k: nat)
    ensures OrBit(word, k) == word + if HasBit(word, k) then 0 else Pow2(k)
  {
    if k > 0 {
      OrBitAdds(word / 2, k - 1);
    }
  }

  /** The word of a leaf, bit by bit: the address, and 1, 2, 4, 8 and 16, 128, 2^63 for what is asked. */
  lemma LeafWordIs(phys: nat, rights: Rights, memoryType: MemoryType, large: bool)
    requires phys % 4096 == 0 && phys < PHYS_LIMIT
    ensures LeafWord(phys, rights, memoryType, large) ==
            phys + 1 + (if rights.write then 2 else 0) + (if rights.user then 4 else 0)
            + (if memoryType.Device? then 24 else 0) + (if large then 128 else 0)
            + (if rights.exec then 0 else 0x8000_0000_0000_0000)
  {
    hide HasBit, Pow2, OrBit;
    SmallPowers();
    DecodeAddress(phys);
    var a := OrBit(phys, PTE_PRESENT);
    var b := OrIf(rights.write, a, PTE_WRITE);
    var c := OrIf(rights.user, b, PTE_USER);
    var d := OrIf(!rights.exec, c, PTE_NX);
    var e := OrIf(memoryType.Device?, d, PTE_PCD);
    var f := OrIf(memoryType.Device?, e, PTE_PWT);
    OrBitAdds(phys, PTE_PRESENT);
    OrBitAdds(a, PTE_WRITE);
    OrBitAdds(b, PTE_USER);
    OrBitAdds(c, PTE_NX);
    OrBitAdds(d, PTE_PCD);
    OrBitAdds(e, PTE_PWT);
    OrBitAdds(f, PTE_HUGE);
    DecodeOrBit(phys, PTE_PRESENT);
    DecodeOrIf(rights.write, a, PTE_WRITE);
    DecodeOrIf(rights.user, b, PTE_USER);
    DecodeOrIf(!rights.exec, c, PTE_NX);
    DecodeOrIf(memoryType.Device?, d, PTE_PCD);
    DecodeOrIf(memoryType.Device?, e, PTE_PWT);
  }

  /** A widened pointer: bits 0 and 1 set, bit 2 if ring 3 needs it, and every other bit as it was. */
  lemma WidenWordIs(word: u64, needed: Rights)
    ensures WidenWord(word, needed) ==
            word + (if word % 2 == 1 then 0 else 1) + (if word / 2 % 2 == 1 then 0 else 2)
            + (if needed.user && word / 4 % 2 == 0 then 4 else 0)
  {
    hide HasBit, Pow2, OrBit;
    SmallPowers();
    DecodeIs(word);
    var a := OrBit(word, PTE_PRESENT);
    var b := OrBit(a, PTE_WRITE);
    OrBitAdds(word, PTE_PRESENT);
    OrBitAdds(a, PTE_WRITE);
    OrBitAdds(b, PTE_USER);
    DecodeOrBit(word, PTE_PRESENT);
    DecodeOrBit(a, PTE_WRITE);
  }
}
