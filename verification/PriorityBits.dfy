/** The word of the schedulers (rt-thread/src/scheduler_up.c) with a bit for each priority. */
module PriorityBits {
  import opened FindFirstSet
  import opened KernelLists

  /** `number_mask` of a thread of priority `p` */
  function Bit(p: nat): bv32
    requires p < PRIORITIES
  {
    (1 as bv32) << (p as bv6)
  }

  predicate Has(group: bv32, p: nat)
    requires p < PRIORITIES
  {
    group & Bit(p) != 0
  }

  lemma BitsDiffer(p: nat, q: nat)
    requires p < PRIORITIES && q < PRIORITIES && p != q
    ensures Bit(p) & Bit(q) == 0
  {
  }

  lemma BitIsNotZero(p: nat)
    requires p < PRIORITIES
    ensures Bit(p) != 0
  {
  }

  lemma UnionMasked(word: bv32, a: bv32, b: bv32)
    requires a & b == 0
    ensures (word | a) & b == word & b
  {
  }

  lemma DifferenceMasked(word: bv32, a: bv32, b: bv32)
    requires a & b == 0
    ensures (word & !a) & b == word & b
  {
  }

  lemma OwnMasked(word: bv32, a: bv32)
    requires a != 0
    ensures (word | a) & a != 0
    ensures (word & !a) & a == 0
  {
  }

  lemma SetOwn(word: bv32, after: bv32, p: nat)
    requires p < PRIORITIES && after == word | Bit(p)
    ensures Has(after, p)
  {
    BitIsNotZero(p);
    OwnMasked(word, Bit(p));
  }

  lemma ClearOwn(word: bv32, after: bv32, p: nat)
    requires p < PRIORITIES && after == word & !Bit(p)
    ensures !Has(after, p)
  {
    BitIsNotZero(p);
    OwnMasked(word, Bit(p));
  }

  lemma SetOther(word: bv32, after: bv32, p: nat, q: nat)
    requires p < PRIORITIES && q < PRIORITIES && p != q && after == word | Bit(p)
    ensures after & Bit(q) == word & Bit(q)
  {
    BitsDiffer(p, q);
    UnionMasked(word, Bit(p), Bit(q));
  }

  lemma ClearOther(word: bv32, after: bv32, p: nat, q: nat)
    requires p < PRIORITIES && q < PRIORITIES && p != q && after == word & !Bit(p)
    ensures after & Bit(q) == word & Bit(q)
  {
    BitsDiffer(p, q);
    DifferenceMasked(word, Bit(p), Bit(q));
  }

  lemma SameBit(word: bv32, after: bv32, q: nat)
    requires q < PRIORITIES && after & Bit(q) == word & Bit(q)
    ensures Has(after, q) == Has(word, q)
  {
  }

  /** Setting a bit changes that bit only. */
  lemma SetBitAt(word: bv32, after: bv32, p: nat, q: nat)
    requires p < PRIORITIES && q < PRIORITIES && after == word | Bit(p)
    ensures Has(after, q) == (q == p || Has(word, q))
  {
    if p == q {
      SetOwn(word, after, p);
    } else {
      SetOther(word, after, p, q);
      SameBit(word, after, q);
    }
  }

  /** Clearing a bit changes that bit only. */
  lemma ClearBitAt(word: bv32, after: bv32, p: nat, q: nat)
    requires p < PRIORITIES && q < PRIORITIES && after == word & !Bit(p)
    ensures Has(after, q) == (q != p && Has(word, q))
  {
    if p == q {
      ClearOwn(word, after, p);
    } else {
      ClearOther(word, after, p, q);
      SameBit(word, after, q);
    }
  }

  /** The search finds the lowest bit. */
  lemma LowestBitFound(group: bv32)
    requires group != 0
    ensures 1 <= Ffs(group) as nat <= PRIORITIES && Has(group, Ffs(group) as nat - 1)
    ensures forall q :: 0 <= q < Ffs(group) as nat - 1 ==> !Has(group, q)
  {
    FfsFinds(group);
    FoundBit(group, Ffs(group));
    forall q: nat | q < Ffs(group) as nat - 1 ensures !Has(group, q) { LowerBit(group, Ffs(group), q); }
  }

  lemma FoundBit(group: bv32, r: bv8)
    requires 1 <= r <= 32 && group & (1 << (r - 1)) != 0
    ensures 1 <= r as nat <= PRIORITIES && Has(group, r as nat - 1)
  {
    assert (r as nat - 1) as bv6 == (r - 1) as bv6;
  }

  lemma LowerBit(group: bv32, r: bv8, q: nat)
    requires 1 <= r <= 32 && q < r as nat - 1 && group & ((1 << (r - 1)) - 1) == 0
    ensures q < PRIORITIES && !Has(group, q)
  {
    assert q as bv6 < (r - 1) as bv6;
  }

  lemma NoBits(group: bv32)
    ensures group == 0 <==> forall q :: 0 <= q < PRIORITIES ==> !Has(group, q)
  {
    if group != 0 { LowestBitFound(group); }
  }

  // ---------- words as sets ----------

  /** A word as the set of the numbers of its bits. */
  ghost function Bits(word: bv32): set<nat> {
    set p: nat | p < PRIORITIES && Has(word, p)
  }

  ghost predicate IsLeast(s: set<nat>, p: int) {
    p >= 0 && p in s && forall q :: q in s ==> p <= q
  }

  lemma BitsAre(word: bv32, s: set<nat>)
    requires forall p :: p in s ==> p < PRIORITIES
    requires forall p :: 0 <= p < PRIORITIES ==> Has(word, p) == (p in s)
    ensures Bits(word) == s
  {
  }

  /** What the schedulers do to words is what they would do to sets of bit numbers. */
  lemma SettingAdds(word: bv32, after: bv32, p: nat)
    requires p < PRIORITIES && after == word | Bit(p)
    ensures Bits(after) == Bits(word) + {p}
  {
    var s := Bits(word);
    forall q: nat | q < PRIORITIES ensures Has(after, q) == (q in s + {p}) { SetBitAt(word, after, p, q); }
    BitsAre(after, s + {p});
  }

  lemma ClearingRemoves(word: bv32, after: bv32, p: nat)
    requires p < PRIORITIES && after == word & !Bit(p)
    ensures Bits(after) == Bits(word) - {p}
  {
    var s := Bits(word);
    forall q: nat | q < PRIORITIES ensures Has(after, q) == (q in s - {p}) { ClearBitAt(word, after, p, q); }
    BitsAre(after, s - {p});
  }

  /** The search finds the least member. */
  lemma SearchIsLeast(word: bv32)
    ensures word == 0 ==> Bits(word) == {}
    ensures word != 0 ==> IsLeast(Bits(word), Ffs(word) as int - 1)
  {
    NoBits(word);
    if word != 0 {
      LowestBitFound(word);
      var p: nat := Ffs(word) as nat - 1;
      assert p in Bits(word);
    }
  }
}
