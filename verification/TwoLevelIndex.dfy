/**
  The ready queue with more than 32 priorities (rt-thread/src/scheduler_up.c with RT_THREAD_PRIORITY_MAX
  256): a list of threads for each, a bit for each list that is not empty in 32 bytes, and a word with a
  bit for each byte that is not zero. A byte is the word to which it is promoted, with no bit beyond the
  eighth.
 */
module TwoLevelIndex {
  import opened FindFirstSet
  import opened KernelLists
  import opened PriorityBits
  import opened ReadyQueue

  const LEVELS: nat := 256
  const BYTE: nat := 8

  // ---------- words ----------

  /** `after` is `word` with bit `k` set, or cleared. */
  ghost predicate Sets(word: bv32, after: bv32, k: nat, bit: bool)
    requires k < PRIORITIES
  {
    forall j :: 0 <= j < PRIORITIES ==> (Has(after, j) <==> if j == k then bit else Has(word, j))
  }

  method SetBit(word: bv32, k: nat) returns (after: bv32)
    requires k < PRIORITIES
    ensures Sets(word, after, k, true)
  {
    after := word | Bit(k);
    forall j | 0 <= j < PRIORITIES ensures Has(after, j) <==> j == k || Has(word, j) { SetBitAt(word, after, k, j); }
  }

  method ClearBit(word: bv32, k: nat) returns (after: bv32)
    requires k < PRIORITIES
    ensures Sets(word, after, k, false)
  {
    after := word & !Bit(k);
    forall j | 0 <= j < PRIORITIES ensures Has(after, j) <==> j != k && Has(word, j) { ClearBitAt(word, after, k, j); }
  }

  /** `__rt_ffs` of a word that is not zero, counted from 0 */
  method Search(word: bv32) returns (n: nat)
    requires word != 0
    ensures n == Ffs(word) as int - 1 && n < PRIORITIES && Has(word, n) && forall j :: 0 <= j < n ==> !Has(word, j)
  {
    LowestBitFound(word);
    n := Ffs(word) as int - 1;
  }

  // ---------- one byte and its lists ----------

  /** Bit `k` of byte `n`, which is `b`, says whether list 8n + k has a thread. */
  ghost predicate BitHolds(lists: seq<seq<nat>>, b: bv32, n: nat, k: nat)
    requires |lists| == LEVELS && n < PRIORITIES && k < PRIORITIES
  {
    Has(b, k) <==> k < BYTE && lists[BYTE * n + k] != []
  }

  /** And the word has a bit for the byte if it is not zero. */
  ghost predicate ByteHolds(lists: seq<seq<nat>>, b: bv32, group: bv32, n: nat)
    requires |lists| == LEVELS && n < PRIORITIES
  {
    (forall k :: 0 <= k < PRIORITIES ==> BitHolds(lists, b, n, k)) && (Has(group, n) <==> b != 0)
  }

  ghost predicate AllHold(lists: seq<seq<nat>>, table: seq<bv32>, group: bv32) {
    && |lists| == LEVELS && |table| == PRIORITIES
    && forall n {:trigger table[n]} :: 0 <= n < PRIORITIES ==> ByteHolds(lists, table[n], group, n)
  }

  /** The lists are the same but for list `k` of byte `n`. */
  ghost predicate SameBut(lists: seq<seq<nat>>, lists2: seq<seq<nat>>, n: nat, k: nat)
    requires n < PRIORITIES && k < BYTE
  {
    |lists| == |lists2| == LEVELS && forall p :: 0 <= p < LEVELS && p != BYTE * n + k ==> lists2[p] == lists[p]
  }

  lemma OtherByteHolds(lists: seq<seq<nat>>, lists2: seq<seq<nat>>, b: bv32, group: bv32, group2: bv32, n: nat,
                       k: nat, i: nat)
    requires n < PRIORITIES && k < BYTE && SameBut(lists, lists2, n, k) && i < PRIORITIES && i != n
    requires ByteHolds(lists, b, group, i) && Has(group2, i) == Has(group, i)
    ensures ByteHolds(lists2, b, group2, i)
  {
    forall j | 0 <= j < PRIORITIES ensures BitHolds(lists2, b, i, j) { assert BitHolds(lists, b, i, j); }
  }

  /** Bit `k` of byte `n` says what its list says now. */
  lemma SetByteHolds(lists: seq<seq<nat>>, lists2: seq<seq<nat>>, b: bv32, b2: bv32, group: bv32, group2: bv32,
                     n: nat, k: nat, bit: bool)
    requires n < PRIORITIES && k < BYTE && SameBut(lists, lists2, n, k) && bit == (lists2[BYTE * n + k] != [])
    requires ByteHolds(lists, b, group, n) && Sets(b, b2, k, bit) && (Has(group2, n) <==> b2 != 0)
    ensures ByteHolds(lists2, b2, group2, n)
  {
    forall j | 0 <= j < PRIORITIES ensures BitHolds(lists2, b2, n, j) { assert BitHolds(lists, b, n, j); }
  }

  // ---------- all bytes ----------

  /** After both levels were brought up to date for list `k` of byte `n`. */
  lemma SetHolds(lists: seq<seq<nat>>, lists2: seq<seq<nat>>, table: seq<bv32>, table2: seq<bv32>, group: bv32,
                 group2: bv32,
                 n: nat, k: nat, bit: bool)
    requires AllHold(lists, table, group) && n < PRIORITIES && k < BYTE && SameBut(lists, lists2, n, k)
    requires bit == (lists2[BYTE * n + k] != [])
    requires |table2| == PRIORITIES && table2 == table[n := table2[n]] && Sets(table[n], table2[n], k, bit)
    requires Sets(group, group2, n, table2[n] != 0)
    ensures AllHold(lists2, table2, group2)
  {
    forall i: nat | i < PRIORITIES ensures ByteHolds(lists2, table2[i], group2, i) {
      assert ByteHolds(lists, table[i], group, i);
      if i == n {
        SetByteHolds(lists, lists2, table[i], table2[i], group, group2, n, k, bit);
      } else {
        OtherByteHolds(lists, lists2, table[i], group, group2, n, k, i);
      }
    }
  }

  /** A list that keeps a thread keeps its bits. */
  lemma StillHolds(lists: seq<seq<nat>>, lists2: seq<seq<nat>>, table: seq<bv32>, group: bv32, n: nat, k: nat)
    requires AllHold(lists, table, group) && n < PRIORITIES && k < BYTE && SameBut(lists, lists2, n, k)
    requires lists[BYTE * n + k] != [] && lists2[BYTE * n + k] != []
    ensures AllHold(lists2, table, group)
  {
    forall i: nat | i < PRIORITIES ensures ByteHolds(lists2, table[i], group, i) {
      assert ByteHolds(lists, table[i], group, i);
      forall j | 0 <= j < PRIORITIES ensures BitHolds(lists2, table[i], i, j) {
        assert BitHolds(lists, table[i], i, j);
      }
    }
  }

  // ---------- the lookup ----------

  /** Whether a list has a thread can be seen from either level. */
  lemma ListAt(lists: seq<seq<nat>>, table: seq<bv32>, group: bv32, n: nat, k: nat)
    requires AllHold(lists, table, group) && n < PRIORITIES && k < PRIORITIES
    ensures Has(table[n], k) <==> k < BYTE && lists[BYTE * n + k] != []
    ensures Has(table[n], k) ==> Has(group, n)
  {
    assert ByteHolds(lists, table[n], group, n) && BitHolds(lists, table[n], n, k);
    NoBits(table[n]);
  }

  /** The first bit of the word and of its byte, taken together. */
  lemma FirstIsLeast(lists: seq<seq<nat>>, table: seq<bv32>, group: bv32, n: nat, k: nat)
    requires AllHold(lists, table, group) && n < PRIORITIES && k < PRIORITIES && Has(table[n], k)
    requires forall i :: 0 <= i < n ==> !Has(group, i)
    requires forall j :: 0 <= j < k ==> !Has(table[n], j)
    ensures FirstList(lists, 0) == BYTE * n + k < LEVELS
  {
    ListAt(lists, table, group, n, k);
    forall q | 0 <= q < BYTE * n + k ensures lists[q] == [] {
      ListAt(lists, table, group, q / BYTE, q % BYTE);
    }
  }

  lemma ByteIsNotZero(lists: seq<seq<nat>>, table: seq<bv32>, group: bv32, n: nat)
    requires AllHold(lists, table, group) && n < PRIORITIES
    ensures Has(group, n) <==> table[n] != 0
  {
    assert ByteHolds(lists, table[n], group, n);
  }

  // ---------- the queue ----------

  class Index {
    var lists: seq<seq<nat>>     // rt_thread_priority_table
    var table: seq<bv32>         // rt_thread_ready_table
    var group: bv32              // rt_thread_ready_priority_group

    ghost predicate Valid()
      reads this
    {
      AllHold(lists, table, group)
    }

    constructor ()
      ensures Valid() && lists == seq(LEVELS, _ => [])
    {
      lists, table, group := seq(LEVELS, _ => []), seq(PRIORITIES, _ => 0), 0;
      new;
      NoBits(0);
      forall i: nat | i < PRIORITIES ensures ByteHolds(lists, table[i], group, i) {
        forall j | 0 <= j < PRIORITIES ensures BitHolds(lists, table[i], i, j) { assert !Has(0, j); }
        assert !Has(0, i);
      }
    }

    /** `rt_schedule_insert_thread` of a thread of priority `p`, at the end of its list or at the head */
    method Insert(p: nat, t: nat, last: bool)
      requires Valid() && p < LEVELS
      modifies this
      ensures Valid() && lists == old(lists)[p := if last then old(lists)[p] + [t] else [t] + old(lists)[p]]
    {
      ghost var l := lists;
      lists := lists[p := if last then lists[p] + [t] else [t] + lists[p]];
      SetBits(p / BYTE, p % BYTE, l);
    }

    /** Both bits of a list that has become non-empty, or was already. */
    method SetBits(number: nat, high: nat, ghost l: seq<seq<nat>>)
      requires number < PRIORITIES && high < BYTE && AllHold(l, table, group)
      requires SameBut(l, lists, number, high) && lists[BYTE * number + high] != []
      modifies `table, `group
      ensures Valid()
    {
      ghost var b, g := table, group;
      var byte := SetBit(table[number], high);
      table := table[number := byte];
      group := SetBit(group, number);
      assert Has(byte, high);
      NoBits(byte);
      SetHolds(l, lists, b, table, g, group, number, high, true);
    }

    /** `rt_schedule_remove_thread` */
    method Remove(p: nat, t: nat)
      requires Valid() && p < LEVELS
      modifies this
      ensures Valid() && lists == old(lists)[p := Without(old(lists)[p], t)]
    {
      ghost var l := lists;
      lists := lists[p := Without(lists[p], t)];
      if lists[p] == [] {
        ClearBits(p / BYTE, p % BYTE, l);
      } else {
        StillHolds(l, lists, table, group, p / BYTE, p % BYTE);
      }
    }

    /** The bits of a list that has become empty, or was already. */
    method ClearBits(number: nat, high: nat, ghost l: seq<seq<nat>>)
      requires number < PRIORITIES && high < BYTE && AllHold(l, table, group)
      requires SameBut(l, lists, number, high) && lists[BYTE * number + high] == []
      modifies `table, `group
      ensures Valid()
    {
      ghost var b, g := table, group;
      var byte := ClearBit(table[number], high);
      table := table[number := byte];
      if byte == 0 {
        group := ClearBit(group, number);
      } else {
        ByteStays(l, b, g, number, high, byte);
      }
      SetHolds(l, lists, b, table, g, group, number, high, false);
    }

    /** A byte that is not zero now was not zero before. */
    lemma ByteStays(l: seq<seq<nat>>, table: seq<bv32>, group: bv32, n: nat, k: nat, byte: bv32)
      requires AllHold(l, table, group) && n < PRIORITIES && k < BYTE && Sets(table[n], byte, k, false) && byte != 0
      ensures Sets(group, group, n, true)
    {
      NoBits(byte);
      NoBits(table[n]);
      ByteIsNotZero(l, table, group, n);
    }

    /** The lookup of `_scheduler_get_highest_priority_thread`: the least priority with a ready thread, and
        its first thread. */
    method Lookup() returns (h: nat, t: nat)
      requires Valid() && group != 0
      ensures h == FirstList(lists, 0) < LEVELS && t == lists[h][0]
    {
      var number := Search(group);
      ByteIsNotZero(lists, table, group, number);
      var bit := Search(table[number]);
      FirstIsLeast(lists, table, group, number, bit);
      h := BYTE * number + bit;
      t := lists[h][0];
    }

    /** The word is zero exactly if no thread is ready. */
    lemma Nonempty()
      requires Valid()
      ensures group == 0 <==> FirstList(lists, 0) == LEVELS
    {
      NoBits(group);
      if group == 0 {
        forall p | 0 <= p < LEVELS ensures lists[p] == [] { ListAt(lists, table, group, p / BYTE, p % BYTE); }
      } else {
        var n :| 0 <= n < PRIORITIES && Has(group, n);
        ByteIsNotZero(lists, table, group, n);
        NoBits(table[n]);
        var k :| 0 <= k < PRIORITIES && Has(table[n], k);
        ListAt(lists, table, group, n, k);
      }
    }
  }
}
