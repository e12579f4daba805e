/**
 The process-wide statistics registry: a table of named `uint64_t` counters
 with a lifecycle (`init_stat` / `finalize_stat`), strict registration
 (`add_stat_entry`), get-or-create increment (`increment_stat`) and a dump of
 every counter as log lines (`dump_stats`).

 The global `stats` pointer becomes an explicit `Registry` value threaded
 through the operations; the fatal `assert`s on misuse become preconditions.
 */
module Stat {
  import opened Wrappers
  import Decimal

  /** Number of values a `uint64_t` holds; counters wrap around modulo this. */
  const U64_MODULUS: nat := 0x1_0000_0000_0000_0000

  type U64 = n: nat | n < U64_MODULUS

  /** The `stat_entry` record: the counter's name and its value. */
  datatype StatEntry = StatEntry(key: string, value: U64)

  /** The `stats` table: NULL until `init_stat`, and again after `finalize_stat`. */
  datatype Registry = Uninitialized | Initialized(table: map<string, StatEntry>)

  /** A `const char *` key argument; `None` is the NULL pointer. */
  type KeyArg = Option<string>

  /** What an operation returns, together with the registry it leaves behind. */
  datatype Step<T> = Step(ret: T, next: Registry)

  const HEADER: string := "Statistics:"
  const NO_ENTRIES: string := "No statistics found."

  /** Every entry is filed under its own name. */
  predicate Valid(r: Registry) {
    r.Initialized? ==> forall k :: k in r.table ==> r.table[k].key == k
  }

  /** `lookup_hash_entry( stats, key )`. */
  function Lookup(r: Registry, key: string): Option<StatEntry>
    requires r.Initialized?
  {
    if key in r.table then Some(r.table[key]) else None
  }

  /** The counter's value, an absent counter reading as 0. */
  function ValueOf(r: Registry, key: string): nat
    requires r.Initialized?
  {
    if key in r.table then r.table[key].value else 0
  }

  /** `value++` on a `uint64_t`. */
  function Increment64(v: U64): (w: U64)
    ensures w == (v + 1) % U64_MODULUS
  {
    if v == U64_MODULUS - 1 then 0 else v + 1
  }

  /**
   `init_stat()`: always succeeds; afterwards the registry is initialized and
   empty, whether or not it was initialized before (a previous table and all
   its counters are discarded).
   */
  function InitStat(r: Registry): (s: Step<bool>)
    ensures s.ret
    ensures s.next.Initialized? && Valid(s.next)
    ensures forall k :: Lookup(s.next, k) == None
  {
    Step(true, Initialized(map[]))
  }

  /** `finalize_stat()`: requires an initialized registry and leaves it uninitialized. */
  function FinalizeStat(r: Registry): (s: Step<bool>)
    requires r.Initialized?
    ensures s.ret && !s.next.Initialized?
  {
    Step(true, Uninitialized)
  }

  /**
   `add_stat_entry( key )`: registers a new counter at 0. Fails, changing
   nothing, when the name is already registered.
   */
  function AddStatEntry(r: Registry, key: KeyArg): (s: Step<bool>)
    requires r.Initialized? && key.Some?
    ensures s.next.Initialized?
    ensures s.ret <==> key.value !in r.table
    ensures s.ret ==> Lookup(s.next, key.value) == Some(StatEntry(key.value, 0))
    ensures !s.ret ==> s.next == r
    ensures s.next.table.Keys == r.table.Keys + {key.value}
    ensures forall k :: k != key.value ==> Lookup(s.next, k) == Lookup(r, k)
    ensures Valid(r) ==> Valid(s.next)
  {
    var k := key.value;
    if k in r.table then Step(false, r)
    else Step(true, Initialized(r.table[k := StatEntry(k, 0)]))
  }

  /**
   `increment_stat( key )`: creates the counter at 0 if it is absent, then
   adds one to it (wrapping around at 2^64). No other counter changes.
   */
  function IncrementStat(r: Registry, key: KeyArg): (r': Registry)
    requires r.Initialized? && key.Some?
    ensures r'.Initialized?
    ensures r'.table.Keys == r.table.Keys + {key.value}
    ensures ValueOf(r', key.value) == (ValueOf(r, key.value) + 1) % U64_MODULUS
    ensures forall k :: k != key.value ==> Lookup(r', k) == Lookup(r, k)
    ensures Valid(r) ==> Valid(r')
  {
    var k := key.value;
    var created := AddStatEntry(r, key).next;
    var e := created.table[k];
    Initialized(created.table[k := e.(value := Increment64(e.value))])
  }

  lemma SmallModulo(a: nat)
    requires a < U64_MODULUS
    ensures a % U64_MODULUS == a
  {
  }

  lemma AddOneModulo(a: nat, v: nat)
    requires v == a % U64_MODULUS
    ensures (v + 1) % U64_MODULUS == (a + 1) % U64_MODULUS
  {
  }

  lemma CountStep(start: nat, n: nat, v: nat, w: nat)
    requires n > 0
    requires v == (start + (n - 1)) % U64_MODULUS
    requires w == (v + 1) % U64_MODULUS
    ensures w == (start + n) % U64_MODULUS
  {
    AddOneModulo(start + (n - 1), v);
  }

  /**
   `n` calls of `increment_stat( key )` in a row. Each adds exactly one, so
   the counter grows by `n` modulo 2^64 and no other counter changes.
   */
  function IncrementTimes(r: Registry, key: string, n: nat): (r': Registry)
    requires r.Initialized?
    ensures r'.Initialized?
    ensures ValueOf(r', key) == (ValueOf(r, key) + n) % U64_MODULUS
    ensures forall k :: k != key ==> Lookup(r', k) == Lookup(r, k)
    decreases n
  {
    if n == 0 then
      SmallModulo(ValueOf(r, key));
      r
    else
      var prev := IncrementTimes(r, key, n - 1);
      var next := IncrementStat(prev, Some(key));
      CountStep(ValueOf(r, key), n, ValueOf(prev, key), ValueOf(next, key));
      next
  }

  // ---------------------------------------------------------------------------
  // dump_stats()
  // ---------------------------------------------------------------------------

  /** `"%s: %" PRIu64`. */
  function EntryLine(e: StatEntry): string {
    e.key + ": " + Decimal.Show(e.value)
  }

  predicate Distinct(s: seq<string>) {
    forall i, j :: 0 <= i < j < |s| ==> s[i] != s[j]
  }

  /** The order in which the hash-table iterator visits the keys: each key exactly once. */
  predicate IsIterationOrder(order: seq<string>, table: map<string, StatEntry>) {
    && Distinct(order)
    && (forall i :: 0 <= i < |order| ==> order[i] in table)
    && (forall k :: k in table ==> k in order)
  }

  /** One line per entry, in the given order. */
  function EntryLines(table: map<string, StatEntry>, order: seq<string>): (lines: seq<string>)
    requires forall k :: k in order ==> k in table
    ensures |lines| == |order|
    ensures forall i :: 0 <= i < |order| ==> lines[i] == EntryLine(table[order[i]])
    decreases |order|
  {
    if |order| == 0 then [] else [EntryLine(table[order[0]])] + EntryLines(table, order[1..])
  }

  /**
   `dump_stats()`: the lines handed to `info()`. A header, then one line per
   counter in iteration order, or a single "nothing found" line when the
   table is empty. The registry is left unchanged.
   */
  function DumpStats(r: Registry, order: seq<string>): (lines: seq<string>)
    requires r.Initialized?
    requires IsIterationOrder(order, r.table)
    ensures |lines| >= 2 && lines[0] == HEADER
    ensures r.table == map[] ==> lines == [HEADER, NO_ENTRIES]
    ensures r.table != map[] ==>
      && |lines| == |order| + 1
      && forall i :: 0 <= i < |order| ==> lines[i + 1] == EntryLine(r.table[order[i]])
    ensures Valid(r) && r.table != map[] ==>
      forall i :: 0 <= i < |order| ==> lines[i + 1] == order[i] + ": " + Decimal.Show(ValueOf(r, order[i]))
  {
    if |order| == 0 then
      assert r.table == map[] by {
        if k :| k in r.table {
          assert false;
        }
      }
      [HEADER, NO_ENTRIES]
    else
      assert order[0] in r.table;
      [HEADER] + EntryLines(r.table, order)
  }

  lemma EntryLinesAppend(table: map<string, StatEntry>, a: seq<string>, b: seq<string>)
    requires forall k :: k in a ==> k in table
    requires forall k :: k in b ==> k in table
    ensures EntryLines(table, a + b) == EntryLines(table, a) + EntryLines(table, b)
  {
  }

  /** The lines of a key sequence with one key spliced in are that key's line plus the others. */
  lemma EntryLinesSplice(table: map<string, StatEntry>, p: seq<string>, x: string, q: seq<string>)
    requires forall k :: k in p ==> k in table
    requires forall k :: k in q ==> k in table
    requires x in table
    ensures multiset(EntryLines(table, p + ([x] + q)))
         == multiset{EntryLine(table[x])} + multiset(EntryLines(table, p + q))
  {
    var lx := EntryLines(table, [x]);
    assert lx == [EntryLine(table[x])];
    EntryLinesAppend(table, p, [x] + q);
    EntryLinesAppend(table, [x], q);
    EntryLinesAppend(table, p, q);
    var mp, mx, mq := multiset(EntryLines(table, p)), multiset(lx), multiset(EntryLines(table, q));
    assert multiset(EntryLines(table, p + ([x] + q))) == mp + (mx + mq);
    assert multiset(EntryLines(table, p + q)) == mp + mq;
    assert mp + (mx + mq) == mx + (mp + mq);
  }

  lemma RemoveAt(b: seq<string>, i: nat)
    requires i < |b|
    ensures b == b[..i] + ([b[i]] + b[i + 1..])
    ensures multiset(b[..i] + b[i + 1..]) == multiset(b) - multiset{b[i]}
    ensures forall k :: k in b[..i] + b[i + 1..] ==> k in b
  {
    assert b == b[..i] + ([b[i]] + b[i + 1..]);
  }

  /** Removing one key from two key sequences whose other keys give the same lines leaves the lines equal. */
  lemma PermutationStep(table: map<string, StatEntry>, a: seq<string>, b: seq<string>, i: nat)
    requires forall k :: k in a ==> k in table
    requires forall k :: k in b ==> k in table
    requires |a| > 0 && i < |b| && b[i] == a[0]
    requires multiset(EntryLines(table, a[1..])) == multiset(EntryLines(table, b[..i] + b[i + 1..]))
    ensures multiset(EntryLines(table, a)) == multiset(EntryLines(table, b))
  {
    RemoveAt(b, i);
    RemoveAt(a, 0);
    var x, p, q := a[0], b[..i], b[i + 1..];
    assert forall k :: k in p ==> k in b;
    assert forall k :: k in q ==> k in b;
    EntryLinesSplice(table, p, x, q);
    EntryLinesSplice(table, [], x, a[1..]);
    assert [] + ([x] + a[1..]) == a && [] + a[1..] == a[1..];
  }

  /** Visiting the same keys in another order yields the same lines, rearranged. */
  lemma {:induction false} EntryLinesPermutation(table: map<string, StatEntry>, a: seq<string>, b: seq<string>)
    requires forall k :: k in a ==> k in table
    requires forall k :: k in b ==> k in table
    requires multiset(a) == multiset(b)
    ensures multiset(EntryLines(table, a)) == multiset(EntryLines(table, b))
    decreases |a|
  {
    if |a| == 0 {
      assert |multiset(b)| == 0;
      assert b == [];
    } else {
      assert a[0] in multiset(b);
      var i :| 0 <= i < |b| && b[i] == a[0];
      RemoveAt(b, i);
      RemoveAt(a, 0);
      EntryLinesPermutation(table, a[1..], b[..i] + b[i + 1..]);
      PermutationStep(table, a, b, i);
    }
  }

  /** In a sequence without repetitions every element occurs once. */
  lemma {:induction false} DistinctOccursOnce(s: seq<string>, x: string)
    requires Distinct(s)
    ensures multiset(s)[x] == if x in s then 1 else 0
    decreases |s|
  {
    if |s| > 0 {
      assert s == [s[0]] + s[1..];
      assert Distinct(s[1..]);
      DistinctOccursOnce(s[1..], x);
      assert s[0] !in s[1..];
    }
  }

  /** Two iteration orders of the same table visit the same keys. */
  lemma IterationOrdersArePermutations(table: map<string, StatEntry>, a: seq<string>, b: seq<string>)
    requires IsIterationOrder(a, table) && IsIterationOrder(b, table)
    ensures multiset(a) == multiset(b)
  {
    forall x
      ensures multiset(a)[x] == multiset(b)[x]
    {
      DistinctOccursOnce(a, x);
      DistinctOccursOnce(b, x);
    }
  }

  /**
   The dump does not depend on the order in which the table is iterated,
   beyond the order of the per-counter lines.
   */
  lemma DumpStatsOrderIrrelevant(r: Registry, a: seq<string>, b: seq<string>)
    requires r.Initialized?
    requires IsIterationOrder(a, r.table) && IsIterationOrder(b, r.table)
    ensures DumpStats(r, a)[0] == DumpStats(r, b)[0] == HEADER
    ensures multiset(DumpStats(r, a)) == multiset(DumpStats(r, b))
  {
    IterationOrdersArePermutations(r.table, a, b);
    if r.table != map[] {
      EntryLinesPermutation(r.table, a, b);
      assert DumpStats(r, a) == [HEADER] + EntryLines(r.table, a);
      assert DumpStats(r, b) == [HEADER] + EntryLines(r.table, b);
    }
  }

  // ---------------------------------------------------------------------------
  // The scenarios of the unit tests
  // ---------------------------------------------------------------------------

  /** `init_stat` succeeds from any state, and a second call leaves it initialized and empty. */
  lemma InitStatReinitializes(r: Registry, key: string)
    requires r.Initialized? && key in r.table
    ensures InitStat(r).ret && InitStat(InitStat(r).next).ret
    ensures InitStat(InitStat(r).next).next == InitStat(Uninitialized).next
    ensures Lookup(InitStat(r).next, key) == None
  {
  }

  /** `finalize_stat` after `init_stat` succeeds and the registry is uninitialized again. */
  lemma FinalizeAfterInit(r: Registry)
    ensures FinalizeStat(InitStat(r).next) == Step(true, Uninitialized)
  {
  }

  /** A fresh key is registered at 0 under its own name; registering it again fails. */
  lemma AddStatEntryTwice(r: Registry, key: string)
    requires r.Initialized? && key !in r.table
    ensures var first := AddStatEntry(r, Some(key));
            && first.ret
            && Lookup(first.next, key) == Some(StatEntry(key, 0))
            && AddStatEntry(first.next, Some(key)) == Step(false, first.next)
  {
  }

  /** Incrementing a key just added leaves it at exactly 1. */
  lemma IncrementDefinedKey(r: Registry, key: string)
    requires r.Initialized? && key !in r.table
    ensures Lookup(IncrementStat(AddStatEntry(r, Some(key)).next, Some(key)), key) == Some(StatEntry(key, 1))
  {
  }

  /** Incrementing an absent key creates it at exactly 1. */
  lemma IncrementUndefinedKey(r: Registry, key: string)
    requires r.Initialized? && key !in r.table
    ensures Lookup(IncrementStat(r, Some(key)), key) == Some(StatEntry(key, 1))
  {
  }

  /** An empty registry dumps the header and the "nothing found" line. */
  lemma DumpStatsWithoutEntries(r: Registry)
    ensures DumpStats(InitStat(r).next, []) == ["Statistics:", "No statistics found."]
  {
  }

  /** A table with a single key is iterated in exactly one way. */
  lemma SingleKeyOrder(order: seq<string>, table: map<string, StatEntry>, key: string)
    requires IsIterationOrder(order, table) && table.Keys == {key}
    ensures order == [key]
  {
    assert key in order;
    assert order[0] in table;
    forall i | 0 <= i < |order|
      ensures order[i] == key && i == 0
    {
      assert order[i] in table;
    }
    assert order[|order| - 1] == key;
  }

  /** A registry holding only `key` at 1 dumps the header and "key: 1", whatever the iteration order. */
  lemma DumpStatsOneEntry(r: Registry, order: seq<string>)
    requires IsIterationOrder(order, IncrementStat(InitStat(r).next, Some("key")).table)
    ensures DumpStats(IncrementStat(InitStat(r).next, Some("key")), order) == ["Statistics:", "key: 1"]
  {
    var reg := IncrementStat(InitStat(r).next, Some("key"));
    assert reg.table == map["key" := StatEntry("key", 1)];
    assert reg.table.Keys == {"key"};
    SingleKeyOrder(order, reg.table, "key");
    assert Decimal.Show(1) == "1";
    assert EntryLine(reg.table["key"]) == "key: 1";
    assert DumpStats(reg, order) == [HEADER] + EntryLines(reg.table, order);
  }
}
