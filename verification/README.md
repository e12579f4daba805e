# Trema statistics registry and switch port numbering, in Dafny

This project models two small pieces of the Trema OpenFlow framework.

1. **The statistics registry** (`stat.c`, whose behaviour is fixed by `unittests/lib/stat_test.c`).
   It is a process-wide table of named `uint64_t` counters, with five operations:
   - `init_stat` creates the table, or replaces it if it already exists.
   - `finalize_stat` destroys the table.
   - `add_stat_entry` registers a name at 0 and fails on a duplicate.
   - `increment_stat` creates the counter if it is absent, then adds one.
   - `dump_stats` logs a header and then one `name: value` line per counter, or a "No statistics found." line when there are none.

   The global `stats` pointer becomes an explicit `Registry` value: `Uninitialized` stands for NULL, and `Initialized(table)` for a live table.
   Each operation is a pure function from the old registry to its return value and the new registry.
   The fatal `assert`s on misuse are preconditions: an uninitialized registry, or a NULL key, which is `None` of `KeyArg`.
   `dump_stats` returns the lines it would hand to `info()`.
   The hash table's iteration order is an explicit parameter of `dump_stats`, and a lemma shows that the dump is the same multiset of lines for every order.
   A counter is a `U64`, and `++` wraps around modulo 2^64.

2. **The `ports` attribute of a `trema_switch` stanza** (`ruby/trema/dsl/trema-switch.rb`).
   `ports "eth0,eth1"` stores `"eth0/1,eth1/2"`: it splits on commas, suffixes each field with `/` and its 1-based position, and joins the fields with commas again.
   Ruby's `String#split` with a one-character pattern is modelled on sequences of characters.
   It splits at every comma, then drops the trailing empty fields, so `"".split(',')` is `[]`.
   `Array#join` is modelled on the same character sequences.
   The decimal rendering of the positions, and of counter values in the dump, is shared with the registry (module `Decimal`).

Modules: `Wrappers` (Option), `Decimal`, `Stat`, `RubyString` and `TremaSwitch`, one per file.

## Model

| member | source | states |
|---|---|---|
| Stat.InitStat | unittests/lib/stat_test.c:98-113 | `init_stat` succeeds from any state, including an already initialized one. Afterwards the registry is initialized, well formed and holds no counter. |
| Stat.InitStatReinitializes | unittests/lib/stat_test.c:106-113 | A second `init_stat` succeeds too and leaves the same empty table as a first one. Counters registered before it are gone. |
| Stat.FinalizeStat | unittests/lib/stat_test.c:120-131 | `finalize_stat` requires an initialized registry (it asserts otherwise). It returns true and leaves the registry uninitialized. |
| Stat.FinalizeAfterInit | unittests/lib/stat_test.c:120-125 | `init_stat` followed by `finalize_stat` succeeds and ends uninitialized, from any starting state. |
| Stat.AddStatEntry | unittests/lib/stat_test.c:138-162 | Requires an initialized registry and a non-NULL key. It returns true exactly when the key was absent; the new entry then carries the key and the value 0. On a duplicate it returns false and leaves the registry unchanged. Other keys are untouched, and the key-equals-name invariant is kept. |
| Stat.AddStatEntryTwice | unittests/lib/stat_test.c:138-162 | Registering a fresh key succeeds with entry `(key, 0)`. Registering the same key again returns false and changes nothing. |
| Stat.IncrementStat | unittests/lib/stat_test.c:169-216 | Requires an initialized registry and a non-NULL key. The key is present afterwards. Its value is the previous one plus 1 modulo 2^64, an absent key counting as 0. No other counter changes, and the invariant is kept. |
| Stat.IncrementDefinedKey | unittests/lib/stat_test.c:169-183 | A key added at 0 and incremented once holds exactly `(key, 1)`. |
| Stat.IncrementUndefinedKey | unittests/lib/stat_test.c:186-199 | Incrementing an absent key creates it holding exactly `(key, 1)`. |
| Stat.IncrementTimes | unittests/lib/stat_test.c:169-199 | `n` increments of one key raise it by exactly `n` modulo 2^64, and leave every other counter as it was. |
| Stat.DumpStats | unittests/lib/stat_test.c:223-253 | Requires an initialized registry, and takes an order that visits each key once. The first line is always "Statistics:". An empty table gives exactly "Statistics:" and "No statistics found.". Otherwise there is one `name: value` line per counter, in the visiting order, with the value in decimal. |
| Stat.DumpStatsOrderIrrelevant | unittests/lib/stat_test.c:223-235 | Any two orders of visiting the table give the same multiset of dump lines, both headed "Statistics:". |
| Stat.DumpStatsWithoutEntries | unittests/lib/stat_test.c:238-247 | Right after `init_stat` the dump is exactly "Statistics:", "No statistics found.". |
| Stat.DumpStatsOneEntry | unittests/lib/stat_test.c:223-235 | After `init_stat` and one `increment_stat( "key" )`, the dump is exactly "Statistics:", "key: 1", in every visiting order. |
| Decimal.Show | ruby/trema/dsl/trema-switch.rb:33 | The decimal rendering of a number is a non-empty digit string. It has no leading zero unless the number is 0, and it is one digit long exactly for numbers below 10. |
| Decimal.ParseShow | ruby/trema/dsl/trema-switch.rb:33 | Parsing a rendered number gives the number back. |
| Decimal.ShowParse | ruby/trema/dsl/trema-switch.rb:33 | Rendering a parsed canonical digit string gives the string back. |
| Decimal.ShowInjective | ruby/trema/dsl/trema-switch.rb:33 | Distinct numbers render to distinct strings. |
| RubyString.Fields | ruby/trema/dsl/trema-switch.rb:33 | Splitting at every separator gives at least one field, and no field contains the separator. |
| RubyString.FieldsCount | ruby/trema/dsl/trema-switch.rb:33 | There is exactly one more field than there are separators in the string. |
| RubyString.JoinFields | ruby/trema/dsl/trema-switch.rb:33 | Joining the fields with the separator rebuilds the original string. |
| RubyString.FieldsJoin | ruby/trema/dsl/trema-switch.rb:33 | Splitting a join of separator-free fields gives back every field, empty ones included. |
| RubyString.DropTrailingEmpty | ruby/trema/dsl/trema-switch.rb:33 | The result is the longest prefix that does not end in an empty string. Everything removed is empty. |
| RubyString.Split | ruby/trema/dsl/trema-switch.rb:33 | `split(',')` yields separator-free fields, and the last field, if any, is non-empty. Joining the fields with the separator gives a prefix of the input, and everything after that prefix is separators. |
| RubyString.JoinAppend | ruby/trema/dsl/trema-switch.rb:33 | Joining two non-empty lists of fields one after the other equals joining each and putting one separator between them. |
| RubyString.DropTrailingEmptyJoin | ruby/trema/dsl/trema-switch.rb:33 | Dropping the trailing empty fields before joining only removes separators from the end of the joined string. |
| RubyString.SplitJoin | ruby/trema/dsl/trema-switch.rb:33 | Join then split is the identity on separator-free fields whose last field is non-empty. |
| TremaSwitch.Ports | ruby/trema/dsl/trema-switch.rb:32-34 | Splitting the stored value on `,` gives exactly as many fields as splitting the argument. Field `i` is argument field `i` followed by `/` and the decimal of `i + 1`. The stored value never ends in a comma. |
| TremaSwitch.NumberedPorts | ruby/trema/dsl/trema-switch.rb:33 | Numbering comma-free fields and joining them gives a string that splits back into the numbered fields, one per input field, and does not end in a comma. |
| TremaSwitch.NumberedAddsNoSeparator | ruby/trema/dsl/trema-switch.rb:33 | The appended `/<n>` contains no comma, so a numbered field has exactly the commas of the port name. |
| TremaSwitch.NumberedFieldsSplitBack | ruby/trema/dsl/trema-switch.rb:33 | Numbered comma-free fields, joined with commas and split again, come back unchanged. |
| TremaSwitch.ParseNumbered | ruby/trema/dsl/trema-switch.rb:33 | A field accepted as `name/position` is exactly that name, `/` and that position in decimal. |
| TremaSwitch.ParseNumberedInverse | ruby/trema/dsl/trema-switch.rb:33 | Every numbered field is accepted, and taking it apart gives back the name and position it was built from, whatever the name contains. |
| TremaSwitch.PortsRoundTrip | ruby/trema/dsl/trema-switch.rb:33 | Taking apart each field of the stored value recovers the original port names in order, with positions running 1, 2, ..., n. |

## Left out

- `stat.c` is not part of this model. The registry's behaviour is taken from the assertions of its unit tests.
- Stat.AddStatEntry: the tests never pass NULL to `add_stat_entry`. Its non-NULL key requirement is assumed to be the same as `increment_stat`'s, whose NULL case the tests show to be fatal.
- Truncation of a key to `STAT_KEY_LENGTH - 1` characters is not modelled, because the constant's value is not visible. Keys are unbounded strings.
- The hash table behind `stats` is a Dafny `map`, and its iteration order is a parameter of `DumpStats`.
- The logging sink is not modelled. `dump_stats` returns its lines instead of calling `info()`. The `debug` and `warn` messages of the other operations are not modelled.
- Memory allocation and release are not modelled; `finalize_stat` just returns the registry to `Uninitialized`.
- Concurrent callers are not modelled; the model is single-threaded.
- The cmockery test harness, the mock logging functions, the `reset` fixture and `main` are not modelled. They only drive the tests.
- The `Switch` superclass, the stanza's constructor and the DSL evaluation context are not part of this model. `Ports` is the value that `ports` assigns to `@ports` and returns.
- Strings are sequences of characters. Byte encodings, invalid byte sequences and C's NUL terminator are not modelled.
- Ruby's `split` on a non-String argument, and its awk-style splitting for a single-space pattern, are not modelled. Neither applies to `','`.
