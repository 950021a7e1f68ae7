# Spring workload engine: keys, documents and the latency reservoir

This project models, in Dafny, the core of perfrunner's "spring" load
generator. That core has three parts.

- **Key generators** (`spring/docgen.py`). They turn a numeric identifier
  into a key string: twelve zero-padded digits, optionally behind
  `prefix-`, or the md5 hex digest of that string. They also choose which
  identifiers each worker loads, warms up or accesses:
  - the loaders SequentialKey, HotKey and UnorderedKey;
  - the per-operation pickers NewOrderedKey, KeyForRemoval, UniformKey,
    WorkingSetKey, ZipfKey and KeyForCASUpdate.
- **Document synthesiser** (`spring/docgen.py`). Each document is built
  from a 64-character alphabet: the digest of the key followed by the
  digest of the reversed key. Its fields are fixed slices of that alphabet,
  small numbers read from single hex digits, or references computed modulo
  the population they point into. The body tiles the alphabet to the
  requested size.
- **Reservoir** (`spring/reservoir.py`). It keeps a bounded sample of
  latency measurements using Algorithm R.

Randomness, the clock and md5 are parameters:

- Every `random`/`numpy` draw is an argument. A `requires` states its range.
- `time.time()` is an argument.
- md5 is any function that returns 32 lower-case hex characters (the
  `Keys.Digest` subset type).

Where Python raises, the model returns `Outcomes.Result.Failure`:

- numpy's `random_integers` on an empty interval;
- `random.randint` with an inverted range;
- a modulo by zero.

The one exception is a zero worker count. There the workload's `workers`
and `KeyForCASUpdate`'s `n1ql_workers` are positive by type (`Pos`), so
the model excludes the case instead of returning `Failure` (see
"Left out").

Modules, one file each:

| file | module | covers |
|---|---|---|
| `result.dfy` | `Outcomes` | the `Result` type |
| `arith.dfy` | `Arith` | division, gcd/Bezout, counting |
| `pyformat.dfy` | `PyFormat` | `'%012d'`, `str(int)`, slicing, `find`, `replace`, `int()`, `math.ceil` with Python's meaning |
| `keys.dfy` | `Keys` | `decimal_fmtr` and `Key` |
| `partition.dfy` | `Partition` | `range(start, stop, step)` and striping between workers |
| `generators.dfy` | `Generators` | the loaders, plus NewOrderedKey and KeyForRemoval |
| `random_access.dfy` | `Access` | the random access pickers |
| `fields.dfy` | `Fields` | the alphabet, the body and the Document fields |
| `references.dfy` | `References` | capped fields, zip codes and join references |
| `arrays.dfy` | `Arrays` | achievement arrays, `_random_array` and Plasma items |
| `reservoir.dfy` | `Sampling` | the reservoir, a class proved against a pure `Offer` function |

The loaders are methods with loops, as in the source. Each is proved equal
to a function of its inputs, and the coverage lemmas are stated about those
functions.

Where the specification of the system and the code disagree, the model
follows the code:

- **WorkingSetKey hit rule.** The coin is `random.randint(0, 100)`, which
  includes 0. So `working_set_access = 0` still yields a hit when the coin
  is 0, although the specification says such a generator never hits.
  `Access.WorkingSetNext` states `hit <==> coin <= access`.
- **Hits and the HotKey set.** With nothing deleted and offset 0:
  - a hit is always a HotKey key, for every items (`Access.WorkingSetHit`);
  - a miss avoids the HotKey set only when 971 is coprime to items
    (`Access.WorkingSetMiss`). With 1942 items, half of them hot, the miss
    at index 2 returns id 0, which is also the image of hot id 972
    (`Access.MissCollides`);
  - with a non-negative offset d, a hit is a HotKey key whenever the drawn
    index plus d stays below items, for every items
    (`Access.WorkingSetDriftHit`);
  - conversely, a hit whose index plus d reaches items is not a HotKey key,
    but only when 971 is coprime to items and d is at most the cold count
    (`Access.WorkingSetDrift`). Larger offsets can wrap back into the hot
    tail: with 10 items, half of them hot, offset 10 and hit draw 5, the
    key is hot although 5 + 10 >= 10.
- **Alphabet length.** The alphabet is 64 characters (two 32-character hex
  digests), not 128.
- **Empty intervals.** The specification asks for a fail-fast domain error.
  The code raises from numpy or `random`, and the model shows that as a
  `Failure`; it never wraps silently.
- **UnorderedKey blocks.** UnorderedKey's blocks are contiguous:
  `[sid * (items // workers), (sid + 1) * (items // workers))`. SequentialKey
  stripes by remainder instead. So a worker's UnorderedKey output is not a
  permutation of its SequentialKey output. It is a permutation of its own
  block, and only when gcd(971, items // workers) = 1. When the block size
  is 971 the worker yields one id 971 times (`Generators.UnorderedDegenerate`).
- **All workers' UnorderedKey output.** When gcd(971, items // workers) = 1,
  the workers together cover `[0, workers * (items // workers))`, each id
  once. That is all of `[0, items)` only when workers divides items. Without
  the gcd condition the coverage fails (`Generators.UnorderedDegenerate`).
- **HotKey inside UnorderedKey.** HotKey's output lies inside UnorderedKey's
  whenever workers divides items, whatever the gcd of 971 and the block
  (`Generators.HotWithinUnordered`). Each hot id `(y * 971) % items` is
  the number UnorderedKey's worker `id // block` produces at step
  `y mod block` (or at the last step, when that is 0).
- **Working-set size.** `working_set` is an integer percentage here. The
  code computes `int(live * working_set / 100)` with a float division; the
  model uses exact division truncated toward zero.

## Model

| member | source | states |
|---|---|---|
| Keys.DecimalFmtr | spring/docgen.py:21-25 | the key string is `prefix-` (when the prefix is non-empty) followed by the '%012d' numeral of the id |
| Keys.DecimalFmtrRoundTrip | spring/docgen.py:21-25 | reading the numeral back after the prefix gives the id: decimal_fmtr loses nothing |
| Keys.DecimalFmtrShape | spring/docgen.py:21-25 | an id in [0, 10^12) gives exactly prefix width + 12 characters, all of them digits after the prefix |
| Keys.DecimalFmtrInjective | spring/docgen.py:21-25 | two ids with the same key string under one prefix are equal |
| Keys.KeyString | spring/docgen.py:36-41 | a hash key is a 32-character hex digest; a decimal key parses back to the key's number |
| Keys.KeyStringInjective | spring/docgen.py:36-41 | decimal keys with one prefix have equal strings if and only if they have equal numbers |
| Keys.KeysOf | spring/docgen.py:28-34 | the keys yielded for a list of ids: one Key per id, in order, with hit unset |
| PyFormat.ZeroPad12RoundTrip | spring/docgen.py:22 | int() of '%012d' % n is n, negative n included |
| PyFormat.ZeroPad12Width | spring/docgen.py:22 | '%012d' of an id in [0, 10^12) is exactly twelve digits |
| PyFormat.StrRoundTrip | spring/docgen.py:474 | int(str(n)) == n, which makes capped values and zip codes readable |
| PyFormat.Trunc | spring/docgen.py:283 | int() of a float truncates toward zero: r <= x < r + 1 when x >= 0, and x <= r < x + 1 (and r <= 0) when x < 0 |
| PyFormat.Ceil | spring/docgen.py:284 | math.ceil: the least integer not below its argument |
| PyFormat.Slice | spring/docgen.py:286 | s[a:b] with Python's clamping: exactly s[a..b] for 0 <= a <= b <= len(s), s[a..] when b passes the end, a run of s starting at a, non-empty when a < len(s) and a < b |
| PyFormat.Find | spring/docgen.py:353 | str.find: -1 exactly when the character is absent, otherwise the index of its first occurrence |
| PyFormat.Remove | spring/docgen.py:740 | str.replace(c, ''): no c remains, a string without c is unchanged, and the result is no longer |
| PyFormat.RemoveCounts | spring/docgen.py:740 | every character other than c occurs as often as in the input, and c not at all |
| PyFormat.RemoveSingle | spring/docgen.py:740 | one character is dropped exactly when it is c; with RemoveConcat this fixes the result, the other characters kept in order |
| PyFormat.StripPadLeft | spring/docgen.py:523 | stripping the fill of a right-justified string returns the string |
| Partition.Stepped | spring/docgen.py:190 | range(start, stop, step): strictly increasing, inside [start, stop) |
| Partition.SteppedMembers | spring/docgen.py:190 | x is in range(start, stop, step) iff start <= x < stop and x - start is a multiple of step |
| Partition.StripedMembers | spring/docgen.py:190 | workers 0..k-1 together visit, without repetition, exactly the ids whose remainder is below k |
| Partition.StripedCover | spring/docgen.py:190 | all workers together visit each id of [base, stop) exactly once, stop - base ids in all |
| Generators.SequentialKeys | spring/docgen.py:189-191 | the loop yields, in order, one key per id of range(sid, items, workers) |
| Generators.SequentialIncreasing | spring/docgen.py:189-191 | a worker's ids increase strictly and are exactly those of [sid, items) congruent to sid modulo workers |
| Generators.SequentialCoverage | spring/docgen.py:173-191 | the workers together load every id of [0, items) exactly once |
| Generators.NumHot | spring/docgen.py:210 | the working set never exceeds the population |
| Generators.HotIds | spring/docgen.py:209-217 | every id a worker warms up lies in [0, items) |
| Generators.HotKeys | spring/docgen.py:209-217 | the loop yields one key per id of range(cold + sid, items, workers), each multiplied by 971 modulo items |
| Generators.AllHotScattered | spring/docgen.py:209-217 | the workers' hot ids together are the striping of [cold, items) scattered by 971 |
| Generators.ScatterDistinct | spring/docgen.py:216 | multiplying by 971 modulo m keeps distinct ids distinct when gcd(971, m) = 1 |
| Generators.HotCoverage | spring/docgen.py:194-217 | with gcd(971, items) = 1 the workers warm up exactly int(items * working_set / 100) ids in [0, items), none twice |
| Generators.UnorderedIds | spring/docgen.py:232-239 | a worker yields items // workers ids, all inside its own block |
| Generators.UnorderedStep | spring/docgen.py:237-238 | adding 971 and reducing modulo the block removes the previous shift, so step n yields n * 971 mod block |
| Generators.UnorderedKeys | spring/docgen.py:232-239 | the loop, with its running number, yields the keys of UnorderedIds in order |
| Generators.UnorderedPermutes | spring/docgen.py:220-239 | with gcd(971, block) = 1 a worker yields each id of its block exactly once |
| Generators.UnorderedDegenerate | spring/docgen.py:232-239 | with a block of exactly 971 ids every step yields the block's first id |
| Generators.AllUnorderedMembers | spring/docgen.py:232-239 | with gcd(971, block) = 1, workers 0..k-1 together insert each id of [0, k * block) exactly once |
| Generators.UnorderedCoverage | spring/docgen.py:220-239 | with gcd(971, block) = 1, all workers insert each id of [0, workers * block) once, which is [0, items) when workers divides items |
| Generators.HotWithinUnordered | spring/docgen.py:194-239 | when workers divides items, every warmed-up id is one UnorderedKey inserted, with no condition on 971 |
| Generators.ImageInUnordered | spring/docgen.py:232-239 | when workers divides items, every (y * 971) % items is among the ids UnorderedKey inserts |
| Generators.HotBound | spring/docgen.py:216 | every hot id lies in [0, items) |
| Generators.NewOrderedNext | spring/docgen.py:61-62 | the new key's number is curr_items, with hit unset |
| Generators.KeyForRemovalNext | spring/docgen.py:73-74 | the removed key's number is curr_deletes, with hit unset |
| Generators.NewOrderedFresh | spring/docgen.py:44-75 | a new key at or past items was never loaded; a removal below items targets a loaded key |
| Access.TruncDiv | spring/docgen.py:139 | int() of a quotient truncates toward zero: r * b <= a < (r + 1) * b for a >= 0, (r - 1) * b < a <= r * b for a < 0 |
| Access.UniformNext | spring/docgen.py:99-102 | fails exactly on an empty interval, otherwise returns a number in [curr_deletes, curr_items) |
| Access.UniformLoaded | spring/docgen.py:99-102 | when workers divides items and gcd(971, block) = 1, a uniform pick within [0, items) is a key UnorderedKey inserted |
| Access.WorkingSetNext | spring/docgen.py:137-155 | fails exactly when the chosen interval is empty; the number lies in [0, live); hit iff coin <= access iff the draw lies in the hot tail |
| Access.LiveHotBounds | spring/docgen.py:139 | the hot count lies between 0 and the live count |
| Access.HotMember | spring/docgen.py:150-154 | with gcd(971, items) = 1, the image under 971 of an id of [0, items) is a hot key iff the id lies in the tail [cold, items) |
| Access.HotMemberTail | spring/docgen.py:216 | each id of a list within [0, m) has its image in the scattered list |
| Access.HotMemberHead | spring/docgen.py:216 | with gcd(971, m) = 1, an id of [0, m) whose image is in the scattered list is at least the list's lower bound |
| Access.HotTail | spring/docgen.py:137-155 | the image of an id of the hot tail [cold, items) is a HotKey key, for every items |
| Access.WorkingSetHit | spring/docgen.py:137-155 | with nothing deleted and no offset, a hit returns a key HotKey warms up, for every items |
| Access.WorkingSetMiss | spring/docgen.py:137-155 | with nothing deleted and no offset, and 971 coprime to items, a miss returns a key HotKey does not warm up |
| Access.MissCollides | spring/docgen.py:137-155 | without coprimality a miss can return a hot key: 1942 items, 50% hot, miss draw 2 gives 0, also the image of hot id 972 |
| Access.WorkingSetDriftHit | spring/docgen.py:152-154 | with nothing deleted and an offset d >= 0, a hit whose index plus d stays below items is a warmed-up key, for every items |
| Access.WorkingSetDrift | spring/docgen.py:152-154 | with nothing deleted, 971 coprime to items and 0 <= d <= cold, a hit is a warmed-up key iff the drawn index plus d stays below items |
| Access.ZipfNext | spring/docgen.py:166-170 | the number is curr_items - z unless that is at or below curr_deletes, when it is curr_items - 1; it lies in [curr_deletes, curr_items) when that interval is non-empty |
| Access.ZipfLoaded | spring/docgen.py:166-170 | when workers divides items and gcd(971, block) = 1, a Zipf pick within [0, items) is a key UnorderedKey inserted |
| Access.CasNext | spring/docgen.py:249-257 | fails exactly when the per-worker shard is empty, otherwise the number lies in worker sid's shard |
| Access.CasDisjoint | spring/docgen.py:242-257 | workers with different sids never pick the same key, and a worker below n1ql_workers stays below curr_items |
| Fields.BuildAlphabet | spring/docgen.py:276-279 | 64 lower-case hex characters: two 32-character hex digests side by side |
| Fields.AlphabetHalves | spring/docgen.py:276-279 | the alphabet is the key's digest then the reversed key's digest |
| Fields.HexValue | spring/docgen.py:362-363 | int(c, 16) of a hex digit is below 16, and below 10 exactly for '0'-'9' |
| Fields.HexValueInjective | spring/docgen.py:362-363 | different hex digits have different values, so int(c, 16) maps the 16 digits one to one onto [0, 16) |
| Fields.BuildString | spring/docgen.py:281-286 | the body has int(length) characters (none for a negative length), character i being alphabet[i mod 64] |
| Fields.DocumentSize | spring/docgen.py:369-372 | 0 at or below the overhead, otherwise between 0.75 and 1.25 times the room above it |
| Fields.SmallBodyEmpty | spring/docgen.py:369-372 | a document no larger than its overhead has an empty body; a reverse-lookup body is exactly avg_size - overhead long |
| Fields.ReverseLookupSize | spring/docgen.py:454-455 | the room avg_size - OVERHEAD is non-positive exactly when the document is no larger than its overhead, and below avg_size for a positive overhead |
| Fields.StringNext | spring/docgen.py:288-291 | the String value is avg_size characters of the key's tiled alphabet |
| Fields.BuildName | spring/docgen.py:304-306 | two six-character hex words separated by the first and only space |
| Fields.BuildEmail | spring/docgen.py:308-310 | 17 characters: a hex word, '@' first at position 6, a hex word, ".com" |
| Fields.BuildAltEmail | spring/docgen.py:312-316 | 17 characters built from the words at the drawn offsets |
| Fields.AltEmailDomains | spring/docgen.py:308-316 | domain offset 18 reproduces the email's domain; 12 uses the email's user name as domain |
| Fields.BuildCity | spring/docgen.py:318-320 | a six-character hex word |
| Fields.BuildRealm | spring/docgen.py:322-324 | a six-character hex word |
| Fields.BuildCountry | spring/docgen.py:326-328 | a six-character hex word |
| Fields.BuildCounty | spring/docgen.py:330-332 | a six-character hex word |
| Fields.BuildStreet | spring/docgen.py:334-336 | an eight-character hex word |
| Fields.BuildTitle | spring/docgen.py:586-587 | a 32-character hex word |
| Fields.TitleIsDigest | spring/docgen.py:586-587 | the title is the md5 digest of the document's own key |
| Fields.BuildCategory | spring/docgen.py:361-363 | a category in [0, 3) |
| Fields.BuildYear | spring/docgen.py:347-349 | a year in [1985, 2000] |
| Fields.GmtimeSeconds | spring/docgen.py:342-345 | a whole number, from 0 to 11, of 396-day periods |
| Fields.IndexModulo | spring/docgen.py:353 | a found position below n is its own remainder, and -1 leaves n - 1 |
| Fields.StateIndex | spring/docgen.py:351-354 | an index into the states; the last state when there is no '7'; otherwise the position of the first '7' when that is below the count |
| Fields.FullStateIndex | spring/docgen.py:356-359 | the same for the first '8' |
| Fields.DocumentNext | spring/docgen.py:374-388 | name, email and alt_email have their fixed lengths, the category is below 3, and a small document's body is empty |
| References.IsRandom | spring/docgen.py:460 | every prefix except "n1ql" makes the builders draw randomly |
| References.ReverseLookupEmail | spring/docgen.py:462-466 | the alternative email for a random prefix, the plain email for "n1ql" |
| References.BuildCapped | spring/docgen.py:468-474 | random: a six-character hex word; deterministic: "prefix_numUnique_" followed by a numeral reading seq_id // num_unique |
| References.CappedShared | spring/docgen.py:468-474 | deterministic capped values are equal iff the ids lie in the same block of num_unique |
| References.BuildRangeCapped | spring/docgen.py:517-523 | as BuildCapped with the index right-justified in 12 columns, which strip back to seq_id // num_unique |
| References.PaddedIndex | spring/docgen.py:523 | '%12s' of an index strips back to it and is 12 columns for an index below 10^12 |
| References.RangeCappedDistance | spring/docgen.py:547-549 | the range field of id n reads block n // 100 + distance |
| References.RangeCappedShared | spring/docgen.py:517-523 | deterministic range values are equal iff the ids share a block |
| References.BuildProfileCapped | spring/docgen.py:738-740 | no '_' remains: the random value as is, the deterministic one as prefix, num_unique and index run together |
| References.ProfileRemove | spring/docgen.py:738-740 | removing '_' from a capped value leaves the random value alone and joins the deterministic parts |
| References.ProfileCappedShared | spring/docgen.py:738-740 | deterministic profile values are equal iff the ids share a block |
| References.BuildZip | spring/docgen.py:742-747 | five digits; the random draw itself, or a code in [70000, 90000) |
| References.ZipPeriodic | spring/docgen.py:742-747 | deterministic zips repeat every 20000 ids and differ within such a run |
| References.BuildRefName | spring/docgen.py:622-623 | the reference parses back to the document's number |
| References.RefNameResolves | spring/docgen.py:622-623 | a reference resolves in a population iff its number lies inside it |
| References.BuildOwner | spring/docgen.py:581-584 | fails exactly when num_docs // 4 is 0; otherwise resolves into the first quarter and is congruent to seq_id |
| References.OwnerOf | spring/docgen.py:581-584 | with at least four documents the owner is the reference to seq_id % (num_docs // 4) |
| References.OwnerShared | spring/docgen.py:581-584 | two documents share an owner exactly when their ids are congruent modulo num_docs // 4 |
| References.Offsets4 | spring/docgen.py:589-596 | four ids inside the population |
| References.NearbyDistinct | spring/docgen.py:589-596 | ids closer than the population have different remainders |
| References.Offsets4Distinct | spring/docgen.py:589-596 | with more than 18 in the population the four ids differ |
| References.RefNames | spring/docgen.py:589-596 | each reference parses back to its id |
| References.RefNamesDistinct | spring/docgen.py:589-596 | distinct ids give distinct references |
| References.BuildCategories | spring/docgen.py:589-596 | fails exactly with no categories; otherwise four references that all resolve among the categories |
| References.BuildTopics | spring/docgen.py:562-569 | fails exactly with no documents; otherwise four references that all resolve among the documents |
| References.CategoriesTopicsDistinct | spring/docgen.py:562-596 | above 18 the four references differ, and topics equal categories for the same population |
| References.BuildUser | spring/docgen.py:598-599 | the user resolves to document (seq_id + idx + 537) mod num_docs |
| References.BuildReplies | spring/docgen.py:601-606 | fails exactly when there are replies but no documents; otherwise num_replies references that all resolve (the `{'user': …}` wrapper of each reply is dropped) |
| References.RepliesDistinct | spring/docgen.py:598-606 | with no more replies than documents every reply names a different user |
| Arrays.Run | spring/docgen.py:689 | [offset + i for i in range(n)] |
| Arrays.RunMembers | spring/docgen.py:689 | the run holds exactly [offset, offset + n) |
| Arrays.Achievements1 | spring/docgen.py:653-689 | fails exactly when random with an empty size; otherwise array_size consecutive integers from the offset, element i being offset + i |
| Arrays.Achievements1DeterministicDisjoint | spring/docgen.py:653-689 | deterministic arrays of different ids never overlap |
| Arrays.Achievements1RandomDisjoint | spring/docgen.py:653-689 | random arrays of different ids never overlap, whatever the draws |
| Arrays.Achievements1ModesDisjoint | spring/docgen.py:653-689 | a deterministic array of an id in [0, num_docs] never overlaps a random one of an id >= 1 |
| Arrays.Achievements2 | spring/docgen.py:691-705 | ARRAY_SIZE consecutive integers from the offset, element i being offset + i |
| Arrays.Achievements2Blocks | spring/docgen.py:691-705 | deterministic arrays are equal within a block of 100 ids and disjoint across blocks |
| Arrays.Achievements2ModesDisjoint | spring/docgen.py:691-705 | with at least one document, a deterministic array of an id in [0, num_docs] never overlaps a random one |
| Arrays.RandomArray | spring/docgen.py:856-864 | "" gives no pieces, a value shorter than num five copies of itself; otherwise num pieces, piece i being value[scope[i-1] : i + scope[i]] (from 0 for the first) |
| Arrays.RandomArrayPieces | spring/docgen.py:856-864 | for a sorted sample of distinct positions, the first piece is a run of the value from 0 and every later piece a non-empty run starting at the previous sampled position |
| Arrays.Tiled | spring/docgen.py:1004-1006 | n characters of the alphabet repeated |
| Arrays.BuildItem | spring/docgen.py:1002-1010 | fails exactly when size - len(prefix) < 1; otherwise `prefix-` (if any) and the tiled body rotated left by the draw |
| Arrays.ItemBody | spring/docgen.py:1004-1006 | ceil(length / 64) copies of the alphabet begin with the tiled body |
| Arrays.ItemSlices | spring/docgen.py:1004-1010 | body[num:length] and body[0:num] are the two parts of the tiled body split at num |
| Arrays.RotateBack | spring/docgen.py:1008-1010 | rotating back by the rest restores a rotated sequence |
| Arrays.ItemRotation | spring/docgen.py:1002-1010 | the item's tail rotated back is the tiled body; the item is size characters long, plus one for a prefix's dash |
| Sampling.Init | spring/reservoir.py:15-20 | empty, count 0, capacity = MAX_CAPACITY // num_workers |
| Sampling.Offer | spring/reservoir.py:22-35 | a zero value changes nothing; otherwise count grows by one, the sample is appended while not full, and when full only slot r is replaced (if r < capacity); the fill invariant is kept |
| Sampling.Counted | spring/reservoir.py:24-27 | no more counted measurements than offered |
| Sampling.OfferAll | spring/reservoir.py:22-35 | a stream leaves capacity alone and adds its non-zero measurements to count |
| Sampling.OfferAllKeeps | spring/reservoir.py:18-35 | from a reservoir with len(values) == min(count, capacity), that equation still holds after any stream, and every sample held was held before or offered with a non-zero value |
| Sampling.StreamFills | spring/reservoir.py:15-35 | a fresh reservoir offered at least capacity non-zero measurements holds exactly capacity samples |
| Sampling.Reservoir.constructor | spring/reservoir.py:17-20 | the fields hold Init(num_workers) and the fill invariant |
| Sampling.Reservoir.Update | spring/reservoir.py:22-35 | the new state is Offer of the old state, and the fill invariant is kept |

## Left out

- Floating point: `Document._get_variation_coeff` is a parameter in [0.75, 1.25]. `_build_coins` (a float) is not modelled, nor are `NestedDocument`'s normal-distribution size and the documents built on it (`NestedDocument`, `LargeDocument`).
- `build_achievements` (fastdocgen) and `Document._build_achievements` are left out, because they are a foreign C extension.
- `Document._build_gmtime`: only the seconds are modelled; `time.gmtime` is a library call.
- `_build_state` and `_build_full_state`: only the index into `STATES` is modelled. The table of state names and `STREET_SUFFIX` are data tables, and `ProfileDocument._build_long_street` is left out with them.
- `FTSKey` is left out: it only returns the hex digits of a random integer in `[0, mutate_items]`, and it is not part of the key generators this model covers.
- Only `Document.next` and `String.next` are modelled as whole documents. The `next` methods of the other document classes only assemble dictionaries from the builders modelled here, so they are left out.
- `SequentialPlasmaDocument.next` indexes a `Key` object and cannot run, so it is left out.
- `ImportExportDocument` and its nested variant are left out; only `ImportExportDocumentArray._random_array` is modelled.
- `ReverseLookupDocument._build_topics` always returns the empty list; it is not a separate member.
- `Reservoir.dump` writes a CSV file through `logger` and is left out.
- The probabilistic promise of Algorithm R is left out: each of n measurements survives with probability capacity / n. The model proves the deterministic part only: fill level, count, and that every survivor was offered.
- Fields.BuildAlphabet: reverses the key's characters rather than its UTF-8 bytes. The two agree for ASCII prefixes, which is what the key strings hold.
- Sampling.Init: `num_workers` must be at least 1. Python raises for 0, and a negative count gives a negative capacity, which the model does not represent.
- Access.WorkingSetNext: `int(live * working_set / 100)` is computed exactly rather than in floating point, and `working_set` is an integer percentage.
- Generators.SequentialKeys: a zero worker count is excluded by type (`workers: Pos`), although Python's `range(sid, items, 0)` raises ValueError.
- Generators.HotKeys: the same exclusion; `range(…, 0)` raises ValueError.
- Generators.UnorderedKeys: the same exclusion; `items // 0` raises ZeroDivisionError.
- Access.CasNext: `n1ql_workers` is positive by type (`totalWorkers: Pos`), although `curr_items // 0` raises ZeroDivisionError.
- References.BuildReplies: each reply is the bare reference string, without the `{'user': …}` dictionary that wraps it.
- `md5` is not modelled; it is any function returning 32 hex characters.
- Random draws and `time.time()` are parameters.
