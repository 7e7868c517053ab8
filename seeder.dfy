/**
 * The record-generation loop of the `translations:seed` command: the count is cut
 * into batches, each batch's rows are generated with keys ending in `key_<uniqueId>`
 * and upserted on (key, locale). The random draws are inputs.
 */
module Seeding {
  import opened Wrappers
  import opened Text
  import opened TranslationModel
  import opened Translations

  // ---------------------------------------------------------------------------
  // Batch arithmetic

  /** `(int) ceil($count / $batchSize)`. */
  function BatchCount(count: nat, batchSize: nat): nat
    requires batchSize > 0
  {
    (count + batchSize - 1) / batchSize
  }

  /** The batches reach `count` and no batch is wholly past it. */
  lemma CeilDivision(count: nat, batchSize: nat)
    requires batchSize > 0
    ensures count <= BatchCount(count, batchSize) * batchSize < count + batchSize
  {
    var x := count + batchSize - 1;
    assert x == (x / batchSize) * batchSize + x % batchSize;
  }

  /** There is a batch exactly when there is something to seed. */
  lemma SomeBatchIffCount(count: nat, batchSize: nat)
    requires batchSize > 0
    ensures BatchCount(count, batchSize) > 0 <==> count > 0
  {
    if count > 0 {
      assert count + batchSize - 1 >= batchSize;
    }
  }

  lemma MulMonotone(a: nat, b: nat, k: nat)
    requires a <= b
    ensures a * k <= b * k
  {
  }

  /** Batch `b` starts before `count`. */
  lemma BatchStartsBeforeCount(count: nat, batchSize: nat, b: nat)
    requires batchSize > 0 && b < BatchCount(count, batchSize)
    ensures b * batchSize < count
  {
    CeilDivision(count, batchSize);
    MulMonotone(b + 1, BatchCount(count, batchSize), batchSize);
    assert (b + 1) * batchSize == b * batchSize + batchSize;
  }

  /** `$currentBatchSize = min($batchSize, $count - ($batch * $batchSize))`. */
  function BatchLength(count: nat, batchSize: nat, b: nat): (n: nat)
    requires batchSize > 0 && b < BatchCount(count, batchSize)
    ensures 1 <= n <= batchSize
  {
    BatchStartsBeforeCount(count, batchSize, b);
    Min(batchSize, count - b * batchSize)
  }

  /** The total length of the first `k` batches. */
  function Covered(count: nat, batchSize: nat, k: nat): nat
    requires batchSize > 0 && k <= BatchCount(count, batchSize)
  {
    if k == 0 then 0 else Covered(count, batchSize, k - 1) + BatchLength(count, batchSize, k - 1)
  }

  /** The first `k` batches cover [0, min(k * batchSize, count)). */
  lemma {:induction false} CoveredIsPrefix(count: nat, batchSize: nat, k: nat)
    requires batchSize > 0 && k <= BatchCount(count, batchSize)
    ensures Covered(count, batchSize, k) == Min(k * batchSize, count)
  {
    if k > 0 {
      CoveredIsPrefix(count, batchSize, k - 1);
      BatchStartsBeforeCount(count, batchSize, k - 1);
      assert k * batchSize == (k - 1) * batchSize + batchSize;
    }
  }

  /** The batch lengths add up to `count`. */
  lemma BatchLengthsSum(count: nat, batchSize: nat)
    requires batchSize > 0
    ensures Covered(count, batchSize, BatchCount(count, batchSize)) == count
  {
    CoveredIsPrefix(count, batchSize, BatchCount(count, batchSize));
    CeilDivision(count, batchSize);
  }

  /** Every id below `count` is `b * batchSize + i` for a batch `b` and an offset `i` inside it. */
  lemma EveryIdHasASlot(count: nat, batchSize: nat, n: nat)
    requires batchSize > 0 && n < count
    ensures n / batchSize < BatchCount(count, batchSize)
    ensures n % batchSize < BatchLength(count, batchSize, n / batchSize)
    ensures (n / batchSize) * batchSize + n % batchSize == n
  {
    var b := n / batchSize;
    assert n == b * batchSize + n % batchSize;
    CeilDivision(count, batchSize);
    if b >= BatchCount(count, batchSize) {
      MulMonotone(BatchCount(count, batchSize), b, batchSize);
    }
  }

  /** Distinct slots give distinct ids. */
  lemma SlotsDistinct(batchSize: nat, b: nat, i: nat, c: nat, j: nat)
    requires i < batchSize && j < batchSize && (b, i) != (c, j)
    ensures b * batchSize + i != c * batchSize + j
  {
    if b < c {
      MulMonotone(b + 1, c, batchSize);
      assert (b + 1) * batchSize == b * batchSize + batchSize;
    } else if c < b {
      MulMonotone(c + 1, b, batchSize);
      assert (c + 1) * batchSize == c * batchSize + batchSize;
    }
  }

  // ---------------------------------------------------------------------------
  // Generated rows

  /**
   * The random choices made for one row, each an arbitrary number reduced to the range
   * it picks from: the two `array_rand` picks of the row, the phrase pick inside
   * `generateFakeValue` and its `rand(1, 1000)`.
   */
  datatype Draw = Draw(prefix: nat, locale: nat, phrase: nat, number: nat)

  const Locales: seq<string> := ["en", "fr", "es", "de", "it", "pt", "nl", "ru", "zh", "ja"]

  const KeyPrefixes: seq<string> := [
    "common", "auth", "validation", "messages", "errors", "buttons", "labels", "placeholders",
    "notifications", "pages", "forms", "modals", "menu", "footer", "header"
  ]

  const Phrases: map<string, seq<string>> := map[
    "common" := ["Welcome", "Hello", "Goodbye", "Thank you", "Please wait"],
    "auth" := ["Login", "Logout", "Register", "Password", "Email"],
    "validation" := ["This field is required", "Invalid email", "Password too short"],
    "messages" := ["Success!", "Error occurred", "Please try again", "Loading..."],
    "errors" := ["Something went wrong", "Not found", "Access denied", "Session expired"],
    "buttons" := ["Submit", "Cancel", "Save", "Delete", "Edit", "Create"],
    "labels" := ["Name", "Email", "Phone", "Address", "Description"],
    "placeholders" := ["Enter your name", "Enter email", "Type here..."],
    "notifications" := ["New message", "Update available", "Task completed"],
    "pages" := ["Home", "About", "Contact", "Dashboard", "Settings"],
    "forms" := ["Fill in the form", "Required fields", "Optional"],
    "modals" := ["Confirm action", "Are you sure?", "Close"],
    "menu" := ["Profile", "Settings", "Logout", "Help"],
    "footer" := ["Terms of Service", "Privacy Policy", "Contact Us"],
    "header" := ["Welcome back", "Navigation", "Search"]
  ]

  /** `$phrases[$prefix] ?? $phrases['common']`. */
  function PhraseOptions(prefix: string): (options: seq<string>)
    ensures |options| > 0
  {
    if prefix in Phrases then Phrases[prefix] else Phrases["common"]
  }

  /** A prefix without a phrase list of its own draws from the 'common' list. */
  lemma UnknownPrefixFallsBack(prefix: string)
    requires prefix !in Phrases
    ensures PhraseOptions(prefix) == ["Welcome", "Hello", "Goodbye", "Thank you", "Please wait"]
  {
  }

  /** Every prefix the command draws has a phrase list of its own, so the fallback is never taken there. */
  lemma EveryPrefixHasPhrases(i: nat)
    requires i < |KeyPrefixes|
    ensures KeyPrefixes[i] in Phrases && PhraseOptions(KeyPrefixes[i]) == Phrases[KeyPrefixes[i]]
  {
  }

  /** `generateFakeValue($prefix)`: a phrase of the prefix's list, a space, and a number from 1 to 1000. */
  function FakeValue(prefix: string, phrase: nat, number: nat): (v: string)
    ensures exists k, n ::
      0 <= k < |PhraseOptions(prefix)| && 1 <= n <= 1000 && v == PhraseOptions(prefix)[k] + " " + Decimal(n)
  {
    var options := PhraseOptions(prefix);
    var k, n := phrase % |options|, 1 + number % 1000;
    assert 0 <= k < |options| && 1 <= n <= 1000;
    options[k] + " " + Decimal(n)
  }

  /** `"{$prefix}.key_{$uniqueId}"`. */
  function KeyFor(prefix: string, uniqueId: nat): string
  {
    prefix + ".key_" + Decimal(uniqueId)
  }

  /** The longest run of digits that ends `s`. */
  function DigitSuffix(s: string): (d: string)
    ensures AllDigits(d)
  {
    if s != [] && IsDigit(s[|s| - 1]) then DigitSuffix(s[..|s| - 1]) + [s[|s| - 1]] else []
  }

  /** The number a generated key ends in. */
  function KeyId(key: string): nat
  {
    ParseDecimal(DigitSuffix(key))
  }

  lemma {:induction false} DigitSuffixAfter(x: string, d: string)
    requires AllDigits(d) && x != [] && !IsDigit(x[|x| - 1])
    ensures DigitSuffix(x + d) == d
  {
    if d == [] {
      assert x + d == x;
    } else {
      var y := x + d;
      var init := d[..|d| - 1];
      assert y[..|y| - 1] == x + init;
      DigitSuffixAfter(x, init);
      assert init + [d[|d| - 1]] == d;
    }
  }

  /** A generated key gives back its unique id, whatever the prefix. */
  lemma KeyIdOfKey(prefix: string, uniqueId: nat)
    ensures KeyId(KeyFor(prefix, uniqueId)) == uniqueId
  {
    var x := prefix + ".key_";
    assert KeyFor(prefix, uniqueId) == x + Decimal(uniqueId);
    DigitSuffixAfter(x, Decimal(uniqueId));
    ParseDecimalInverts(uniqueId);
  }

  /** Keys generated for different unique ids differ, so no (key, locale) pair repeats in a run. */
  lemma KeysDistinct(prefix: string, other: string, u: nat, v: nat)
    requires u != v
    ensures KeyFor(prefix, u) != KeyFor(other, v)
  {
    KeyIdOfKey(prefix, u);
    KeyIdOfKey(other, v);
  }

  /** The record the loop builds for unique id `u`. */
  datatype NewRow = NewRow(key: string, locale: string, value: string)

  function Generated(u: nat, draw: nat -> Draw): (r: NewRow)
    ensures KeyId(r.key) == u
    ensures r.locale in Locales
  {
    var d := draw(u);
    KeyIdOfKey(KeyPrefixes[d.prefix % |KeyPrefixes|], u);
    var prefix := KeyPrefixes[d.prefix % |KeyPrefixes|];
    NewRow(KeyFor(prefix, u), Locales[d.locale % |Locales|], FakeValue(prefix, d.phrase, d.number))
  }

  // ---------------------------------------------------------------------------
  // Upsert

  /** `rec` is keyed on the same (key, locale) pair as `t`. */
  predicate SamePair(t: Translation, rec: NewRow)
  {
    t.key == rec.key && t.locale == rec.locale
  }

  /**
   * `upsert` of one row on (key, locale): the row holding the pair gets the new value;
   * without one, a row is inserted under the next id.
   */
  function UpsertRow(table: map<nat, Translation>, nextId: nat, rec: NewRow): (map<nat, Translation>, nat)
  {
    if exists id | id in table :: SamePair(table[id], rec) then
      (map id | id in table :: if SamePair(table[id], rec) then table[id].(value := rec.value) else table[id], nextId)
    else
      (table[nextId := Translation(nextId, rec.key, rec.locale, rec.value)], nextId + 1)
  }

  /** When the pair is held, no row is added and only the holder's value changes. */
  lemma UpsertRowOverwrites(table: map<nat, Translation>, nextId: nat, rec: NewRow)
    requires PairTaken(table, rec.key, rec.locale, None)
    ensures UpsertRow(table, nextId, rec).1 == nextId
    ensures UpsertRow(table, nextId, rec).0.Keys == table.Keys
    ensures forall id :: id in table ==>
      UpsertRow(table, nextId, rec).0[id]
        == table[id].(value := if SamePair(table[id], rec) then rec.value else table[id].value)
  {
  }

  /** When the pair is free, exactly one row is inserted, under the next id. */
  lemma UpsertRowInserts(table: map<nat, Translation>, nextId: nat, rec: NewRow)
    requires !PairTaken(table, rec.key, rec.locale, None)
    ensures UpsertRow(table, nextId, rec) == (table[nextId := Translation(nextId, rec.key, rec.locale, rec.value)], nextId + 1)
  {
  }

  /** An upserted row keeps the ids consistent and the (key, locale) pairs unique. */
  lemma UpsertRowKeepsValid(table: map<nat, Translation>, nextId: nat, rec: NewRow)
    requires IdsConsistent(table, nextId) && UniquePairs(table)
    ensures IdsConsistent(UpsertRow(table, nextId, rec).0, UpsertRow(table, nextId, rec).1)
    ensures UniquePairs(UpsertRow(table, nextId, rec).0)
    ensures nextId <= UpsertRow(table, nextId, rec).1
  {
  }

  /** `Translation::upsert($records, ['key', 'locale'], ...)`: the rows one after the other. */
  function UpsertAll(table: map<nat, Translation>, nextId: nat, records: seq<NewRow>): (map<nat, Translation>, nat)
  {
    if records == [] then (table, nextId)
    else
      var before := UpsertAll(table, nextId, records[..|records| - 1]);
      UpsertRow(before.0, before.1, records[|records| - 1])
  }

  /** A batch upsert keeps the ids consistent and the (key, locale) pairs unique. */
  lemma {:induction false} UpsertAllKeepsValid(table: map<nat, Translation>, nextId: nat, records: seq<NewRow>)
    requires IdsConsistent(table, nextId) && UniquePairs(table)
    ensures IdsConsistent(UpsertAll(table, nextId, records).0, UpsertAll(table, nextId, records).1)
    ensures UniquePairs(UpsertAll(table, nextId, records).0)
    ensures nextId <= UpsertAll(table, nextId, records).1
  {
    if records != [] {
      var init := records[..|records| - 1];
      UpsertAllKeepsValid(table, nextId, init);
      var before := UpsertAll(table, nextId, init);
      UpsertRowKeepsValid(before.0, before.1, records[|records| - 1]);
    }
  }

  // ---------------------------------------------------------------------------
  // A run on an empty table

  /** The records of a run, by unique id. */
  function GeneratedBy(draw: nat -> Draw): nat -> NewRow
  {
    (u: nat) => Generated(u, draw)
  }

  /** Records for different unique ids have different keys. */
  ghost predicate DistinctKeys(gen: nat -> NewRow)
  {
    forall u, v :: u != v ==> gen(u).key != gen(v).key
  }

  /** The generated keys are distinct, whatever the draws. */
  lemma GeneratedKeysDistinct(draw: nat -> Draw)
    ensures DistinctKeys(GeneratedBy(draw))
  {
    forall u: nat, v: nat | u != v
      ensures GeneratedBy(draw)(u).key != GeneratedBy(draw)(v).key
    {
      assert KeyId(Generated(u, draw).key) == u && KeyId(Generated(v, draw).key) == v;
    }
  }

  /** The stored row for record `rec` under id `id`. */
  function RowFor(id: nat, rec: NewRow): Translation
  {
    Translation(id, rec.key, rec.locale, rec.value)
  }

  /** The table after the first `n` records were inserted from id `base` on. */
  function Seeded(base: nat, n: nat, gen: nat -> NewRow): map<nat, Translation>
  {
    if n == 0 then map[] else Seeded(base, n - 1, gen)[base + n - 1 := RowFor(base + n - 1, gen(n - 1))]
  }

  /** Every row of `table` sits at an id from `base` on and holds the record for its offset. */
  ghost predicate HoldsGenerated(table: map<nat, Translation>, base: nat, gen: nat -> NewRow)
  {
    forall id :: id in table ==> base <= id && table[id] == RowFor(id, gen(id - base))
  }

  /** Its ids are `base` to `base + n - 1`. */
  lemma {:induction false} SeededKeys(base: nat, n: nat, gen: nat -> NewRow)
    ensures forall id :: id in Seeded(base, n, gen) <==> base <= id < base + n
  {
    if n > 0 {
      SeededKeys(base, n - 1, gen);
    }
  }

  /** Each of its rows holds the record for its offset. */
  lemma {:induction false} SeededRows(base: nat, n: nat, gen: nat -> NewRow)
    ensures HoldsGenerated(Seeded(base, n, gen), base, gen)
  {
    if n > 0 {
      SeededRows(base, n - 1, gen);
    }
  }

  /** It has `n` rows. */
  lemma {:induction false} SeededSize(base: nat, n: nat, gen: nat -> NewRow)
    ensures |Seeded(base, n, gen)| == n
  {
    if n > 0 {
      SeededKeys(base, n - 1, gen);
      SeededSize(base, n - 1, gen);
    }
  }

  /**
   * The table holds exactly the first `done` records, record `u` under id `base + u`,
   * and the next id follows them: the state of a run that started on an empty table.
   */
  ghost predicate SeededState(table: map<nat, Translation>, nextId: nat, base: nat, done: nat, gen: nat -> NewRow)
  {
    && nextId == base + done
    && (forall id :: id in table <==> base <= id < base + done)
    && HoldsGenerated(table, base, gen)
  }

  /** Such a table is the seeded table itself, with `done` rows. */
  lemma SeededStateIsSeeded(table: map<nat, Translation>, nextId: nat, base: nat, done: nat, gen: nat -> NewRow)
    requires SeededState(table, nextId, base, done, gen)
    ensures table == Seeded(base, done, gen) && |table| == done
  {
    SeededKeys(base, done, gen);
    SeededRows(base, done, gen);
    SeededSize(base, done, gen);
  }

  /** No row of such a table holds the next record's key, in any locale. */
  lemma NextKeyIsFree(table: map<nat, Translation>, nextId: nat, base: nat, done: nat, gen: nat -> NewRow, locale: string)
    requires DistinctKeys(gen) && SeededState(table, nextId, base, done, gen)
    ensures !PairTaken(table, gen(done).key, locale, None)
  {
    forall id | id in table
      ensures table[id].key != gen(done).key
    {
      assert table[id].key == gen(id - base).key;
    }
  }

  /** Upserting the next record inserts it under the next id. */
  lemma UpsertNextRecord(table: map<nat, Translation>, nextId: nat, base: nat, done: nat, gen: nat -> NewRow)
    requires DistinctKeys(gen) && SeededState(table, nextId, base, done, gen)
    ensures SeededState(UpsertRow(table, nextId, gen(done)).0, UpsertRow(table, nextId, gen(done)).1, base, done + 1, gen)
  {
    NextKeyIsFree(table, nextId, base, done, gen, gen(done).locale);
    UpsertRowInserts(table, nextId, gen(done));
  }

  /** Upserting the next records only inserts: a run on an empty table never overwrites. */
  lemma {:induction false} UpsertExtendsSeeded(table: map<nat, Translation>, nextId: nat, base: nat, done: nat,
                                               gen: nat -> NewRow, records: seq<NewRow>)
    requires DistinctKeys(gen) && SeededState(table, nextId, base, done, gen)
    requires forall j :: 0 <= j < |records| ==> records[j] == gen(done + j)
    ensures SeededState(UpsertAll(table, nextId, records).0, UpsertAll(table, nextId, records).1, base, done + |records|, gen)
  {
    if records != [] {
      var k := |records| - 1;
      UpsertExtendsSeeded(table, nextId, base, done, gen, records[..k]);
      var middle := UpsertAll(table, nextId, records[..k]);
      UpsertNextRecord(middle.0, middle.1, base, done + k, gen);
    }
  }

  // ---------------------------------------------------------------------------
  // The command

  /** The first `n` naturals in order. */
  ghost predicate CountsUpTo(s: seq<nat>, n: nat)
  {
    |s| == n && forall j :: 0 <= j < n ==> s[j] == j
  }

  /** `Translation::upsert($records, ...)` against the store: the table becomes the batch fold, the pivot is untouched. */
  method UpsertBatch(repo: TranslationRepository, records: seq<NewRow>)
    requires repo.Valid()
    modifies repo
    ensures repo.Valid()
    ensures (repo.translations, repo.nextId) == UpsertAll(old(repo.translations), old(repo.nextId), records)
    ensures repo.links == old(repo.links)
  {
    UpsertAllKeepsValid(repo.translations, repo.nextId, records);
    var upserted := UpsertAll(repo.translations, repo.nextId, records);
    repo.translations, repo.nextId := upserted.0, upserted.1;
  }

  /**
   * The sampled pivot rows that `insertOrIgnore` keeps: a row naming a translation
   * that is not stored breaks the pivot's foreign key and is ignored.
   */
  function Attachable(sample: set<(nat, nat)>, table: map<nat, Translation>): set<(nat, nat)>
  {
    set p | p in sample && p.0 in table
  }

  /** Every attached pivot row comes from the sample and names a stored translation, below the counter. */
  lemma AttachedPairsAreLive(sample: set<(nat, nat)>, table: map<nat, Translation>, nextId: nat)
    requires IdsConsistent(table, nextId)
    ensures Attachable(sample, table) <= sample
    ensures forall p :: p in Attachable(sample, table) ==> p.0 in table && p.0 < nextId
  {
  }

  /**
   * `attachTagsToSampleTranslations()`: `insertOrIgnore` of the sampled pivot rows whose
   * translation is stored; the random sample of translations and tags is the input `sample`.
   */
  method AttachSample(repo: TranslationRepository, sample: set<(nat, nat)>)
    requires repo.Valid()
    modifies repo
    ensures repo.Valid()
    ensures repo.translations == old(repo.translations) && repo.nextId == old(repo.nextId)
    ensures repo.links == old(repo.links) + Attachable(sample, repo.translations)
  {
    AttachedPairsAreLive(sample, repo.translations, repo.nextId);
    repo.links := repo.links + Attachable(sample, repo.translations);
  }

  /** The inner loop of one batch: the records for unique ids `start` to `start + size - 1`, in order. */
  method BuildBatch(start: nat, size: nat, generate: nat -> NewRow) returns (records: seq<NewRow>, ghost ids: seq<nat>)
    ensures |records| == size && |ids| == size
    ensures forall j :: 0 <= j < size ==> ids[j] == start + j && records[j] == generate(start + j)
  {
    records, ids := [], [];
    var i := 0;
    while i < size
      invariant i <= size && |records| == i && |ids| == i
      invariant forall j :: 0 <= j < i ==> ids[j] == start + j && records[j] == generate(start + j)
    {
      var uniqueId := start + i;
      records := records + [generate(uniqueId)];
      ids := ids + [uniqueId];
      i := i + 1;
    }
  }

  /**
   * Batch `batch` starts where the earlier ones stop and has the length the loop computes.
   * The second clause is `BatchLength`'s definition, restated here so the loop body can
   * take its `min` without unfolding the partition arithmetic.
   */
  lemma NextBatch(count: nat, batchSize: nat, batch: nat)
    requires batchSize > 0 && batch < BatchCount(count, batchSize)
    ensures batch * batchSize == Covered(count, batchSize, batch) < count
    ensures Min(batchSize, count - batch * batchSize) == BatchLength(count, batchSize, batch)
  {
    CoveredIsPrefix(count, batchSize, batch);
    BatchStartsBeforeCount(count, batchSize, batch);
  }

  /** Appending ids `n` to `n + |ids| - 1` keeps a run of ids counting up. */
  lemma CountsOn(visited: seq<nat>, n: nat, ids: seq<nat>)
    requires CountsUpTo(visited, n)
    requires forall j :: 0 <= j < |ids| ==> ids[j] == n + j
    ensures CountsUpTo(visited + ids, n + |ids|)
  {
  }

  /**
   * One pass of the batch loop: build the records for unique ids `start` to
   * `start + size - 1`, upsert them, and attach the sampled tags when `attach` holds.
   * On a run that started on an empty table (`appending`), the batch only appends.
   */
  method SeedBatch(repo: TranslationRepository, start: nat, size: nat, generate: nat -> NewRow,
                   attach: bool, sample: set<(nat, nat)>, ghost appending: bool, ghost base: nat)
    returns (ghost ids: seq<nat>)
    requires repo.Valid()
    requires appending ==> DistinctKeys(generate) && SeededState(repo.translations, repo.nextId, base, start, generate)
    modifies repo
    ensures repo.Valid()
    ensures |ids| == size && forall j :: 0 <= j < size ==> ids[j] == start + j
    ensures appending ==> SeededState(repo.translations, repo.nextId, base, start + size, generate)
    ensures !attach ==> repo.links == old(repo.links)
    ensures attach ==> repo.links == old(repo.links) + Attachable(sample, repo.translations)
  {
    var records;
    records, ids := BuildBatch(start, size, generate);
    ghost var before := (repo.translations, repo.nextId);
    UpsertBatch(repo, records);
    if appending {
      UpsertExtendsSeeded(before.0, before.1, base, start, generate, records);
    }
    if attach {
      AttachSample(repo, sample);
    }
  }

  /**
   * `handle()`: optionally truncate, then for each batch build its rows and upsert them;
   * after the last batch, and only with --with-tags, insert the sampled pivot rows
   * (`sample`, the random part, is an input) whose translation exists.
   */
  method Seed(repo: TranslationRepository, count: nat, batchSize: nat, withTags: bool, truncate: bool,
              draw: nat -> Draw, sample: set<(nat, nat)>)
    returns (tagsAttached: bool, ghost visited: seq<nat>)
    requires repo.Valid() && batchSize > 0
    modifies repo
    ensures repo.Valid()
    ensures CountsUpTo(visited, count)
    ensures tagsAttached <==> withTags && count > 0
    ensures truncate || old(repo.translations) == map[] ==>
      repo.translations == Seeded(if truncate then 0 else old(repo.nextId), count, GeneratedBy(draw))
      && |repo.translations| == count
      && repo.nextId == (if truncate then 0 else old(repo.nextId)) + count
    ensures !tagsAttached ==> repo.links == (if truncate then {} else old(repo.links))
    ensures tagsAttached ==>
      repo.links == (if truncate then {} else old(repo.links)) + Attachable(sample, repo.translations)
  {
    if truncate {
      repo.translations, repo.links, repo.nextId := map[], {}, 0;
    }
    tagsAttached, visited := RunBatches(repo, count, batchSize, withTags, draw, sample);
  }

  /** The batch loop of `handle()`, run on the table as it stands after the optional truncation. */
  method RunBatches(repo: TranslationRepository, count: nat, batchSize: nat, withTags: bool,
                    draw: nat -> Draw, sample: set<(nat, nat)>)
    returns (tagsAttached: bool, ghost visited: seq<nat>)
    requires repo.Valid() && batchSize > 0
    modifies repo
    ensures repo.Valid()
    ensures CountsUpTo(visited, count)
    ensures tagsAttached <==> withTags && count > 0
    ensures old(repo.translations) == map[] ==>
      repo.translations == Seeded(old(repo.nextId), count, GeneratedBy(draw)) && |repo.translations| == count
      && repo.nextId == old(repo.nextId) + count
    ensures !tagsAttached ==> repo.links == old(repo.links)
    ensures tagsAttached ==> repo.links == old(repo.links) + Attachable(sample, repo.translations)
  {
    ghost var empty := repo.translations == map[];
    ghost var base := repo.nextId;
    ghost var linksBefore := repo.links;
    var batches := BatchCount(count, batchSize);
    BatchLengthsSum(count, batchSize);
    SomeBatchIffCount(count, batchSize);
    var generate := GeneratedBy(draw);
    GeneratedKeysDistinct(draw);
    var batch := 0;
    ghost var done := 0;
    visited := [];
    tagsAttached := false;
    while batch < batches
      invariant batch <= batches
      invariant done == Covered(count, batchSize, batch)
      invariant CountsUpTo(visited, done)
      invariant repo.Valid()
      invariant empty ==> SeededState(repo.translations, repo.nextId, base, done, generate)
      invariant tagsAttached <==> withTags && batch == batches && batches > 0
      invariant !tagsAttached ==> repo.links == linksBefore
      invariant tagsAttached ==> repo.links == linksBefore + Attachable(sample, repo.translations)
    {
      NextBatch(count, batchSize, batch);
      var start := batch * batchSize;
      var currentBatchSize := Min(batchSize, count - start);
      var attach := withTags && batch == batches - 1;
      var ids := SeedBatch(repo, start, currentBatchSize, generate, attach, sample, empty, base);
      CountsOn(visited, done, ids);
      visited := visited + ids;
      done := done + currentBatchSize;
      tagsAttached := attach;
      batch := batch + 1;
    }
    if empty {
      SeededStateIsSeeded(repo.translations, repo.nextId, base, count, generate);
    }
  }
}
