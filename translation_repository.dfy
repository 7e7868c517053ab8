/**
 * The translation repository: the translations table (id -> key, locale, value),
 * the tag pivot (pairs of translation id and tag id), and the queries and writes
 * over them.
 */
module Translations {
  import opened Wrappers
  import opened Text
  import opened TranslationModel

  // ---------------------------------------------------------------------------
  // Table invariants

  /** Every row is stored under its own id, and every id is below the next one to hand out. */
  ghost predicate IdsConsistent(table: map<nat, Translation>, nextId: nat)
  {
    forall id :: id in table ==> id < nextId && table[id].id == id
  }

  /** The unique constraint on (key, locale). */
  ghost predicate UniquePairs(table: map<nat, Translation>)
  {
    forall i, j ::
      i in table && j in table && table[i].key == table[j].key && table[i].locale == table[j].locale ==> i == j
  }

  /** Some row other than `except` already holds (`key`, `locale`). */
  ghost predicate PairTaken(table: map<nat, Translation>, key: string, locale: string, except: Option<nat>)
  {
    exists id :: id in table && Some(id) != except && table[id].key == key && table[id].locale == locale
  }

  /** The rows of the table in id order. */
  function RowsOf(table: map<nat, Translation>, nextId: nat): seq<Translation>
  {
    var ids := Ascending(table.Keys, nextId);
    seq(|ids|, i requires 0 <= i < |ids| => table[ids[i]])
  }

  ghost predicate IdsAscending(rows: seq<Translation>)
  {
    forall i, j :: 0 <= i < j < |rows| ==> rows[i].id < rows[j].id
  }

  /** Reading the table in id order yields every stored row exactly once. */
  lemma RowsInIdOrder(table: map<nat, Translation>, nextId: nat)
    requires IdsConsistent(table, nextId)
    ensures IdsAscending(RowsOf(table, nextId))
    ensures forall t :: t in RowsOf(table, nextId) <==> t.id in table && table[t.id] == t
  {
    var ids := Ascending(table.Keys, nextId);
    var rows := RowsOf(table, nextId);
    assert forall i :: 0 <= i < |rows| ==> rows[i].id == ids[i];
    forall t: Translation | t.id in table && table[t.id] == t
      ensures t in rows
    {
      assert t.id in ids;
      var i :| 0 <= i < |ids| && ids[i] == t.id;
      assert rows[i] == t;
    }
  }

  // ---------------------------------------------------------------------------
  // The tag pivot

  /** The tag ids linked to translation `id`. */
  function TagsOf(links: set<(nat, nat)>, id: nat): set<nat>
  {
    set p | p in links && p.0 == id :: p.1
  }

  /**
   * `$translation->tags()->sync($tagIds)`: drop the translation's links that are not
   * wanted, add the wanted ones that are missing, touch no other translation.
   */
  function Sync(links: set<(nat, nat)>, id: nat, tagIds: seq<nat>): (r: set<(nat, nat)>)
    ensures TagsOf(r, id) == set x | x in tagIds
    ensures forall p: (nat, nat) :: p.0 != id ==> (p in r <==> p in links)
    ensures forall other :: other != id ==> TagsOf(r, other) == TagsOf(links, other)
  {
    (set p | p in links && p.0 != id) + (set x | x in tagIds :: (id, x))
  }

  /** A second sync with the same ids changes nothing. */
  lemma SyncIdempotent(links: set<(nat, nat)>, id: nat, tagIds: seq<nat>)
    ensures Sync(Sync(links, id, tagIds), id, tagIds) == Sync(links, id, tagIds)
  {
    var once := Sync(links, id, tagIds);
    var twice := Sync(once, id, tagIds);
    forall p | p in twice ensures p in once {
      if p.0 == id { assert p.1 in TagsOf(twice, id); }
    }
    forall p | p in once ensures p in twice {
      if p.0 == id { assert p.1 in TagsOf(once, id); }
    }
  }

  // ---------------------------------------------------------------------------
  // Search

  /** The request's filters; `None` is a filter that was not sent. */
  datatype Filters = Filters(key: Option<string>, locale: Option<string>, content: Option<string>, tags: Option<TagArg>)

  const NoFilters: Filters := Filters(None, None, None, None)

  /** PHP `empty()` on a text filter: missing, `""` and `"0"` all count as absent. */
  predicate EmptyText(s: Option<string>)
  {
    s.None? || s.value == "" || s.value == "0"
  }

  /** PHP `empty()` on the tags filter: missing, the int `0` and `[]` count as absent. */
  predicate EmptyTags(a: Option<TagArg>)
  {
    a.None? || a.value == One(0) || a.value == Many([])
  }

  /** The text filters hold no `LIKE` wildcard, so `LIKE` is a plain substring test. */
  predicate LiteralFilters(f: Filters)
  {
    (f.key.Some? ==> Literal(f.key.value)) && (f.content.Some? ==> Literal(f.content.value))
  }

  /**
   * The composed search condition: record `t`, tagged `tags`, satisfies every filter
   * that is present and not empty, and is unconstrained by the others.
   */
  predicate Admits(f: Filters, t: Translation, tags: set<nat>)
  {
    && (!EmptyText(f.key) ==> Contains(t.key, f.key.value))
    && (!EmptyText(f.locale) ==> t.locale == f.locale.value)
    && (!EmptyText(f.content) ==> Contains(t.value, f.content.value))
    && (!EmptyTags(f.tags) ==> exists x :: x in TagIdList(f.tags.value) && x in tags)
  }

  /** The rows, in their order, that satisfy the composed condition. */
  function Matches(rows: seq<Translation>, f: Filters, links: set<(nat, nat)>): (r: seq<Translation>)
    ensures |r| <= |rows|
    ensures forall t :: t in r <==> t in rows && Admits(f, t, TagsOf(links, t.id))
  {
    if rows == [] then []
    else (if Admits(f, rows[0], TagsOf(links, rows[0].id)) then [rows[0]] else []) + Matches(rows[1..], f, links)
  }

  /** One scope applied to a query: the rows, in their order, that pass it. */
  function Narrow(rows: seq<Translation>, scope: Scope, links: set<(nat, nat)>): (r: seq<Translation>)
    ensures forall t :: t in r <==> t in rows && Holds(scope, t, TagsOf(links, t.id))
  {
    if rows == [] then []
    else (if Holds(scope, rows[0], TagsOf(links, rows[0].id)) then [rows[0]] else []) + Narrow(rows[1..], scope, links)
  }

  /** Filtering keeps the id order of the rows. */
  lemma {:induction false} MatchesKeepsOrder(rows: seq<Translation>, f: Filters, links: set<(nat, nat)>)
    requires IdsAscending(rows)
    ensures IdsAscending(Matches(rows, f, links))
  {
    if rows != [] {
      var rest := Matches(rows[1..], f, links);
      MatchesKeepsOrder(rows[1..], f, links);
      forall j | 0 <= j < |rest| ensures rows[0].id < rest[j].id {
        assert rest[j] in rows[1..];
        var k :| 0 <= k < |rows[1..]| && rows[1..][k] == rest[j];
        assert rows[k + 1] == rest[j];
      }
    }
  }

  /** Two conditions that agree on every record select the same rows. */
  lemma {:induction false} MatchesAgree(rows: seq<Translation>, f: Filters, g: Filters, links: set<(nat, nat)>)
    requires forall t: Translation :: Admits(f, t, TagsOf(links, t.id)) == Admits(g, t, TagsOf(links, t.id))
    ensures Matches(rows, f, links) == Matches(rows, g, links)
  {
    if rows != [] {
      MatchesAgree(rows[1..], f, g, links);
    }
  }

  /** Applying one more scope to the rows matching `f` gives the rows matching `g` = `f` and the scope. */
  lemma {:induction false} NarrowMatches(rows: seq<Translation>, f: Filters, scope: Scope, g: Filters, links: set<(nat, nat)>)
    requires forall t: Translation :: Admits(g, t, TagsOf(links, t.id)) == (Admits(f, t, TagsOf(links, t.id)) && Holds(scope, t, TagsOf(links, t.id)))
    ensures Narrow(Matches(rows, f, links), scope, links) == Matches(rows, g, links)
  {
    if rows != [] {
      var h := rows[0];
      var rest := Matches(rows[1..], f, links);
      NarrowMatches(rows[1..], f, scope, g, links);
      if Admits(f, h, TagsOf(links, h.id)) {
        var m := [h] + rest;
        assert m[0] == h && m[1..] == rest;
      } else {
        assert Matches(rows, f, links) == rest;
      }
    }
  }

  /** Applying the `key` filter when it is in effect turns the rows matching `g` into those matching `g` with that filter. */
  lemma KeyStep(rows: seq<Translation>, g: Filters, key: Option<string>, links: set<(nat, nat)>)
    requires EmptyText(g.key)
    ensures (if EmptyText(key) then Matches(rows, g, links) else Narrow(Matches(rows, g, links), ByKeyPattern(key.value), links))
            == Matches(rows, g.(key := key), links)
  {
    if EmptyText(key) {
      MatchesAgree(rows, g, g.(key := key), links);
    } else {
      NarrowMatches(rows, g, ByKeyPattern(key.value), g.(key := key), links);
    }
  }

  /** Applying the `locale` filter when it is in effect turns the rows matching `g` into those matching `g` with that filter. */
  lemma LocaleStep(rows: seq<Translation>, g: Filters, locale: Option<string>, links: set<(nat, nat)>)
    requires EmptyText(g.locale)
    ensures (if EmptyText(locale) then Matches(rows, g, links) else Narrow(Matches(rows, g, links), ByLocale(locale.value), links))
            == Matches(rows, g.(locale := locale), links)
  {
    if EmptyText(locale) {
      MatchesAgree(rows, g, g.(locale := locale), links);
    } else {
      NarrowMatches(rows, g, ByLocale(locale.value), g.(locale := locale), links);
    }
  }

  /** Applying the `content` filter when it is in effect turns the rows matching `g` into those matching `g` with that filter. */
  lemma ContentStep(rows: seq<Translation>, g: Filters, content: Option<string>, links: set<(nat, nat)>)
    requires EmptyText(g.content)
    ensures (if EmptyText(content) then Matches(rows, g, links) else Narrow(Matches(rows, g, links), ByContent(content.value), links))
            == Matches(rows, g.(content := content), links)
  {
    if EmptyText(content) {
      MatchesAgree(rows, g, g.(content := content), links);
    } else {
      NarrowMatches(rows, g, ByContent(content.value), g.(content := content), links);
    }
  }

  /** Applying the `tags` filter when it is in effect turns the rows matching `g` into those matching `g` with that filter. */
  lemma TagsStep(rows: seq<Translation>, g: Filters, tags: Option<TagArg>, links: set<(nat, nat)>)
    requires EmptyTags(g.tags)
    ensures (if EmptyTags(tags) then Matches(rows, g, links) else Narrow(Matches(rows, g, links), ByTags(tags.value), links))
            == Matches(rows, g.(tags := tags), links)
  {
    if EmptyTags(tags) {
      MatchesAgree(rows, g, g.(tags := tags), links);
    } else {
      NarrowMatches(rows, g, ByTags(tags.value), g.(tags := tags), links);
    }
  }

  /** With no filter in effect the search selects every row, exactly as `paginate` lists them. */
  lemma {:induction false} MatchesWithoutFilters(rows: seq<Translation>, f: Filters, links: set<(nat, nat)>)
    requires EmptyText(f.key) && EmptyText(f.locale) && EmptyText(f.content) && EmptyTags(f.tags)
    ensures Matches(rows, f, links) == rows
  {
    if rows != [] {
      MatchesWithoutFilters(rows[1..], f, links);
      assert [rows[0]] + rows[1..] == rows;
    }
  }

  /** `g` keeps every filter in effect in `f` and may add more. */
  predicate Extends(g: Filters, f: Filters)
  {
    && (!EmptyText(f.key) ==> g.key == f.key)
    && (!EmptyText(f.locale) ==> g.locale == f.locale)
    && (!EmptyText(f.content) ==> g.content == f.content)
    && (!EmptyTags(f.tags) ==> g.tags == f.tags)
  }

  /** A row that passes a stricter condition passes the looser one. */
  lemma {:induction false} MatchesShrink(rows: seq<Translation>, f: Filters, g: Filters, links: set<(nat, nat)>)
    requires forall t: Translation :: Admits(g, t, TagsOf(links, t.id)) ==> Admits(f, t, TagsOf(links, t.id))
    ensures |Matches(rows, g, links)| <= |Matches(rows, f, links)|
  {
    if rows != [] {
      MatchesShrink(rows[1..], f, g, links);
    }
  }

  /** Adding a filter never raises the number of matches, and every new match was an old one. */
  lemma AddingFilterNarrows(rows: seq<Translation>, f: Filters, g: Filters, links: set<(nat, nat)>)
    requires Extends(g, f)
    ensures |Matches(rows, g, links)| <= |Matches(rows, f, links)|
    ensures forall t :: t in Matches(rows, g, links) ==> t in Matches(rows, f, links)
  {
    MatchesShrink(rows, f, g, links);
  }

  // ---------------------------------------------------------------------------
  // Pages

  /** The first page of a paginated query and the number of rows across all pages. */
  datatype Page = Page(items: seq<View>, total: nat)

  /** Each row with its eagerly loaded tags (`with('tags')`). */
  function Hydrate(rows: seq<Translation>, links: set<(nat, nat)>): seq<View>
  {
    seq(|rows|, i requires 0 <= i < |rows| => View(rows[i], TagsOf(links, rows[i].id)))
  }

  /** The whole table, hydrated in id order, lists each stored row once with its tags. */
  lemma HydratedTable(table: map<nat, Translation>, nextId: nat, links: set<(nat, nat)>)
    requires IdsConsistent(table, nextId)
    ensures var r := Hydrate(RowsOf(table, nextId), links);
      && (forall i :: 0 <= i < |r| ==>
            r[i].translation.id in table && table[r[i].translation.id] == r[i].translation
            && r[i].tags == TagsOf(links, r[i].translation.id))
      && (forall id :: id in table ==> View(table[id], TagsOf(links, id)) in r)
      && (forall i, j :: 0 <= i < j < |r| ==> r[i].translation.id < r[j].translation.id)
  {
    var rows := RowsOf(table, nextId);
    RowsInIdOrder(table, nextId);
    var r := Hydrate(rows, links);
    forall id | id in table
      ensures View(table[id], TagsOf(links, id)) in r
    {
      assert table[id] in rows;
      var i :| 0 <= i < |rows| && rows[i] == table[id];
      assert r[i] == View(table[id], TagsOf(links, id));
    }
  }

  /** The page size an Eloquent model uses when `paginate` is given none (`Model::$perPage`). */
  const DefaultPerPage: nat := 15

  /** `->paginate($perPage)` on page one: the first `perPage` rows, and the count of all of them. */
  function FirstPage(rows: seq<Translation>, perPage: nat, links: set<(nat, nat)>): (p: Page)
    requires 0 < perPage
    ensures p.total == |rows|
    ensures |p.items| == Min(perPage, |rows|)
    ensures forall i :: 0 <= i < |p.items| ==> p.items[i] == View(rows[i], TagsOf(links, rows[i].id))
  {
    Page(Hydrate(rows[..Min(perPage, |rows|)], links), |rows|)
  }

  // ---------------------------------------------------------------------------
  // Export order

  /** Ordered by locale, then by key. */
  predicate RowLe(a: Translation, b: Translation)
  {
    (a.locale != b.locale && LessEq(a.locale, b.locale)) || (a.locale == b.locale && LessEq(a.key, b.key))
  }

  lemma RowLeTotal(a: Translation, b: Translation)
    ensures RowLe(a, b) || RowLe(b, a)
  {
    LessEqTotal(a.locale, b.locale);
    LessEqTotal(a.key, b.key);
  }

  /** Each row is ordered no later than the next one. */
  predicate Sorted(rows: seq<Translation>)
  {
    forall i :: 0 < i < |rows| ==> RowLe(rows[i - 1], rows[i])
  }

  function Insert(r: Translation, rows: seq<Translation>): (res: seq<Translation>)
    requires Sorted(rows)
    ensures Sorted(res)
    ensures multiset(res) == multiset(rows) + multiset{r}
    ensures res[0] == r || (rows != [] && res[0] == rows[0])
  {
    if rows == [] then [r]
    else if RowLe(r, rows[0]) then [r] + rows
    else
      RowLeTotal(r, rows[0]);
      var tail := Insert(r, rows[1..]);
      assert rows == [rows[0]] + rows[1..];
      [rows[0]] + tail
  }

  /** `orderBy('locale')->orderBy('key')`: the same rows, sorted by locale and then key. */
  function SortForExport(rows: seq<Translation>): (res: seq<Translation>)
    ensures Sorted(res)
    ensures multiset(res) == multiset(rows)
  {
    if rows == [] then []
    else
      assert rows == [rows[0]] + rows[1..];
      Insert(rows[0], SortForExport(rows[1..]))
  }

  // ---------------------------------------------------------------------------
  // The repository

  class TranslationRepository {
    var translations: map<nat, Translation>
    /** The pivot rows: (translation id, tag id). */
    var links: set<(nat, nat)>
    /** The auto-increment counter of the translations table. */
    var nextId: nat

    ghost predicate Valid()
      reads this
    {
      && IdsConsistent(translations, nextId)
      && UniquePairs(translations)
      && (forall p :: p in links ==> p.0 < nextId)
    }

    constructor ()
      ensures Valid()
      ensures translations == map[] && links == {} && nextId == 0
    {
      translations, links, nextId := map[], {}, 0;
    }

    /** The table in id order. */
    function Rows(): seq<Translation>
      reads this
    {
      RowsOf(translations, nextId)
    }

    /** `all()`: every translation once, in id order, with its tags. */
    method All() returns (r: seq<View>)
      requires Valid()
      ensures forall i :: 0 <= i < |r| ==>
        r[i].translation.id in translations && translations[r[i].translation.id] == r[i].translation
        && r[i].tags == TagsOf(links, r[i].translation.id)
      ensures forall id :: id in translations ==> View(translations[id], TagsOf(links, id)) in r
      ensures forall i, j :: 0 <= i < j < |r| ==> r[i].translation.id < r[j].translation.id
    {
      r := Hydrate(Rows(), links);
      HydratedTable(translations, nextId, links);
    }

    /** `find($id)`: the translation with its tags, or null. */
    method Find(id: nat) returns (r: Option<View>)
      requires Valid()
      ensures r.Some? <==> id in translations
      ensures r.Some? ==> r.value.translation == translations[id] && r.value.translation.id == id
      ensures r.Some? ==> r.value.tags == TagsOf(links, id)
    {
      if id in translations {
        r := Some(View(translations[id], TagsOf(links, id)));
      } else {
        r := None;
      }
    }

    /**
     * `create($data)`: insert a row from the fillable attributes under the next id;
     * the unique constraint on (key, locale) turns a duplicate into a Conflict.
     */
    method Create(data: map<string, string>) returns (r: Result<Translation>)
      requires Valid()
      requires "key" in data && "locale" in data && "value" in data
      modifies this
      ensures Valid()
      ensures links == old(links)
      ensures r.Failure? <==> PairTaken(old(translations), data["key"], data["locale"], None)
      ensures r.Failure? ==> r.error == Conflict && translations == old(translations) && nextId == old(nextId)
      ensures r.Success? ==>
        && r.value == Translation(old(nextId), data["key"], data["locale"], data["value"])
        && r.value.id !in old(translations)
        && translations == old(translations)[r.value.id := r.value]
        && nextId == old(nextId) + 1
        && TagsOf(links, r.value.id) == {}
    {
      var t := Fill(Translation(nextId, "", "", ""), data);
      if exists id | id in translations :: translations[id].key == t.key && translations[id].locale == t.locale {
        r := Failure(Conflict);
        return;
      }
      assert forall p :: p in links ==> p.0 != t.id;
      translations := translations[t.id := t];
      nextId := nextId + 1;
      r := Success(t);
    }

    /**
     * `update($id, $data)`: `findOrFail`, then mass-assign the fillable attributes and
     * return the fresh row with its tags.
     */
    method Update(id: nat, data: map<string, string>) returns (r: Result<View>)
      requires Valid()
      modifies this
      ensures Valid()
      ensures links == old(links) && nextId == old(nextId)
      ensures id !in old(translations) ==> r == Failure(NotFound) && translations == old(translations)
      ensures id in old(translations) ==>
        var t := Fill(old(translations)[id], data);
        if PairTaken(old(translations), t.key, t.locale, Some(id)) then
          r == Failure(Conflict) && translations == old(translations)
        else
          r == Success(View(t, TagsOf(links, id))) && translations == old(translations)[id := t]
    {
      if id !in translations {
        r := Failure(NotFound);
        return;
      }
      var t := Fill(translations[id], data);
      if exists other | other in translations :: other != id && translations[other].key == t.key && translations[other].locale == t.locale {
        r := Failure(Conflict);
        return;
      }
      translations := translations[id := t];
      r := Success(View(t, TagsOf(links, id)));
    }

    /** `delete($id)`: `findOrFail`, then remove that one row; its pivot rows are not detached. */
    method Delete(id: nat) returns (r: Result<bool>)
      requires Valid()
      modifies this
      ensures Valid()
      ensures links == old(links) && nextId == old(nextId)
      ensures id !in old(translations) ==> r == Failure(NotFound) && translations == old(translations)
      ensures id in old(translations) ==> r == Success(true) && translations == old(translations) - {id}
    {
      if id !in translations {
        r := Failure(NotFound);
        return;
      }
      translations := translations - {id};
      r := Success(true);
    }

    /**
     * `paginate($perPage)`: the first page of all translations in id order. A size of 0 is
     * falsy, so Eloquent uses the model's default; a negative size sets no limit on the
     * query, so the one page holds every row.
     */
    method Paginate(perPage: int) returns (p: Page)
      requires Valid()
      ensures p.total == |Rows()|
      ensures perPage > 0 ==> p == FirstPage(Rows(), perPage, links) && |p.items| == Min(perPage, |Rows()|)
      ensures perPage == 0 ==> p == FirstPage(Rows(), DefaultPerPage, links) && |p.items| == Min(DefaultPerPage, |Rows()|)
      ensures perPage < 0 ==> p.items == Hydrate(Rows(), links)
    {
      if perPage > 0 {
        p := FirstPage(Rows(), perPage, links);
      } else if perPage == 0 {
        p := FirstPage(Rows(), DefaultPerPage, links);
      } else {
        p := Page(Hydrate(Rows(), links), |Rows()|);
      }
    }

    /**
     * `search($filters, $perPage)`: start from all rows and apply one scope for each
     * filter that PHP does not consider empty; then take the first page.
     */
    method Search(f: Filters, perPage: nat) returns (p: Page)
      requires Valid() && 0 < perPage && LiteralFilters(f)
      ensures p == FirstPage(Matches(Rows(), f, links), perPage, links)
    {
      var pivot := links;
      var rows := Rows();
      var query := rows;
      ghost var g := NoFilters;
      MatchesWithoutFilters(rows, g, pivot);

      if !EmptyText(f.key) {
        query := Narrow(query, ByKeyPattern(f.key.value), pivot);
      }
      KeyStep(rows, g, f.key, pivot);
      g := g.(key := f.key);

      if !EmptyText(f.locale) {
        query := Narrow(query, ByLocale(f.locale.value), pivot);
      }
      LocaleStep(rows, g, f.locale, pivot);
      g := g.(locale := f.locale);

      if !EmptyText(f.content) {
        query := Narrow(query, ByContent(f.content.value), pivot);
      }
      ContentStep(rows, g, f.content, pivot);
      g := g.(content := f.content);

      if !EmptyTags(f.tags) {
        query := Narrow(query, ByTags(f.tags.value), pivot);
      }
      TagsStep(rows, g, f.tags, pivot);
      g := g.(tags := f.tags);

      assert g == f;
      p := FirstPage(query, perPage, links);
    }

    /** `getAllForExport()`: every row once, sorted by locale then key. */
    function ExportRows(): (rows: seq<Translation>)
      reads this
      ensures Sorted(rows)
      ensures multiset(rows) == multiset(Rows())
    {
      SortForExport(Rows())
    }

    /** `syncTags($id, $tagIds)`: `findOrFail`, then replace the translation's tag set. */
    method SyncTags(id: nat, tagIds: seq<nat>) returns (r: Outcome)
      requires Valid()
      modifies this
      ensures Valid()
      ensures translations == old(translations) && nextId == old(nextId)
      ensures id !in old(translations) ==> r == Fail(NotFound) && links == old(links)
      ensures id in old(translations) ==> r == Pass && links == Sync(old(links), id, tagIds)
    {
      if id !in translations {
        r := Fail(NotFound);
        return;
      }
      links := Sync(links, id, tagIds);
      r := Pass;
    }
  }
}
