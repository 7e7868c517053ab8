/**
 * The export service: the rows of `getAllForExport()` grouped into
 * locale -> (key -> value), or one locale's key -> value map.
 */
module Export {
  import opened Wrappers
  import opened Text
  import opened TranslationModel
  import opened Translations

  /** `pluck('value', 'key')`: one pass over the rows, a later row overwriting an earlier one's key. */
  function Pluck(rows: seq<Translation>): map<string, string>
  {
    if rows == [] then map[]
    else
      var r := rows[|rows| - 1];
      Pluck(rows[..|rows| - 1])[r.key := r.value]
  }

  /**
   * `export()`: `groupBy('locale')` then `pluck('value', 'key')` per group, done as
   * one pass that files each row under its locale; a later row wins on a repeated pair.
   */
  function Export(rows: seq<Translation>): map<string, map<string, string>>
  {
    if rows == [] then map[]
    else
      var r := rows[|rows| - 1];
      var grouped := Export(rows[..|rows| - 1]);
      var inner := if r.locale in grouped then grouped[r.locale] else map[];
      grouped[r.locale := inner[r.key := r.value]]
  }

  /** `where('locale', $locale)`: the rows of one locale, in order. */
  function OfLocale(rows: seq<Translation>, locale: string): seq<Translation>
  {
    if rows == [] then []
    else
      var r := rows[|rows| - 1];
      OfLocale(rows[..|rows| - 1], locale) + (if r.locale == locale then [r] else [])
  }

  /** `exportByLocale($locale)`: filter to the locale, then a flat key -> value map. */
  function ExportByLocale(rows: seq<Translation>, locale: string): map<string, string>
  {
    Pluck(OfLocale(rows, locale))
  }

  /**
   * PHP 8 `==` between two strings, for numeric strings made only of digits: two numeric
   * strings compare as numbers (`"1" == "01"`), anything else compares as text.
   */
  predicate LooseEquals(a: string, b: string)
  {
    if a != [] && AllDigits(a) && b != [] && AllDigits(b) then ParseDecimal(a) == ParseDecimal(b) else a == b
  }

  /** `where('locale', $locale)` on the collection, as written: it compares with `==`. */
  function OfLocaleAsWritten(rows: seq<Translation>, locale: string): seq<Translation>
  {
    if rows == [] then []
    else
      var r := rows[|rows| - 1];
      OfLocaleAsWritten(rows[..|rows| - 1], locale) + (if LooseEquals(r.locale, locale) then [r] else [])
  }

  /** `exportByLocale($locale)` as written, with the loose comparison. */
  function ExportByLocaleAsWritten(rows: seq<Translation>, locale: string): map<string, string>
  {
    Pluck(OfLocaleAsWritten(rows, locale))
  }

  /** For a locale that is not a digit string, the loose filter is the exact one. */
  lemma {:induction false} AsWrittenAgreesOffDigits(rows: seq<Translation>, locale: string)
    requires !(locale != [] && AllDigits(locale))
    ensures ExportByLocaleAsWritten(rows, locale) == ExportByLocale(rows, locale)
    ensures OfLocaleAsWritten(rows, locale) == OfLocale(rows, locale)
  {
    if rows != [] {
      AsWrittenAgreesOffDigits(rows[..|rows| - 1], locale);
    }
  }

  /** Two rows whose locales differ as text but are equal as numbers. */
  function LeakRows(): seq<Translation>
  {
    [Translation(1, "k1", "1", "a"), Translation(2, "k2", "01", "b")]
  }

  lemma ZeroOneIsOne()
    ensures LooseEquals("01", "1")
  {
    assert "01"[..1] == "0";
    assert "0"[..0] == "";
    assert "1"[..0] == "";
  }

  lemma LeakFilters()
    ensures OfLocaleAsWritten(LeakRows(), "1") == LeakRows()
    ensures OfLocale(LeakRows(), "1") == LeakRows()[..1]
  {
    var rows := LeakRows();
    ZeroOneIsOne();
    assert rows[..1][..0] == [];
    assert rows[..|rows| - 1] == rows[..1];
  }

  lemma LeakExport()
    ensures Export(LeakRows()) == map["1" := map["k1" := "a"], "01" := map["k2" := "b"]]
  {
    var rows := LeakRows();
    assert rows[..1][..0] == [];
    assert rows[..|rows| - 1] == rows[..1];
  }

  /**
   * As written, `exportByLocale("1")` also returns the rows of locale "01", which
   * `export()["1"]` does not hold; the exact filter leaves them out.
   */
  lemma LooseLocaleLeaks()
    ensures "k2" in ExportByLocaleAsWritten(LeakRows(), "1")
    ensures "1" in Export(LeakRows()) && "k2" !in Export(LeakRows())["1"]
    ensures "k2" !in ExportByLocale(LeakRows(), "1")
  {
    var rows := LeakRows();
    LeakFilters();
    LeakExport();
    assert rows[..1][..0] == [];
    assert rows[..|rows| - 1] == rows[..1];
    assert Pluck(rows[..1]) == map["k1" := "a"];
  }

  /** Row `i` is the last one holding (`locale`, `key`). */
  ghost predicate LastWith(rows: seq<Translation>, i: int, locale: string, key: string)
  {
    && 0 <= i < |rows|
    && rows[i].locale == locale && rows[i].key == key
    && forall j :: i < j < |rows| ==> !(rows[j].locale == locale && rows[j].key == key)
  }

  ghost predicate HasLocale(rows: seq<Translation>, locale: string)
  {
    exists i :: 0 <= i < |rows| && rows[i].locale == locale
  }

  ghost predicate HasPair(rows: seq<Translation>, locale: string, key: string)
  {
    exists i :: 0 <= i < |rows| && rows[i].locale == locale && rows[i].key == key
  }

  /** An empty store exports as the empty map, not as an error. */
  lemma ExportOfNothing(locale: string)
    ensures Export([]) == map[]
    ensures ExportByLocale([], locale) == map[]
  {
  }

  /** The export has an entry for a locale exactly when some row has that locale. */
  lemma {:induction false} ExportLocales(rows: seq<Translation>, locale: string)
    ensures locale in Export(rows) <==> HasLocale(rows, locale)
  {
    if rows != [] {
      var init := rows[..|rows| - 1];
      ExportLocales(init, locale);
      if HasLocale(init, locale) {
        var i :| 0 <= i < |init| && init[i].locale == locale;
        assert rows[i] == init[i];
      }
      if HasLocale(rows, locale) && rows[|rows| - 1].locale != locale {
        var i :| 0 <= i < |rows| && rows[i].locale == locale;
        assert init[i] == rows[i];
      }
    }
  }

  /** The keys under a locale are exactly the keys of that locale's rows. */
  lemma {:induction false} ExportKeys(rows: seq<Translation>, locale: string, key: string)
    ensures (locale in Export(rows) && key in Export(rows)[locale]) <==> HasPair(rows, locale, key)
  {
    if rows != [] {
      var init := rows[..|rows| - 1];
      var r := rows[|rows| - 1];
      ExportKeys(init, locale, key);
      if HasPair(init, locale, key) {
        var i :| 0 <= i < |init| && init[i].locale == locale && init[i].key == key;
        assert rows[i] == init[i];
      }
      if HasPair(rows, locale, key) && !(r.locale == locale && r.key == key) {
        var i :| 0 <= i < |rows| && rows[i].locale == locale && rows[i].key == key;
        assert init[i] == rows[i];
      }
    }
  }

  /** Every locale present maps to a non-empty key -> value map. */
  lemma ExportHasNoEmptyLocale(rows: seq<Translation>, locale: string)
    requires locale in Export(rows)
    ensures Export(rows)[locale] != map[]
  {
    ExportLocales(rows, locale);
    var i :| 0 <= i < |rows| && rows[i].locale == locale;
    ExportKeys(rows, locale, rows[i].key);
  }

  /** `export()[l][k]` is the value of the last row holding (l, k). */
  lemma {:induction false} ExportLastWins(rows: seq<Translation>, i: int, locale: string, key: string)
    requires LastWith(rows, i, locale, key)
    ensures locale in Export(rows) && key in Export(rows)[locale]
    ensures Export(rows)[locale][key] == rows[i].value
  {
    var init := rows[..|rows| - 1];
    if i < |rows| - 1 {
      assert LastWith(init, i, locale, key);
      ExportLastWins(init, i, locale, key);
    }
  }

  /** Whenever a pair occurs, some row is the last one holding it. */
  lemma {:induction false} LastWithExists(rows: seq<Translation>, locale: string, key: string)
    requires HasPair(rows, locale, key)
    ensures exists i :: LastWith(rows, i, locale, key)
  {
    var n := |rows| - 1;
    if rows[n].locale == locale && rows[n].key == key {
      assert LastWith(rows, n, locale, key);
    } else {
      var init := rows[..n];
      var i :| 0 <= i < |rows| && rows[i].locale == locale && rows[i].key == key;
      assert init[i] == rows[i];
      LastWithExists(init, locale, key);
      var j :| LastWith(init, j, locale, key);
      assert LastWith(rows, j, locale, key);
    }
  }

  /** The per-locale export is the full export's entry for that locale, or empty if there is none. */
  lemma {:induction false} ExportByLocaleAgrees(rows: seq<Translation>, locale: string)
    ensures ExportByLocale(rows, locale) == if locale in Export(rows) then Export(rows)[locale] else map[]
  {
    if rows != [] {
      var init := rows[..|rows| - 1];
      var r := rows[|rows| - 1];
      ExportByLocaleAgrees(init, locale);
      assert OfLocale(rows, locale) == OfLocale(init, locale) + (if r.locale == locale then [r] else []);
      if r.locale == locale {
        var sel := OfLocale(init, locale) + [r];
        assert sel[..|sel| - 1] == OfLocale(init, locale) && sel[|sel| - 1] == r;
        assert Pluck(sel) == Pluck(OfLocale(init, locale))[r.key := r.value];
      } else {
        assert OfLocale(rows, locale) == OfLocale(init, locale);
      }
    }
  }

  /** Every entry of the per-locale export comes from a row of that locale, the last with its key. */
  lemma ExportByLocaleOwnRows(rows: seq<Translation>, locale: string, key: string)
    requires key in ExportByLocale(rows, locale)
    ensures exists i :: LastWith(rows, i, locale, key) && ExportByLocale(rows, locale)[key] == rows[i].value
  {
    ExportByLocaleAgrees(rows, locale);
    ExportKeys(rows, locale, key);
    LastWithExists(rows, locale, key);
    var i :| LastWith(rows, i, locale, key);
    ExportLastWins(rows, i, locale, key);
  }

  /** No two rows give one (locale, key) pair different values. */
  ghost predicate Consistent(rows: seq<Translation>)
  {
    forall a, b :: a in rows && b in rows && a.locale == b.locale && a.key == b.key ==> a.value == b.value
  }

  /** With consistent rows, every row's value is found at [locale][key]. */
  lemma ExportRoundTrip(rows: seq<Translation>, r: Translation)
    requires Consistent(rows) && r in rows
    ensures r.locale in Export(rows) && r.key in Export(rows)[r.locale]
    ensures Export(rows)[r.locale][r.key] == r.value
  {
    var k :| 0 <= k < |rows| && rows[k] == r;
    LastWithExists(rows, r.locale, r.key);
    var i :| LastWith(rows, i, r.locale, r.key);
    ExportLastWins(rows, i, r.locale, r.key);
  }

  /** The (locale, key) entries of a nested export. */
  ghost function Entries(e: map<string, map<string, string>>): set<(string, string)>
  {
    set l, k | l in e && k in e[l] :: (l, k)
  }

  function PairsOf(rows: seq<Translation>): (s: set<(string, string)>)
  {
    if rows == [] then {}
    else PairsOf(rows[..|rows| - 1]) + {(rows[|rows| - 1].locale, rows[|rows| - 1].key)}
  }

  lemma {:induction false} PairsOfHolds(rows: seq<Translation>, locale: string, key: string)
    ensures (locale, key) in PairsOf(rows) <==> HasPair(rows, locale, key)
  {
    if rows != [] {
      var init := rows[..|rows| - 1];
      PairsOfHolds(init, locale, key);
      if HasPair(init, locale, key) {
        var i :| 0 <= i < |init| && init[i].locale == locale && init[i].key == key;
        assert rows[i] == init[i];
      }
      if HasPair(rows, locale, key) && (locale, key) != (rows[|rows| - 1].locale, rows[|rows| - 1].key) {
        var i :| 0 <= i < |rows| && rows[i].locale == locale && rows[i].key == key;
        assert init[i] == rows[i];
      }
    }
  }

  ghost predicate DistinctPairs(rows: seq<Translation>)
  {
    forall i, j :: 0 <= i < j < |rows| ==> (rows[i].locale, rows[i].key) != (rows[j].locale, rows[j].key)
  }

  lemma {:induction false} PairsOfCount(rows: seq<Translation>)
    requires DistinctPairs(rows)
    ensures |PairsOf(rows)| == |rows|
  {
    if rows != [] {
      var init := rows[..|rows| - 1];
      var n := |rows| - 1;
      assert DistinctPairs(init);
      PairsOfCount(init);
      assert forall i :: 0 <= i < |init| ==> init[i] == rows[i];
      PairsOfHolds(init, rows[n].locale, rows[n].key);
    }
  }

  /** When no (locale, key) pair repeats, the export holds exactly one entry per row. */
  lemma ExportEntryCount(rows: seq<Translation>)
    requires DistinctPairs(rows)
    ensures |Entries(Export(rows))| == |rows|
  {
    var e := Export(rows);
    forall p | p in Entries(e) ensures p in PairsOf(rows) {
      ExportKeys(rows, p.0, p.1);
      PairsOfHolds(rows, p.0, p.1);
    }
    forall p | p in PairsOf(rows) ensures p in Entries(e) {
      PairsOfHolds(rows, p.0, p.1);
      ExportKeys(rows, p.0, p.1);
    }
    assert Entries(e) == PairsOf(rows);
    PairsOfCount(rows);
  }

  // ---------------------------------------------------------------------------
  // Export over the live store

  /** The rows `getAllForExport()` reads agree on the value of every (locale, key) pair. */
  lemma StoreRowsConsistent(repo: TranslationRepository)
    requires repo.Valid()
    ensures Consistent(repo.ExportRows())
  {
    var rows := repo.ExportRows();
    RowsInIdOrder(repo.translations, repo.nextId);
    forall a, b | a in rows && b in rows && a.locale == b.locale && a.key == b.key
      ensures a.value == b.value
    {
      assert a in multiset(rows) && b in multiset(rows);
      assert a in repo.Rows() && b in repo.Rows();
    }
  }

  /** An element found at two positions occurs at least twice. */
  lemma TwiceCounted(rows: seq<Translation>, i: nat, j: nat)
    requires i < j < |rows| && rows[i] == rows[j]
    ensures multiset(rows)[rows[i]] >= 2
  {
    assert rows == rows[..i] + [rows[i]] + rows[i + 1..];
    assert rows[j] == rows[i + 1..][j - i - 1];
    assert rows[j] in multiset(rows[i + 1..]);
  }

  /** Rows with strictly ascending ids hold each row at most once. */
  lemma {:induction false} AscendingOnce(rows: seq<Translation>, x: Translation)
    requires IdsAscending(rows)
    ensures multiset(rows)[x] <= 1
  {
    if rows != [] {
      var rest := rows[1..];
      assert rows == [rows[0]] + rest;
      assert IdsAscending(rest) by {
        forall i, j | 0 <= i < j < |rest| ensures rest[i].id < rest[j].id {
          assert rest[i] == rows[i + 1] && rest[j] == rows[j + 1];
        }
      }
      AscendingOnce(rest, x);
      if x == rows[0] {
        forall k | 0 <= k < |rest| ensures rest[k] != x {
          assert rest[k] == rows[k + 1];
        }
        assert x !in rest;
      }
    }
  }

  /** The rows `getAllForExport()` reads from a valid store never repeat a (locale, key) pair. */
  lemma StoreRowsDistinct(repo: TranslationRepository)
    requires repo.Valid()
    ensures DistinctPairs(repo.ExportRows())
  {
    var rows := repo.ExportRows();
    RowsInIdOrder(repo.translations, repo.nextId);
    forall i, j | 0 <= i < j < |rows|
      ensures (rows[i].locale, rows[i].key) != (rows[j].locale, rows[j].key)
    {
      var a, b := rows[i], rows[j];
      assert a in multiset(rows) && b in multiset(rows);
      assert a in repo.Rows() && b in repo.Rows();
      if (a.locale, a.key) == (b.locale, b.key) {
        assert a.id == b.id;
        TwiceCounted(rows, i, j);
        AscendingOnce(repo.Rows(), a);
        assert false;
      }
    }
  }

  /** The live export holds exactly one (locale, key) entry per stored translation. */
  lemma StoreExportEntryCount(repo: TranslationRepository)
    requires repo.Valid()
    ensures |Entries(Export(repo.ExportRows()))| == |repo.Rows()|
  {
    StoreRowsDistinct(repo);
    ExportEntryCount(repo.ExportRows());
    assert |multiset(repo.ExportRows())| == |multiset(repo.Rows())|;
  }

  /**
   * Each export reads the store afresh: a stored translation, as the store holds it now
   * (after any update), is what `export()` and `exportByLocale()` return for its pair.
   */
  lemma ExportShowsStoredValue(repo: TranslationRepository, id: nat)
    requires repo.Valid() && id in repo.translations
    ensures var t := repo.translations[id];
      && t.locale in Export(repo.ExportRows())
      && t.key in Export(repo.ExportRows())[t.locale]
      && Export(repo.ExportRows())[t.locale][t.key] == t.value
      && t.key in ExportByLocale(repo.ExportRows(), t.locale)
      && ExportByLocale(repo.ExportRows(), t.locale)[t.key] == t.value
  {
    var t := repo.translations[id];
    var rows := repo.ExportRows();
    RowsInIdOrder(repo.translations, repo.nextId);
    assert t in repo.Rows();
    assert t in multiset(repo.Rows());
    assert t in rows;
    StoreRowsConsistent(repo);
    ExportRoundTrip(rows, t);
    ExportByLocaleAgrees(rows, t.locale);
  }
}
