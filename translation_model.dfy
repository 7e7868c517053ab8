/**
 * The Translation model: the record, its mass-assignable attributes and the
 * four query scopes, each a predicate over one record and its tag ids.
 */
module TranslationModel {
  import opened Text

  /** One row of the translations table (the timestamps are not modelled). */
  datatype Translation = Translation(id: nat, key: string, locale: string, value: string)

  /** A translation as the queries hand it out: the record with its eagerly loaded tag ids. */
  datatype View = View(translation: Translation, tags: set<nat>)

  /** The attributes that mass assignment may set; anything else in the input is dropped. */
  const Fillable: set<string> := {"key", "locale", "value"}

  /** The attribute `name` of the input if it is supplied and fillable, `current` otherwise. */
  function Assigned(data: map<string, string>, name: string, current: string): string
  {
    if name in data && name in Fillable then data[name] else current
  }

  /**
   * Mass assignment of `data` onto `t` (`$translation->update($data)`): the id never
   * changes, each supplied field takes the supplied value, and each field not supplied
   * keeps its value.
   */
  function Fill(t: Translation, data: map<string, string>): (r: Translation)
    ensures r.id == t.id
    ensures "key" in data ==> r.key == data["key"]
    ensures "key" !in data ==> r.key == t.key
    ensures "locale" in data ==> r.locale == data["locale"]
    ensures "locale" !in data ==> r.locale == t.locale
    ensures "value" in data ==> r.value == data["value"]
    ensures "value" !in data ==> r.value == t.value
  {
    t.(key := Assigned(data, "key", t.key),
       locale := Assigned(data, "locale", t.locale),
       value := Assigned(data, "value", t.value))
  }

  /** The input without its attributes outside `$fillable`. */
  function FillableOnly(data: map<string, string>): (r: map<string, string>)
    ensures r.Keys == data.Keys * Fillable
    ensures forall a :: a in r ==> r[a] == data[a]
  {
    map a | a in data && a in Fillable :: data[a]
  }

  /** Attributes outside `$fillable` (an `id`, a timestamp) have no effect on the record. */
  lemma FillIgnoresGuarded(t: Translation, data: map<string, string>)
    ensures Fill(t, data) == Fill(t, FillableOnly(data))
  {
  }

  /** The tag argument of `byTags`: a single id or a list of ids. */
  datatype TagArg = One(id: nat) | Many(ids: seq<nat>)

  /** `is_array($tagIds) ? $tagIds : [$tagIds]`. */
  function TagIdList(arg: TagArg): seq<nat>
  {
    match arg
    case One(x) => [x]
    case Many(ids) => ids
  }

  /** The query scopes of the model. */
  datatype Scope =
    | ByLocale(locale: string)      // where locale = l
    | ByKeyPattern(pattern: string) // where key like %p%
    | ByContent(content: string)    // where value like %c%
    | ByTags(tagIds: TagArg)        // whereHas tags with id in the list

  /** Whether record `t`, tagged with `tags`, passes `scope`. */
  predicate Holds(scope: Scope, t: Translation, tags: set<nat>)
  {
    match scope
    case ByLocale(l) => t.locale == l
    case ByKeyPattern(p) => Contains(t.key, p)
    case ByContent(c) => Contains(t.value, c)
    case ByTags(arg) => exists x :: x in TagIdList(arg) && x in tags
  }

  /** `byKeyPattern(p)` keeps a record exactly when `p` is a contiguous slice of its key. */
  lemma ByKeyPatternIsSlice(p: string, t: Translation, tags: set<nat>)
    ensures Holds(ByKeyPattern(p), t, tags) <==> exists i :: OccursAt(t.key, p, i)
  {
    ContainsIffSlice(t.key, p);
  }

  /** `byContent(c)` keeps a record exactly when `c` is a contiguous slice of its value. */
  lemma ByContentIsSlice(c: string, t: Translation, tags: set<nat>)
    ensures Holds(ByContent(c), t, tags) <==> exists i :: OccursAt(t.value, c, i)
  {
    ContainsIffSlice(t.value, c);
  }

  /** `byTags` is an OR: the record needs one tag among the ids, not all of them. */
  lemma ByTagsIsOverlap(arg: TagArg, t: Translation, tags: set<nat>)
    ensures Holds(ByTags(arg), t, tags) <==> tags * (set x | x in TagIdList(arg)) != {}
  {
    if Holds(ByTags(arg), t, tags) {
      var x :| x in TagIdList(arg) && x in tags;
      assert x in tags * (set y | y in TagIdList(arg));
    }
  }

  /** A single id filters like the one-element list. */
  lemma ByTagsSingleIsList(x: nat, t: Translation, tags: set<nat>)
    ensures Holds(ByTags(One(x)), t, tags) <==> Holds(ByTags(Many([x])), t, tags)
  {
  }

  /** An untagged record never passes `byTags`. */
  lemma ByTagsNeedsATag(arg: TagArg, t: Translation)
    ensures !Holds(ByTags(arg), t, {})
  {
  }

  /** Listing more ids never drops a record that passed. */
  lemma ByTagsGrows(ids: seq<nat>, more: seq<nat>, t: Translation, tags: set<nat>)
    requires forall x :: x in ids ==> x in more
    requires Holds(ByTags(Many(ids)), t, tags)
    ensures Holds(ByTags(Many(more)), t, tags)
  {
  }
}
