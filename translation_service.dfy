/**
 * The translation service: create and update with an optional tag sync after the
 * write, and one-line delegations to the repository for everything else.
 */
module Services {
  import opened Wrappers
  import opened TranslationModel
  import opened Translations

  class TranslationService {
    const repository: TranslationRepository

    constructor (repository: TranslationRepository)
      ensures this.repository == repository
    {
      this.repository := repository;
    }

    /** `all()`: the repository's listing. */
    method All() returns (r: seq<View>)
      requires repository.Valid()
      ensures forall i :: 0 <= i < |r| ==>
        r[i].translation.id in repository.translations
        && repository.translations[r[i].translation.id] == r[i].translation
        && r[i].tags == TagsOf(repository.links, r[i].translation.id)
      ensures forall id :: id in repository.translations ==>
        View(repository.translations[id], TagsOf(repository.links, id)) in r
      ensures forall i, j :: 0 <= i < j < |r| ==> r[i].translation.id < r[j].translation.id
    {
      r := repository.All();
    }

    /** `paginate($perPage)`: the repository's first page. */
    method Paginate(perPage: int) returns (p: Page)
      requires repository.Valid()
      ensures p.total == |repository.Rows()|
      ensures perPage > 0 ==> p == FirstPage(repository.Rows(), perPage, repository.links)
      ensures perPage == 0 ==> p == FirstPage(repository.Rows(), DefaultPerPage, repository.links)
      ensures perPage < 0 ==> p.items == Hydrate(repository.Rows(), repository.links)
    {
      p := repository.Paginate(perPage);
    }

    /** `find($id)`: the repository's lookup. */
    method Find(id: nat) returns (r: Option<View>)
      requires repository.Valid()
      ensures r.Some? <==> id in repository.translations
      ensures r.Some? ==> r.value == View(repository.translations[id], TagsOf(repository.links, id))
    {
      r := repository.Find(id);
    }

    /** `search($filters, $perPage)`: the repository's search. */
    method Search(f: Filters, perPage: nat) returns (p: Page)
      requires repository.Valid() && 0 < perPage && LiteralFilters(f)
      ensures p == FirstPage(Matches(repository.Rows(), f, repository.links), perPage, repository.links)
    {
      p := repository.Search(f, perPage);
    }

    /** `delete($id)`: the repository's delete. */
    method Delete(id: nat) returns (r: Result<bool>)
      requires repository.Valid()
      modifies repository
      ensures repository.Valid()
      ensures repository.links == old(repository.links) && repository.nextId == old(repository.nextId)
      ensures id !in old(repository.translations) ==>
        r == Failure(NotFound) && repository.translations == old(repository.translations)
      ensures id in old(repository.translations) ==>
        r == Success(true) && repository.translations == old(repository.translations) - {id}
    {
      r := repository.Delete(id);
    }

    /**
     * `create($data, $tagIds)`: store the translation, then sync its tags only when the
     * list is not empty.
     */
    method Create(data: map<string, string>, tagIds: seq<nat>) returns (r: Result<View>)
      requires repository.Valid()
      requires "key" in data && "locale" in data && "value" in data
      modifies repository
      ensures repository.Valid()
      ensures r.Failure? <==> PairTaken(old(repository.translations), data["key"], data["locale"], None)
      ensures r.Failure? ==>
        && r.error == Conflict
        && repository.translations == old(repository.translations)
        && repository.links == old(repository.links)
        && repository.nextId == old(repository.nextId)
      ensures r.Success? ==>
        var t := r.value.translation;
        && repository.nextId == old(repository.nextId) + 1
        && t == Translation(old(repository.nextId), data["key"], data["locale"], data["value"])
        && repository.translations == old(repository.translations)[t.id := t]
        && r.value.tags == TagsOf(repository.links, t.id) == set x | x in tagIds
        && repository.links == (if |tagIds| == 0 then old(repository.links) else Sync(old(repository.links), t.id, tagIds))
    {
      var created := repository.Create(data);
      if created.Failure? {
        r := Failure(created.error);
        return;
      }
      var t := created.value;
      if |tagIds| > 0 {
        var _ := repository.SyncTags(t.id, tagIds);
      }
      r := Success(View(t, TagsOf(repository.links, t.id)));
    }

    /**
     * `update($id, $data, $tagIds)`: update the fields, then, for any list that is not
     * null (the empty list included), replace the tag set with it.
     */
    method Update(id: nat, data: map<string, string>, tagIds: Option<seq<nat>>) returns (r: Result<View>)
      requires repository.Valid()
      modifies repository
      ensures repository.Valid()
      ensures repository.nextId == old(repository.nextId)
      ensures id !in old(repository.translations) ==>
        && r == Failure(NotFound)
        && repository.translations == old(repository.translations)
        && repository.links == old(repository.links)
      ensures id in old(repository.translations) ==>
        var t := Fill(old(repository.translations)[id], data);
        if PairTaken(old(repository.translations), t.key, t.locale, Some(id)) then
          && r == Failure(Conflict)
          && repository.translations == old(repository.translations)
          && repository.links == old(repository.links)
        else
          && repository.translations == old(repository.translations)[id := t]
          && r.Success? && r.value.translation == t
          && (tagIds.None? ==> repository.links == old(repository.links) && r.value.tags == TagsOf(old(repository.links), id))
          && (tagIds.Some? ==>
                repository.links == Sync(old(repository.links), id, tagIds.value)
                && r.value.tags == set x | x in tagIds.value)
    {
      var updated := repository.Update(id, data);
      if updated.Failure? {
        r := Failure(updated.error);
        return;
      }
      var view := updated.value;
      if tagIds.Some? {
        var _ := repository.SyncTags(id, tagIds.value);
        view := View(view.translation, TagsOf(repository.links, id));
      }
      r := Success(view);
    }
  }
}
