/** The tag repository: the tags table (id -> unique name) and its lookups and writes. */
module Tags {
  import opened Wrappers

  datatype Tag = Tag(id: nat, name: string)

  /** The unique constraint on the tag name. */
  ghost predicate UniqueNames(names: map<nat, string>)
  {
    forall i, j :: i in names && j in names && names[i] == names[j] ==> i == j
  }

  /** Some tag other than `except` is called `name`. */
  ghost predicate NameTaken(names: map<nat, string>, name: string, except: Option<nat>)
  {
    exists id :: id in names && Some(id) != except && names[id] == name
  }

  /** The first id among the ascending `ids` whose tag is called `name`. */
  function FirstNamed(names: map<nat, string>, ids: seq<nat>, name: string): (r: Option<nat>)
    requires forall i, j :: 0 <= i < j < |ids| ==> ids[i] < ids[j]
    ensures r.Some? ==> r.value in ids && r.value in names && names[r.value] == name
    ensures r.Some? ==> forall id :: id in ids && id in names && names[id] == name ==> r.value <= id
    ensures r.None? ==> forall id :: id in ids && id in names ==> names[id] != name
  {
    if ids == [] then None
    else if ids[0] in names && names[ids[0]] == name then Some(ids[0])
    else FirstNamed(names, ids[1..], name)
  }

  class TagRepository {
    /** The tags table: id -> name. */
    var names: map<nat, string>
    /** The auto-increment counter of the tags table. */
    var nextId: nat

    ghost predicate Valid()
      reads this
    {
      (forall id :: id in names ==> id < nextId) && UniqueNames(names)
    }

    constructor ()
      ensures Valid()
      ensures names == map[] && nextId == 0
    {
      names, nextId := map[], 0;
    }

    /** `all()`: every tag once, in id order. */
    method All() returns (r: seq<Tag>)
      requires Valid()
      ensures forall i :: 0 <= i < |r| ==> r[i].id in names && names[r[i].id] == r[i].name
      ensures forall id :: id in names ==> Tag(id, names[id]) in r
      ensures forall i, j :: 0 <= i < j < |r| ==> r[i].id < r[j].id
    {
      var table := names;
      var ids := Ascending(table.Keys, nextId);
      r := seq(|ids|, i requires 0 <= i < |ids| => Tag(ids[i], table[ids[i]]));
      forall id | id in names
        ensures Tag(id, names[id]) in r
      {
        assert id in ids;
        var i :| 0 <= i < |ids| && ids[i] == id;
        assert r[i] == Tag(id, names[id]);
      }
    }

    /** `find($id)`: the tag with that id, or null. */
    method Find(id: nat) returns (r: Option<Tag>)
      requires Valid()
      ensures r.Some? <==> id in names
      ensures r.Some? ==> r.value.id == id && r.value.name == names[id]
    {
      r := if id in names then Some(Tag(id, names[id])) else None;
    }

    /**
     * `where('name', $name)->first()`: the tag called `name` with the lowest id, or null
     * when there is none.
     */
    method FindByName(name: string) returns (r: Option<Tag>)
      requires Valid()
      ensures r.Some? <==> NameTaken(names, name, None)
      ensures r.Some? ==> r.value.id in names && names[r.value.id] == name && r.value.name == name
      ensures r.Some? ==> forall id :: id in names && names[id] == name ==> r.value.id <= id
    {
      var found := FirstNamed(names, Ascending(names.Keys, nextId), name);
      r := if found.Some? then Some(Tag(found.value, name)) else None;
    }

    /** `create($data)`: a new tag under the next id; the unique constraint on the name turns a duplicate into a Conflict. */
    method Create(name: string) returns (r: Result<Tag>)
      requires Valid()
      modifies this
      ensures Valid()
      ensures r.Failure? <==> NameTaken(old(names), name, None)
      ensures r.Failure? ==> r.error == Conflict && names == old(names) && nextId == old(nextId)
      ensures r.Success? ==>
        && r.value == Tag(old(nextId), name) && r.value.id !in old(names)
        && names == old(names)[r.value.id := name] && nextId == old(nextId) + 1
    {
      if exists id | id in names :: names[id] == name {
        r := Failure(Conflict);
        return;
      }
      r := Success(Tag(nextId, name));
      names := names[nextId := name];
      nextId := nextId + 1;
    }

    /** `update($id, $data)`: `findOrFail`, then rename, unless another tag already has the name. */
    method Update(id: nat, name: string) returns (r: Result<Tag>)
      requires Valid()
      modifies this
      ensures Valid()
      ensures nextId == old(nextId)
      ensures id !in old(names) ==> r == Failure(NotFound) && names == old(names)
      ensures id in old(names) ==>
        if NameTaken(old(names), name, Some(id)) then
          r == Failure(Conflict) && names == old(names)
        else
          r == Success(Tag(id, name)) && names == old(names)[id := name]
    {
      if id !in names {
        r := Failure(NotFound);
        return;
      }
      if exists other | other in names :: other != id && names[other] == name {
        r := Failure(Conflict);
        return;
      }
      names := names[id := name];
      r := Success(Tag(id, name));
    }

    /** `delete($id)`: `findOrFail`, then remove that one tag. */
    method Delete(id: nat) returns (r: Result<bool>)
      requires Valid()
      modifies this
      ensures Valid()
      ensures nextId == old(nextId)
      ensures id !in old(names) ==> r == Failure(NotFound) && names == old(names)
      ensures id in old(names) ==> r == Success(true) && names == old(names) - {id}
    {
      if id !in names {
        r := Failure(NotFound);
        return;
      }
      names := names - {id};
      r := Success(true);
    }
  }
}
