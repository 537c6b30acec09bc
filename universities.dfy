/**
 * The university registry: `GET /api/universities`, `GET /:id`, `POST /`
 * with its duplicate guard, and `DELETE /:id` with its guard against
 * universities that applications still name.
 */
module Universities {
  import opened Common
  import Lists
  import opened Applications

  /** A row of the universities table. */
  datatype University = University(id: nat, name: string, country: string, city: string, website: string)

  /** Two universities with the same name in the same country and city. */
  predicate SamePlace(a: University, b: University)
  {
    a.name == b.name && a.country == b.country && a.city == b.city
  }

  /** The registry invariant: unique ids, and no (name, country, city) triple twice. */
  predicate Unique(rows: seq<University>)
  {
    forall i, j :: 0 <= i < j < |rows| ==> rows[i].id != rows[j].id && !SamePlace(rows[i], rows[j])
  }

  /**
   * `GET /`: every university ordered by name. The database collation orders
   * the names; `rank` stands for it.
   */
  function ListByName(rows: seq<University>, rank: string -> int): (r: seq<University>)
    ensures multiset(r) == multiset(rows)
    ensures Lists.NonDecreasing(r, (u: University) => rank(u.name) as real)
  {
    Lists.SortAscOrders(rows, (u: University) => rank(u.name) as real);
    Lists.SortAsc(rows, (u: University) => rank(u.name) as real)
  }

  /** `SELECT ... WHERE university_id = ?`. */
  function FindUniversity(rows: seq<University>, id: int): (r: Option<University>)
    ensures r.None? <==> forall i :: 0 <= i < |rows| ==> rows[i].id != id
    ensures r.Some? ==> r.value in rows && r.value.id == id
  {
    if rows == [] then None
    else if rows[0].id == id then Some(rows[0])
    else
      assert forall i :: 1 <= i < |rows| ==> rows[i] == rows[1..][i - 1];
      FindUniversity(rows[1..], id)
  }

  datatype UniversityBody =
    | Summary(id: nat, name: string, country: string)
    | Added(universityId: nat)
    | Removed
    | UniversityNotFound
    | FieldsRequired
    | AlreadyExists
    | StillReferenced

  /** `GET /:id`: the id, name and country of the university, or 404. */
  function GetUniversity(rows: seq<University>, id: int): (r: Reply<UniversityBody>)
    ensures r.status == 200 <==> exists i :: 0 <= i < |rows| && rows[i].id == id
    ensures r.status != 200 ==> r == Reply(404, UniversityNotFound)
    ensures r.status == 200 ==>
      exists i :: 0 <= i < |rows| && rows[i].id == id && r.body == Summary(rows[i].id, rows[i].name, rows[i].country)
  {
    match FindUniversity(rows, id)
    case None => Reply(404, UniversityNotFound)
    case Some(u) => Reply(200, Summary(u.id, u.name, u.country))
  }

  /** The body of `POST /`. */
  datatype UniversityForm = UniversityForm(name: string, country: string, city: string, website: string)

  /** Some application names the university as its first, second or third choice. */
  predicate Referenced(apps: seq<Application>, id: int)
  {
    exists i :: 0 <= i < |apps| && (apps[i].first == id || apps[i].second == Some(id) || apps[i].third == Some(id))
  }

  /** Every row but the one with that id. */
  function WithoutUniversity(rows: seq<University>, id: int): (r: seq<University>)
    ensures forall i :: 0 <= i < |r| ==> r[i].id != id && r[i] in rows
    ensures forall i :: 0 <= i < |rows| && rows[i].id != id ==> rows[i] in r
  {
    Lists.Filter(rows, (u: University) => u.id != id)
  }

  /** Removing a row keeps the registry free of duplicates. */
  lemma {:induction false} WithoutKeepsUnique(rows: seq<University>, id: int)
    requires Unique(rows)
    ensures Unique(WithoutUniversity(rows, id))
    decreases |rows|
  {
    if rows != [] {
      var rest := rows[1..];
      assert Unique(rest) by {
        forall i, j | 0 <= i < j < |rest|
          ensures rest[i].id != rest[j].id && !SamePlace(rest[i], rest[j])
        {
          assert rest[i] == rows[i + 1] && rest[j] == rows[j + 1];
        }
      }
      WithoutKeepsUnique(rest, id);
      assert rows == [rows[0]] + rest;
      var r := WithoutUniversity(rows, id);
      var rr := WithoutUniversity(rest, id);
      if rows[0].id != id {
        assert r == [rows[0]] + rr;
        forall j | 0 <= j < |rr|
          ensures rows[0].id != rr[j].id && !SamePlace(rows[0], rr[j])
        {
          var k :| 0 <= k < |rest| && rest[k] == rr[j];
          assert rows[k + 1] == rr[j];
        }
      } else {
        assert r == rr;
      }
    }
  }

  class UniversityTable {
    var rows: seq<University>
    var nextId: nat

    /** No duplicates, and every id below the next auto-increment value. */
    predicate Valid()
      reads this
    {
      Unique(rows) && forall i :: 0 <= i < |rows| ==> rows[i].id < nextId
    }

    constructor ()
      ensures Valid() && rows == [] && nextId == 1
    {
      rows := [];
      nextId := 1;
    }

    /**
     * `POST /`: every field is required; a university already registered
     * with the same name, country and city is refused; otherwise it is
     * inserted and its new id returned with 201.
     */
    method Add(f: UniversityForm) returns (reply: Reply<UniversityBody>)
      requires Valid()
      modifies this
      ensures Valid()
      ensures f.name == "" || f.country == "" || f.city == "" || f.website == "" ==>
        reply == Reply(400, FieldsRequired) && rows == old(rows) && nextId == old(nextId)
      ensures reply.status == 400 ==> rows == old(rows) && nextId == old(nextId)
      ensures (f.name != "" && f.country != "" && f.city != "" && f.website != ""
        && exists i :: 0 <= i < |old(rows)| && SamePlace(old(rows)[i], University(0, f.name, f.country, f.city, f.website))) ==>
        reply == Reply(400, AlreadyExists)
      ensures reply.status == 201 <==>
        f.name != "" && f.country != "" && f.city != "" && f.website != ""
        && forall i :: 0 <= i < |old(rows)| ==> !SamePlace(old(rows)[i], University(0, f.name, f.country, f.city, f.website))
      ensures reply.status != 201 ==> reply.status == 400
      ensures reply.status == 201 ==>
        reply.body == Added(old(nextId)) && nextId == old(nextId) + 1
        && rows == old(rows) + [University(old(nextId), f.name, f.country, f.city, f.website)]
    {
      if f.name == "" || f.country == "" || f.city == "" || f.website == "" {
        return Reply(400, FieldsRequired);
      }
      var u := University(nextId, f.name, f.country, f.city, f.website);
      if exists i :: 0 <= i < |rows| && SamePlace(rows[i], u) {
        return Reply(400, AlreadyExists);
      }
      rows := rows + [u];
      nextId := nextId + 1;
      reply := Reply(201, Added(u.id));
    }

    /**
     * `DELETE /:id`: 404 for an unknown id; 400 while an application names the
     * university; otherwise exactly that university is removed.
     */
    method Remove(id: int, apps: seq<Application>) returns (reply: Reply<UniversityBody>)
      requires Valid()
      modifies this
      ensures Valid() && nextId == old(nextId)
      ensures FindUniversity(old(rows), id).None? ==> reply == Reply(404, UniversityNotFound)
      ensures FindUniversity(old(rows), id).Some? && Referenced(apps, id) ==> reply == Reply(400, StillReferenced)
      ensures reply.status != 200 ==> rows == old(rows)
      ensures reply.status == 200 <==> FindUniversity(old(rows), id).Some? && !Referenced(apps, id)
      ensures reply.status == 200 ==>
        reply.body == Removed && rows == WithoutUniversity(old(rows), id) && |rows| == |old(rows)| - 1
    {
      if FindUniversity(rows, id).None? {
        return Reply(404, UniversityNotFound);
      }
      if Referenced(apps, id) {
        return Reply(400, StillReferenced);
      }
      WithoutKeepsUnique(rows, id);
      WithoutRemovesOne(rows, id);
      rows := WithoutUniversity(rows, id);
      reply := Reply(200, Removed);
    }
  }

  /** In a registry with unique ids, removing a present id removes exactly one row. */
  lemma {:induction false} WithoutRemovesOne(rows: seq<University>, id: int)
    requires Unique(rows)
    requires FindUniversity(rows, id).Some?
    ensures |WithoutUniversity(rows, id)| == |rows| - 1
    decreases |rows|
  {
    var rest := rows[1..];
    assert rows == [rows[0]] + rest;
    assert Unique(rest) by {
      forall i, j | 0 <= i < j < |rest|
        ensures rest[i].id != rest[j].id && !SamePlace(rest[i], rest[j])
      {
        assert rest[i] == rows[i + 1] && rest[j] == rows[j + 1];
      }
    }
    if rows[0].id == id {
      assert WithoutUniversity(rows, id) == WithoutUniversity(rest, id);
      assert forall i :: 0 <= i < |rest| ==> rest[i].id != id by {
        forall i | 0 <= i < |rest| ensures rest[i].id != id { assert rows[i + 1] == rest[i]; }
      }
      WithoutKeepsAll(rest, id);
    } else {
      assert FindUniversity(rest, id).Some?;
      WithoutRemovesOne(rest, id);
      assert WithoutUniversity(rows, id) == [rows[0]] + WithoutUniversity(rest, id);
    }
  }

  /** Removing an absent id changes nothing. */
  lemma {:induction false} WithoutKeepsAll(rows: seq<University>, id: int)
    requires forall i :: 0 <= i < |rows| ==> rows[i].id != id
    ensures WithoutUniversity(rows, id) == rows
    decreases |rows|
  {
    if rows != [] {
      var rest := rows[1..];
      assert rows == [rows[0]] + rest;
      assert forall i :: 0 <= i < |rest| ==> rest[i].id != id by {
        forall i | 0 <= i < |rest| ensures rest[i].id != id { assert rows[i + 1] == rest[i]; }
      }
      WithoutKeepsAll(rest, id);
    }
  }
}
