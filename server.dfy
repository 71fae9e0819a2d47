/**
 * The API server's in-memory store: the module-level `students` and `subjects`
 * arrays, `GET /api/students`, `POST /api/students` and `GET /api/subjects`.
 */
module Server {

  /** A JSON value as a request body carries it. */
  datatype Json =
    | JNull
    | JBool(b: bool)
    | JNum(n: int)
    | JStr(s: string)
    | JArray(items: seq<Json>)
    | JObject(fields: map<string, Json>)

  /** A stored record, a JavaScript object: property name to value. */
  type Record = map<string, Json>

  const SeedStudents: seq<Record> := [
    map["id" := JNum(1), "name" := JStr("John Doe"), "class" := JStr("10"), "department" := JStr("Science")],
    map["id" := JNum(2), "name" := JStr("Jane Smith"), "class" := JStr("11"), "department" := JStr("Commerce")]
  ]

  const SeedSubjects: seq<Record> := [
    map["id" := JNum(1), "code" := JStr("MATH101"), "name" := JStr("Mathematics")],
    map["id" := JNum(2), "code" := JStr("SCI101"), "name" := JStr("Science")]
  ]

  /** `{ id: length + 1, ...body }`: the spread comes second, so a body that has an
      `id` property overrides the assigned one; every body property is kept. */
  function NewStudent(length: nat, body: Record): (r: Record)
    ensures r.Keys == body.Keys + {"id"}
    ensures forall k :: k in body ==> r[k] == body[k]
    ensures "id" !in body ==> r["id"] == JNum(length + 1)
  {
    map["id" := JNum(length + 1)] + body
  }

  /** Every record's `id` is its position plus one. */
  ghost predicate IdsArePositions(students: seq<Record>)
  {
    forall i :: 0 <= i < |students| ==> "id" in students[i] && students[i]["id"] == JNum(i + 1)
  }

  /** The list after a series of POSTs. */
  function PostAll(students: seq<Record>, bodies: seq<Record>): (r: seq<Record>)
    ensures |r| == |students| + |bodies|
    ensures r[..|students|] == students
    decreases |bodies|
  {
    if bodies == [] then students
    else PostAll(students + [NewStudent(|students|, bodies[0])], bodies[1..])
  }

  /** One more POST after a series of them appends the record built from its body. */
  lemma {:induction false} PostAllAppend(students: seq<Record>, bodies: seq<Record>, body: Record)
    ensures PostAll(students, bodies + [body]) ==
            PostAll(students, bodies) + [NewStudent(|students| + |bodies|, body)]
    decreases |bodies|
  {
    if bodies == [] {
      assert [body][1..] == [];
      assert bodies + [body] == [body];
    } else {
      assert (bodies + [body])[1..] == bodies[1..] + [body];
      PostAllAppend(students + [NewStudent(|students|, bodies[0])], bodies[1..], body);
    }
  }

  /** Starting from the seed, with no route that deletes, every id equals its position
      plus one as long as no request body carries an `id`; so ids are then distinct. */
  lemma {:induction false} PostAllKeepsIds(students: seq<Record>, bodies: seq<Record>)
    requires IdsArePositions(students)
    requires forall j :: 0 <= j < |bodies| ==> "id" !in bodies[j]
    ensures IdsArePositions(PostAll(students, bodies))
    decreases |bodies|
  {
    if bodies != [] {
      var next := students + [NewStudent(|students|, bodies[0])];
      assert IdsArePositions(next) by {
        forall i | 0 <= i < |next| ensures "id" in next[i] && next[i]["id"] == JNum(i + 1) {
          if i < |students| { assert next[i] == students[i]; }
        }
      }
      PostAllKeepsIds(next, bodies[1..]);
    }
  }

  lemma IdsArePositionsDistinct(students: seq<Record>, i: nat, j: nat)
    requires IdsArePositions(students)
    requires i < j < |students|
    ensures students[i]["id"] != students[j]["id"]
  {
  }

  lemma SeedIdsArePositions()
    ensures IdsArePositions(SeedStudents)
  {
  }

  /** A body that carries an `id` can duplicate one: from the seed, posting `{id: 4}` and
      then `{}` stores two records whose id is 4. */
  lemma BodyIdCanDuplicate()
    ensures var s := PostAll(SeedStudents, [map["id" := JNum(4)], map[]]);
            |s| == 4 && s[2]["id"] == JNum(4) && s[3]["id"] == JNum(4)
  {
    var s1 := SeedStudents + [NewStudent(2, map["id" := JNum(4)])];
    var s2 := s1 + [NewStudent(3, map[])];
    assert PostAll(SeedStudents, [map["id" := JNum(4)], map[]]) == PostAll(s1, [map[]]);
    assert [map["id" := JNum(4)], map[]][1..] == [map[]];
    assert PostAll(s1, [map[]]) == PostAll(s2, []);
  }

  /** The server process's store. */
  class StudentStore {
    var students: seq<Record>
    var subjects: seq<Record>
    /** The bodies of the POSTs served so far, in order. */
    ghost var posted: seq<Record>

    /** No route writes the subjects list, and the students list is the seed after the
        POSTs served so far. */
    ghost predicate Valid()
      reads this
    {
      subjects == SeedSubjects && students == PostAll(SeedStudents, posted)
    }

    /** While no body served so far carried an `id`, every id is its position plus one,
        so no two students share an id. */
    lemma IdsStayPositions()
      requires Valid()
      requires forall j :: 0 <= j < |posted| ==> "id" !in posted[j]
      ensures IdsArePositions(students)
    {
      SeedIdsArePositions();
      PostAllKeepsIds(SeedStudents, posted);
    }

    /** The module-level initialisers. */
    constructor ()
      ensures Valid()
      ensures students == SeedStudents && posted == []
    {
      students := SeedStudents;
      subjects := SeedSubjects;
      posted := [];
    }

    /** `GET /api/students`: the current list, that is the seed followed by one record per
        POST served, in the order they were served. */
    method GetStudents() returns (r: seq<Record>)
      requires Valid()
      ensures r == students
      ensures r == PostAll(SeedStudents, posted)
    {
      r := students;
    }

    /** `POST /api/students`: appends one record built from the body, answers 201 with it. */
    method PostStudent(body: Record) returns (status: int, created: Record)
      requires Valid()
      modifies this`students, this`posted
      ensures Valid()
      ensures status == 201
      ensures created == NewStudent(|old(students)|, body)
      ensures students == old(students) + [created]
      ensures posted == old(posted) + [body]
    {
      created := map["id" := JNum(|students| + 1)] + body;
      students := students + [created];
      status := 201;
      PostAllAppend(SeedStudents, posted, body);
      posted := posted + [body];
    }

    /** `GET /api/subjects`: always the two seeded subjects. */
    method GetSubjects() returns (r: seq<Record>)
      requires Valid()
      ensures r == SeedSubjects
    {
      r := subjects;
    }
  }
}
