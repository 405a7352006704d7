/**
 * routers/students.py: the request models for PATCH, the `updated_data` /
 * `$set` merge of a patch onto a stored student, the filter built by the list
 * endpoint, and the not-found paths of the handlers, over a collection modelled
 * as a map from ids to students kept in insertion order.
 */
module Router {
  import opened Wrappers
  import opened Models
  import opened Schemas

  /** The address part of a PATCH body: either field may be absent. */
  datatype AddressPatch = AddressPatch(city: Option<string>, country: Option<string>)

  /** A PATCH body: every field may be absent. */
  datatype StudentPatch = StudentPatch(name: Option<string>, age: Option<int>, address: Option<AddressPatch>)

  /** Python truthiness of an optional string: present and not `""`. */
  predicate Truthy(o: Option<string>)
  {
    o.Some? && o.value != ""
  }

  /** Python truthiness of an optional integer: present and not `0`. */
  predicate TruthyInt(o: Option<int>)
  {
    o.Some? && o.value != 0
  }

  /** The address written by a patch that carries an address object: each field falls back to the stored one when falsy. */
  function PatchedAddress(stored: Address, a: AddressPatch): (r: Address)
  {
    Address(if Truthy(a.city) then a.city.value else stored.city,
            if Truthy(a.country) then a.country.value else stored.country)
  }

  /**
   * `updated_data` as `update_student` builds it: `name` and `age` only when
   * truthy, and a full `address` whenever an address object is supplied (a
   * dataclass instance is always truthy, even with both fields None).
   */
  function UpdatedData(existing: Student, p: StudentPatch): (u: Doc)
    ensures u.Keys <= {"name", "age", "address"}
    ensures "name" in u <==> Truthy(p.name)
    ensures "age" in u <==> TruthyInt(p.age)
    ensures "address" in u <==> p.address.Some?
  {
    var withName: Doc := if Truthy(p.name) then map["name" := Str(p.name.value)] else map[];
    var withAge := if TruthyInt(p.age) then withName["age" := Int(p.age.value)] else withName;
    if p.address.Some?
    then withAge["address" := Object(DumpAddress(PatchedAddress(existing.address, p.address.value)))]
    else withAge
  }

  /** `{"$set": u}` on one document: each key of `u` overwrites, every other key is kept. */
  function SetFields(d: Doc, u: Doc): (r: Doc)
  {
    d + u
  }

  /** The student a PATCH leaves behind, field by field. */
  function Merge(existing: Student, p: StudentPatch): (r: Student)
  {
    Student(if Truthy(p.name) then p.name.value else existing.name,
            if TruthyInt(p.age) then p.age.value else existing.age,
            if p.address.Some? then PatchedAddress(existing.address, p.address.value) else existing.address)
  }

  /**
   * `$set`-ing `updated_data` onto the stored document yields exactly the
   * stored document of the merged student, under the same `_id`; a key not in
   * `updated_data` keeps its stored value.
   */
  lemma MergeIsSet(id: Id, s: Student, p: StudentPatch)
    ensures SetFields(Stored(id, s), UpdatedData(s, p)) == Stored(id, Merge(s, p))
    ensures forall k :: k in Stored(id, s) && k !in UpdatedData(s, p) ==>
              Stored(id, Merge(s, p))[k] == Stored(id, s)[k]
  {
  }

  /** An empty patch puts nothing in `updated_data` and leaves the student unchanged. */
  lemma EmptyPatch(s: Student)
    ensures UpdatedData(s, StudentPatch(None, None, None)) == map[]
    ensures Merge(s, StudentPatch(None, None, None)) == s
  {
  }

  /** `name` is replaced exactly when the patch name is a non-empty string; `""` keeps the stored name. */
  lemma MergeName(s: Student, p: StudentPatch)
    ensures Truthy(p.name) ==> Merge(s, p).name == p.name.value
    ensures !Truthy(p.name) ==> Merge(s, p).name == s.name
    ensures p.name == Some("") ==> Merge(s, p).name == s.name
  {
  }

  /** `age` is replaced exactly when the patch age is non-zero, negative included; `0` keeps the stored age. */
  lemma MergeAge(s: Student, p: StudentPatch)
    ensures TruthyInt(p.age) ==> Merge(s, p).age == p.age.value
    ensures !TruthyInt(p.age) ==> Merge(s, p).age == s.age
    ensures p.age == Some(0) ==> Merge(s, p).age == s.age
  {
  }

  /**
   * Without an address object the stored address is kept in full; with one, city
   * and country are each the patch's value when non-empty and the stored one otherwise.
   */
  lemma MergeAddress(s: Student, p: StudentPatch)
    ensures p.address.None? ==> Merge(s, p).address == s.address
    ensures p.address.Some? ==>
              Merge(s, p).address.city ==
                (if Truthy(p.address.value.city) then p.address.value.city.value else s.address.city)
              && Merge(s, p).address.country ==
                (if Truthy(p.address.value.country) then p.address.value.country.value else s.address.country)
  {
  }

  /** An address object whose fields are absent or empty rewrites the address to what it already was. */
  lemma EmptyAddressPatch(s: Student, p: StudentPatch)
    requires p.address.Some? && !Truthy(p.address.value.city) && !Truthy(p.address.value.country)
    ensures "address" in UpdatedData(s, p)
    ensures Merge(s, p).address == s.address
  {
  }

  /** A patch that sets every field to a truthy value determines the result regardless of the stored student. */
  lemma FullPatch(s: Student, t: Student, p: StudentPatch)
    requires Truthy(p.name) && TruthyInt(p.age) && p.address.Some?
    requires Truthy(p.address.value.city) && Truthy(p.address.value.country)
    ensures Merge(s, p) == Merge(t, p)
    ensures Merge(s, p) == Student(p.name.value, p.age.value,
                                   Address(p.address.value.city.value, p.address.value.country.value))
  {
  }

  /** Applying the same patch twice gives the same student as applying it once. */
  lemma MergeIdempotent(s: Student, p: StudentPatch)
    ensures Merge(Merge(s, p), p) == Merge(s, p)
  {
  }

  // ---------------------------------------------------------------------------
  // Listing

  /**
   * The filter dict `list_students` builds: a country condition only when the
   * country argument is truthy, an age lower bound only when the age argument is.
   */
  datatype Filter = Filter(country: Option<string>, minAge: Option<int>)

  function BuildFilter(country: Option<string>, age: Option<int>): (f: Filter)
  {
    Filter(if Truthy(country) then country else None, if TruthyInt(age) then age else None)
  }

  /** ASCII lower-casing of one character. */
  function Lower(c: char): (r: char)
  {
    if 'A' <= c <= 'Z' then (c as int + 32) as char else c
  }

  /** The anchored, case-insensitive match `^country$` with option `i`, read literally over ASCII. */
  predicate EqualsIgnoreCase(a: string, b: string)
  {
    |a| == |b| && forall i :: 0 <= i < |a| ==> Lower(a[i]) == Lower(b[i])
  }

  /** The case-insensitive match is an equivalence: reflexive, symmetric and transitive. */
  lemma EqualsIgnoreCaseEquivalence(a: string, b: string, c: string)
    ensures EqualsIgnoreCase(a, a)
    ensures EqualsIgnoreCase(a, b) ==> EqualsIgnoreCase(b, a)
    ensures EqualsIgnoreCase(a, b) && EqualsIgnoreCase(b, c) ==> EqualsIgnoreCase(a, c)
  {
  }

  /** Whether the database returns a student for a filter. */
  predicate Matches(s: Student, f: Filter)
  {
    && (f.country.None? || EqualsIgnoreCase(s.address.country, f.country.value))
    && (f.minAge.None? || s.age >= f.minAge.value)
  }

  /**
   * A student is listed iff (the country argument is None or empty, or equals
   * the student's country ignoring case) and (the age argument is None or 0, or
   * the student's age is at least it).
   */
  lemma ListedIff(s: Student, country: Option<string>, age: Option<int>)
    ensures Matches(s, BuildFilter(country, age)) <==>
              (!Truthy(country) || EqualsIgnoreCase(s.address.country, country.value))
              && (!TruthyInt(age) || s.age >= age.value)
  {
  }

  /** The ids, in collection order, whose students match the filter. */
  function Selected(ids: seq<Id>, students: map<Id, Student>, f: Filter): (sel: seq<Id>)
    requires forall id :: id in ids ==> id in students
    ensures forall id :: id in sel ==> id in ids
  {
    if ids == [] then []
    else
      var last := ids[|ids| - 1];
      Selected(ids[..|ids| - 1], students, f) + (if Matches(students[last], f) then [last] else [])
  }

  /** An id is selected exactly when it is in the collection and its student matches. */
  lemma {:induction false} SelectedIff(ids: seq<Id>, students: map<Id, Student>, f: Filter, id: Id)
    requires forall x :: x in ids ==> x in students
    ensures id in Selected(ids, students, f) <==> id in ids && Matches(students[id], f)
  {
    if ids != [] {
      var init := ids[..|ids| - 1];
      SelectedIff(init, students, f, id);
      assert ids == init + [ids[|ids| - 1]];
    }
  }

  /** Selection keeps collection order: selecting from two consecutive runs of ids concatenates the selections. */
  lemma {:induction false} SelectedAppend(a: seq<Id>, b: seq<Id>, students: map<Id, Student>, f: Filter)
    requires forall x :: x in a + b ==> x in students
    ensures Selected(a + b, students, f) == Selected(a, students, f) + Selected(b, students, f)
  {
    if b != [] {
      var init := b[..|b| - 1];
      assert (a + b)[..|a + b| - 1] == a + init;
      SelectedAppend(a, init, students, f);
    } else {
      assert a + b == a;
    }
  }

  // ---------------------------------------------------------------------------
  // The collection and the handlers

  /** The HTTP error a handler raises. */
  datatype HttpError = NotFound

  /**
   * The student collection: the stored students by id, and the order in which
   * a query returns them (insertion order).
   */
  class Collection {
    var order: seq<Id>
    var students: map<Id, Student>

    /** Each stored id appears exactly once in `order`. */
    ghost predicate Valid()
      reads this
    {
      && (forall i, j :: 0 <= i < j < |order| ==> order[i] != order[j])
      && (forall id :: id in order <==> id in students)
    }

    constructor ()
      ensures Valid() && order == [] && students == map[]
    {
      order := [];
      students := map[];
    }

    /** `create_student`: stores the dumped student under the id the database generated. */
    method Create(id: Id, s: Student)
      requires Valid() && id !in students
      modifies this
      ensures Valid()
      ensures students == old(students)[id := s] && order == old(order) + [id]
    {
      students := students[id := s];
      order := order + [id];
    }

    /** `get_student_by_id`: the stored student, read back through `serialize_student`, or 404. */
    method GetById(id: Id) returns (r: Result<Student, HttpError>)
      ensures id in students ==> r == Ok(students[id])
      ensures id !in students <==> r == Err(NotFound)
    {
      if id !in students {
        return Err(NotFound);
      }
      var doc := new Document(Stored(id, students[id]));
      SerializeStored(id, students[id]);
      var ser := SerializeStudent(doc);
      r := Ok(ser.value.student);
    }

    /**
     * `update_student`: 404 without a write when the id is absent; otherwise
     * `$set`s `updated_data` onto the stored document, which then reads back as
     * the merge of the stored student and the patch.
     */
    method Update(id: Id, p: StudentPatch) returns (r: Outcome<HttpError>)
      requires Valid()
      modifies this
      ensures Valid() && order == old(order)
      ensures id !in old(students) ==> r == Fail(NotFound) && students == old(students)
      ensures id in old(students) ==>
                r == Pass && students == old(students)[id := Merge(old(students)[id], p)]
    {
      if id !in students {
        return Fail(NotFound);
      }
      var existing := students[id];
      var updatedData := UpdatedData(existing, p);
      var doc := SetFields(Stored(id, existing), updatedData);
      MergeIsSet(id, existing, p);
      SerializeStored(id, Merge(existing, p));
      var ser := Serialize(doc);
      students := students[id := ser.value.student];
      r := Pass;
    }

    /** `delete_student`: removes the student, or raises 404 when nothing was deleted. */
    method Delete(id: Id) returns (r: Outcome<HttpError>)
      requires Valid()
      modifies this
      ensures Valid()
      ensures id !in old(students) ==>
                r == Fail(NotFound) && students == old(students) && order == old(order)
      ensures id in old(students) ==>
                && r == Pass
                && students == old(students) - {id}
                && exists k :: 0 <= k < |old(order)| && old(order)[k] == id
                                 && order == old(order)[..k] + old(order)[k + 1..]
    {
      if id !in students {
        return Fail(NotFound);
      }
      var k :| 0 <= k < |order| && order[k] == id;
      order := order[..k] + order[k + 1..];
      students := students - {id};
      r := Pass;
    }

    /** `collection.find(filter)`: a fresh dict per matching stored document, in collection order. */
    method Find(f: Filter) returns (cursor: seq<Document>)
      requires Valid()
      ensures |cursor| == |Selected(order, students, f)|
      ensures forall k :: 0 <= k < |cursor| ==>
                fresh(cursor[k])
                && cursor[k].fields == Stored(Selected(order, students, f)[k],
                                              students[Selected(order, students, f)[k]])
      ensures forall i, j :: 0 <= i < j < |cursor| ==> cursor[i] != cursor[j]
    {
      cursor := [];
      var i := 0;
      while i < |order|
        invariant 0 <= i <= |order|
        invariant forall id :: id in order[..i] ==> id in students
        invariant |cursor| == |Selected(order[..i], students, f)|
        invariant forall k :: 0 <= k < |cursor| ==>
                    fresh(cursor[k])
                    && cursor[k].fields == Stored(Selected(order[..i], students, f)[k],
                                                  students[Selected(order[..i], students, f)[k]])
        invariant forall a, b :: 0 <= a < b < |cursor| ==> cursor[a] != cursor[b]
      {
        var id := order[i];
        assert order[..i + 1][..i] == order[..i];
        if Matches(students[id], f) {
          var doc := new Document(Stored(id, students[id]));
          cursor := cursor + [doc];
        }
        i := i + 1;
      }
      assert order[..i] == order;
    }

    /**
     * `list_students`: builds the filter, runs the query and returns the
     * `{name, age}` entry of every matching student, in collection order.
     */
    method List(country: Option<string>, age: Option<int>) returns (r: seq<Doc>)
      requires Valid()
      ensures |r| == |Selected(order, students, BuildFilter(country, age))|
      ensures forall k :: 0 <= k < |r| ==>
                r[k] == Summary(students[Selected(order, students, BuildFilter(country, age))[k]])
    {
      var filter := BuildFilter(country, age);
      var cursor := Find(filter);
      ghost var sel := Selected(order, students, filter);
      ghost var before := FieldsOf(cursor);
      forall k | 0 <= k < |before|
        ensures Serialize(before[k]) == Ok(SerializedStudent(IdValue(sel[k]), students[sel[k]]))
      {
        SerializeStored(sel[k], students[sel[k]]);
      }
      SerializeAllOk(before);
      var data := ListSerialize(cursor);
      r := data.value;
    }
  }

  /** A PATCH of an absent id writes nothing; a second DELETE of the same id is a 404. */
  method NotFoundScenario(id: Id, other: Id, s: Student)
    requires id != other
  {
    var c := new Collection();
    c.Create(id, s);
    var patched := c.Update(other, StudentPatch(None, Some(21), None));
    assert patched == Fail(NotFound) && c.students == map[id := s];
    var got := c.GetById(id);
    assert got == Ok(s);
    var first := c.Delete(id);
    var second := c.Delete(id);
    assert first == Pass && second == Fail(NotFound);
  }
}
