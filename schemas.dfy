/**
 * schema/schemas.py: turning a document read from the database into a
 * `SerializedStudent` (popping its `_id`), and projecting a cursor of documents
 * to the `{name, age}` entries the list endpoint returns.
 */
module Schemas {
  import opened Wrappers
  import opened Models

  /** The id popped from a document together with the student validated from the rest. */
  datatype SerializedStudent = SerializedStudent(id: Value, student: Student)

  /** A mutable dict as the database cursor yields it; `serialize_student` changes it in place. */
  class Document {
    var fields: Doc

    constructor (fields: Doc)
      ensures this.fields == fields
    {
      this.fields := fields;
    }
  }

  /**
   * What `serialize_student` returns for a dict holding `data`: a KeyError when
   * `_id` is missing (the pop has no default), otherwise the popped id paired
   * with the validation of the remaining keys.
   */
  function Serialize(data: Doc): (r: Result<SerializedStudent, SchemaError>)
    ensures "_id" !in data <==> r == Err(KeyError("_id"))
    ensures r.Ok? ==> "_id" in data && r.value.id == data["_id"]
                      && Validate(data - {"_id"}) == Ok(r.value.student)
    ensures "_id" in data && r.Err? ==> Validate(data - {"_id"}) == Err(r.error)
  {
    if "_id" !in data then Err(KeyError("_id"))
    else
      match Validate(data - {"_id"})
      case Ok(s) => Ok(SerializedStudent(data["_id"], s))
      case Err(e) => Err(e)
  }

  /**
   * `serialize_student(data)`: pops `_id` out of the dict (so afterwards the
   * dict has no `_id`, whether or not the call succeeds) and validates the rest.
   */
  method SerializeStudent(data: Document) returns (r: Result<SerializedStudent, SchemaError>)
    modifies data
    ensures data.fields == old(data.fields) - {"_id"}
    ensures r == Serialize(old(data.fields))
  {
    if "_id" !in data.fields {
      return Err(KeyError("_id"));
    }
    var curId := data.fields["_id"];
    data.fields := data.fields - {"_id"};
    match Validate(data.fields)
    case Ok(s) => r := Ok(SerializedStudent(curId, s));
    case Err(e) => r := Err(e);
  }

  /** A document as the database stores it: the dump of a student plus the `_id` it was given. */
  function Stored(id: Id, s: Student): (d: Doc)
  {
    Dump(s)["_id" := IdValue(id)]
  }

  /** Serializing a stored document gives back its id and the student that was stored. */
  lemma SerializeStored(id: Id, s: Student)
    ensures Serialize(Stored(id, s)) == Ok(SerializedStudent(IdValue(id), s))
  {
  }

  /**
   * The serialized student does not depend on the `_id`: replacing the id by
   * any other value changes the returned id and nothing else.
   */
  lemma SerializeIdIndependent(data: Doc, v: Value)
    requires "_id" in data
    ensures Serialize(data["_id" := v]) ==
            match Serialize(data)
            case Ok(ser) => Ok(SerializedStudent(v, ser.student))
            case Err(e) => Err(e)
  {
  }

  /** One `list_serialize` entry: exactly `name` and `age`, no address and no id. */
  function Summary(s: Student): (e: Doc)
  {
    map["name" := Str(s.name), "age" := Int(s.age)]
  }

  /** An entry carries the student's name and age under exactly those two keys: no address, no id. */
  lemma SummaryOnlyNameAndAge(s: Student)
    ensures Summary(s).Keys == {"name", "age"}
    ensures "address" !in Summary(s) && "_id" !in Summary(s)
    ensures Summary(s)["name"] == Str(s.name) && Summary(s)["age"] == Int(s.age)
  {
  }

  /**
   * What `list_serialize` returns for dicts holding `ms`: the documents are
   * serialized in order and the first exception raised propagates.
   */
  function SerializeAll(ms: seq<Doc>): (r: Result<seq<Doc>, SchemaError>)
  {
    if ms == [] then Ok([])
    else
      match SerializeAll(ms[..|ms| - 1])
      case Err(e) => Err(e)
      case Ok(done) =>
        match Serialize(ms[|ms| - 1])
        case Err(e) => Err(e)
        case Ok(ser) => Ok(done + [Summary(ser.student)])
  }

  /** The index of the first document whose serialization raises, or `|ms|` when none does. */
  function FirstFailure(ms: seq<Doc>): (i: nat)
    ensures i <= |ms|
    ensures forall k :: 0 <= k < i ==> Serialize(ms[k]).Ok?
    ensures i < |ms| ==> Serialize(ms[i]).Err?
  {
    if ms == [] then 0
    else if Serialize(ms[0]).Err? then 0
    else 1 + FirstFailure(ms[1..])
  }

  /**
   * `list_serialize` succeeds exactly when every document serializes, and then
   * returns one entry per document, in input order, holding that student's name and age.
   */
  lemma {:induction false} SerializeAllOk(ms: seq<Doc>)
    ensures SerializeAll(ms).Ok? <==> forall k :: 0 <= k < |ms| ==> Serialize(ms[k]).Ok?
    ensures SerializeAll(ms).Ok? ==>
              |SerializeAll(ms).value| == |ms|
              && forall k :: 0 <= k < |ms| ==>
                   SerializeAll(ms).value[k] == Summary(Serialize(ms[k]).value.student)
  {
    if ms != [] {
      var init := ms[..|ms| - 1];
      SerializeAllOk(init);
      assert forall k :: 0 <= k < |init| ==> init[k] == ms[k];
    }
  }

  /** When `list_serialize` raises, it raises what the first failing document raised. */
  lemma {:induction false} SerializeAllErr(ms: seq<Doc>)
    requires SerializeAll(ms).Err?
    ensures FirstFailure(ms) < |ms|
    ensures SerializeAll(ms).error == Serialize(ms[FirstFailure(ms)]).error
  {
    var n := |ms|;
    var init := ms[..n - 1];
    assert forall k :: 0 <= k < |init| ==> init[k] == ms[k];
    var ff := FirstFailure(ms);
    if SerializeAll(init).Err? {
      SerializeAllErr(init);
      var j := FirstFailure(init);
      assert Serialize(ms[j]).Err?;
      assert ff == j;
    } else {
      SerializeAllOk(init);
      assert Serialize(ms[n - 1]).Err?;
      assert ff == n - 1;
    }
  }

  /** The contents of a sequence of dicts. */
  ghost function FieldsOf(ds: seq<Document>): (ms: seq<Doc>)
    reads ds
    ensures |ms| == |ds| && forall k :: 0 <= k < |ds| ==> ms[k] == ds[k].fields
  {
    seq(|ds|, k requires 0 <= k < |ds| reads ds => ds[k].fields)
  }

  /**
   * `list_serialize(students)`: serializes each dict in turn and appends its
   * `{name, age}` entry. Every dict it reached, up to and including a failing
   * one, has lost its `_id`; the dicts after a failure are untouched.
   */
  method ListSerialize(students: seq<Document>) returns (r: Result<seq<Doc>, SchemaError>)
    requires forall i, j :: 0 <= i < j < |students| ==> students[i] != students[j]
    modifies students
    ensures r == SerializeAll(old(FieldsOf(students)))
    ensures forall k :: 0 <= k < |students| ==>
              students[k].fields == if k <= FirstFailure(old(FieldsOf(students)))
                                    then old(students[k].fields) - {"_id"}
                                    else old(students[k].fields)
  {
    ghost var before := FieldsOf(students);
    var data: seq<Doc> := [];
    var i := 0;
    while i < |students|
      invariant 0 <= i <= |students|
      invariant SerializeAll(before[..i]) == Ok(data)
      invariant forall k :: 0 <= k < |students| ==>
                  students[k].fields == if k < i then before[k] - {"_id"} else before[k]
    {
      var cur := SerializeStudent(students[i]);
      SerializeAllStep(before, i);
      if cur.Err? {
        FailureAt(before, i);
        return Err(cur.error);
      }
      data := data + [Summary(cur.value.student)];
      i := i + 1;
    }
    assert before[..i] == before;
    AllOkFirstFailure(before);
    r := Ok(data);
  }

  /** Serializing one more document extends, or stops, the serialization of the prefix before it. */
  lemma SerializeAllStep(ms: seq<Doc>, n: nat)
    requires n < |ms|
    ensures SerializeAll(ms[..n + 1]) ==
            match SerializeAll(ms[..n])
            case Err(e) => Err(e)
            case Ok(done) =>
              match Serialize(ms[n])
              case Err(e) => Err(e)
              case Ok(ser) => Ok(done + [Summary(ser.student)])
  {
    assert ms[..n + 1][..n] == ms[..n];
  }

  /** The first document that fails to serialize decides what `list_serialize` raises. */
  lemma FailureAt(ms: seq<Doc>, i: nat)
    requires i < |ms| && SerializeAll(ms[..i]).Ok? && Serialize(ms[i]).Err?
    ensures SerializeAll(ms) == Err(Serialize(ms[i]).error)
    ensures FirstFailure(ms) == i
  {
    SerializeAllStep(ms, i);
    PrefixErrPersists(ms, i + 1);
    SerializeAllOk(ms[..i]);
    assert forall k :: 0 <= k < i ==> ms[..i][k] == ms[k];
    FirstFailureAt(ms, i);
  }

  /** When every document serializes, no document is the first failure. */
  lemma AllOkFirstFailure(ms: seq<Doc>)
    requires SerializeAll(ms).Ok?
    ensures FirstFailure(ms) == |ms|
  {
    SerializeAllOk(ms);
  }

  /** A failing document with only successes before it is the first failure. */
  lemma FirstFailureAt(ms: seq<Doc>, i: nat)
    requires i < |ms| && Serialize(ms[i]).Err?
    requires forall k :: 0 <= k < i ==> Serialize(ms[k]).Ok?
    ensures FirstFailure(ms) == i
  {
  }

  /** Once a prefix of the documents fails to serialize, every longer prefix fails the same way. */
  lemma {:induction false} PrefixErrPersists(ms: seq<Doc>, n: nat)
    requires n <= |ms| && SerializeAll(ms[..n]).Err?
    ensures SerializeAll(ms) == SerializeAll(ms[..n])
    decreases |ms| - n
  {
    if n < |ms| {
      assert ms[..n + 1][..n] == ms[..n];
      PrefixErrPersists(ms, n + 1);
    } else {
      assert ms[..n] == ms;
    }
  }
}
