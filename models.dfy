/**
 * The entity shapes of models/students.py (`Address`, `Student`) and the two
 * conversions pydantic performs on them: `model_dump` (entity to document) and
 * `model_validate` (document to entity).
 */
module Models {
  import opened Wrappers

  /** A database object id (bson `ObjectId`); its structure is not modelled. */
  type Id(==, !new)

  /** A value inside a stored document: an object id, a string, an integer or a nested object. */
  datatype Value =
    | IdValue(id: Id)
    | Str(s: string)
    | Int(i: int)
    | Object(fields: map<string, Value>)

  /** A document as the database client hands it over: a dict from keys to values. */
  type Doc = map<string, Value>

  /** Both fields are required strings. */
  datatype Address = Address(city: string, country: string)

  /** `name` a required string, `age` a required integer with no range, `address` a complete Address. */
  datatype Student = Student(name: string, age: int, address: Address)

  /** What `data.pop("_id")` or `Student.model_validate` raise. */
  datatype SchemaError = KeyError(key: string) | ValidationError

  /** Every key of `small` is in `big` with the same value. */
  predicate Includes(big: Doc, small: Doc)
  {
    forall k :: k in small ==> k in big && big[k] == small[k]
  }

  /** The document form of an address, as `model_dump` nests it. */
  function DumpAddress(a: Address): (d: Doc)
  {
    map["city" := Str(a.city), "country" := Str(a.country)]
  }

  /** `Student.model_dump()`: the three declared fields and nothing else. */
  function Dump(s: Student): (d: Doc)
  {
    map["name" := Str(s.name), "age" := Int(s.age), "address" := Object(DumpAddress(s.address))]
  }

  /** Validation of a nested address: both fields present and strings; other keys ignored. */
  function ValidateAddress(v: Value): (r: Result<Address, SchemaError>)
    ensures r.Ok? ==> v.Object? && Includes(v.fields, DumpAddress(r.value))
  {
    match v
    case Object(m) =>
      if "city" in m && m["city"].Str? && "country" in m && m["country"].Str?
      then Ok(Address(m["city"].s, m["country"].s))
      else Err(ValidationError)
    case _ => Err(ValidationError)
  }

  /**
   * `Student.model_validate(data)`: succeeds exactly when the three required
   * fields are present with the declared types; keys it does not declare are ignored.
   */
  function Validate(d: Doc): (r: Result<Student, SchemaError>)
    ensures r.Ok? <==> ("name" in d && d["name"].Str? && "age" in d && d["age"].Int?
                        && "address" in d && ValidateAddress(d["address"]).Ok?)
    ensures r.Ok? ==> d["name"] == Str(r.value.name) && d["age"] == Int(r.value.age)
                      && ValidateAddress(d["address"]) == Ok(r.value.address)
  {
    if "name" in d && d["name"].Str? && "age" in d && d["age"].Int? && "address" in d then
      match ValidateAddress(d["address"])
      case Ok(a) => Ok(Student(d["name"].s, d["age"].i, a))
      case Err(e) => Err(e)
    else Err(ValidationError)
  }

  /**
   * An address validates to `a` exactly when the value is an object holding
   * `a`'s city and country as strings; any further keys are ignored.
   */
  lemma ValidateAddressIff(v: Value, a: Address)
    ensures ValidateAddress(v) == Ok(a) <==> v.Object? && Includes(v.fields, DumpAddress(a))
  {
  }

  /**
   * A document validates to `s` exactly when it holds `s`'s name and age and an
   * address object holding `s`'s city and country; any further keys are ignored.
   */
  lemma ValidateIff(d: Doc, s: Student)
    ensures Validate(d) == Ok(s) <==>
              && Includes(d, map["name" := Str(s.name), "age" := Int(s.age)])
              && "address" in d && d["address"].Object?
              && Includes(d["address"].fields, DumpAddress(s.address))
  {
  }

  /** Dumping and validating again gives back the same student. */
  lemma ValidateDump(s: Student)
    ensures Validate(Dump(s)) == Ok(s)
  {
  }

  /** A document that validates holds the dump of the student it validates to (plus, possibly, more keys). */
  lemma ValidateOnlyReadsDump(d: Doc, s: Student)
    requires Validate(d) == Ok(s)
    ensures Includes(d, map["name" := Str(s.name), "age" := Int(s.age)])
    ensures "address" in d && Includes(d["address"].fields, DumpAddress(s.address))
  {
  }

  /** Validation looks only at `name`, `age` and `address`: removing any other key changes nothing. */
  lemma ValidateIgnoresOtherKeys(d: Doc, k: string)
    requires k !in {"name", "age", "address"}
    ensures Validate(d - {k}) == Validate(d)
  {
  }
}
