/** The `Json` handle: an object owning one value, replaced by copy, assignment, swap and by
    writes through the mutable subscript operators, and the entry points `parse` and
    `serialize`. */
module JsonHandle {
  import opened Basics
  import opened JsonValue
  import opened Serializer
  import Parser
  import Scan

  class Json {
    /** `value_`: the owned value. */
    var value: Value

    /** The value constructors (`Json(nullptr)`, `Json(bool)`, `Json(double)`, `Json(string)`,
        `Json(array)`, `Json(object)`): the handle owns exactly the given value. */
    constructor(v: Value)
      ensures value == v
    {
      value := v;
    }

    /** The copy constructor: the value is rebuilt from the tag and payload of `o`, arrays and
        objects through copies of their elements (`JsonValue.Copy`). */
    constructor Copy(o: Json)
      ensures value == o.value && value.Type() == o.value.Type()
    {
      value := JsonValue.Copy(o.value);
    }

    /** `swap`: exchange the owned values. */
    method Swap(o: Json)
      modifies this, o
      ensures value == old(o.value) && o.value == old(value)
    {
      value, o.value := o.value, value;
    }

    /** Copy assignment by copy-and-swap; assigning a handle to itself keeps its value. */
    method Assign(o: Json)
      modifies this
      ensures value == old(o.value)
    {
      var temp := new Json.Copy(o);
      Swap(temp);
    }

    /** `(*this)[i] = x` through `operator[](size_t)`: only element `i` of an array changes, to
        a copy of `x`; the tag, the size and every other element stay.  Any other variant raises
        "Not implemented" and nothing changes. */
    method SetAt(i: nat, x: Json) returns (r: Result<(), AccessError>)
      requires value.Arr? ==> i < |value.elems|
      modifies this
      ensures r.Ok? <==> old(value).Arr?
      ensures r.Err? ==> r.error == NotImplemented && value == old(value)
      ensures r.Ok? ==> value == Arr(old(value).elems[i := old(x.value)])
      ensures value.Type() == old(value.Type()) && value.Size() == old(value.Size())
      ensures r.Ok? ==> value.At(i) == Ok(old(x.value))
      ensures r.Ok? ==> forall j | 0 <= j < |value.elems| && j != i :: value.elems[j] == old(value.elems[j])
    {
      if !value.Arr? {
        return Err(NotImplemented);
      }
      var element := new Json(value.elems[i]);
      element.Assign(x);
      value := Arr(value.elems[i := element.value]);
      return Ok(());
    }

    /** `(*this)[key] = x` through `operator[](const std::string&)`: `at` finds the entry, so a
        missing key raises `std::out_of_range` and is never inserted; otherwise only that entry
        changes.  Any other variant raises "Not implemented". */
    method SetKey(key: Bytes, x: Json) returns (r: Result<(), AccessError>)
      modifies this
      ensures r.Ok? <==> old(value).Obj? && key in old(value).members
      ensures r.Err? ==> value == old(value)
      ensures r.Err? && old(value).Obj? ==> r.error == OutOfRange
      ensures r.Err? && !old(value).Obj? ==> r.error == NotImplemented
      ensures r.Ok? ==> value == Obj(old(value).members[key := old(x.value)])
      ensures value.Type() == old(value.Type()) && value.Size() == old(value.Size())
      ensures value.Obj? ==> value.members.Keys == old(value).members.Keys
      ensures r.Ok? ==> value.Get(key) == Ok(old(x.value))
      ensures r.Ok? ==> forall k | k in value.members && k != key :: value.members[k] == old(value).members[k]
    {
      if !value.Obj? {
        return Err(NotImplemented);
      }
      if key !in value.members {
        return Err(OutOfRange);
      }
      var entry := new Json(value.members[key]);
      entry.Assign(x);
      value := Obj(value.members[key := entry.value]);
      return Ok(());
    }

    /** `serialize`. */
    method Serialize(rt: Runtime) returns (t: Bytes)
      requires rt.Valid()
      ensures t == Serialization(value, rt)
    {
      t := SerializeValue(value, rt);
    }

    /** `Json::parse(data, error)`: parse with a fresh parser; an exception becomes a Null value
        and its message is stored into `error`, which a successful parse leaves as it was. */
    static method Parse(data: Bytes, error: Bytes, strtod: Bytes -> real) returns (j: Json, errorOut: Bytes)
      ensures fresh(j)
      ensures Parser.ParseText(data, strtod).Ok? ==>
        j.value == Parser.ParseText(data, strtod).value && errorOut == error
      ensures Parser.ParseText(data, strtod).Err? ==>
        j.value == Null && errorOut == Parser.ParseText(data, strtod).error.Message()
    {
      var p := new Parser.Parser(data, strtod);
      var r := p.Parse();
      match r
      case Ok(v) =>
        j := new Json(v);
        errorOut := error;
      case Err(e) =>
        errorOut := e.Message();
        j := new Json(Null);
    }
  }

  /** A serialized literal parses back to the same value. */
  lemma LiteralRoundTrip(v: Value, rt: Runtime, strtod: Bytes -> real)
    requires rt.Valid() && (v.Null? || v.Bool?)
    ensures Parser.ParseText(Serialization(v, rt), strtod) == Ok(v)
  {
    var t := Serialization(v, rt);
    assert Scan.SkipWs(t, 0) == 0;
    assert Scan.LiteralAt(t, 0, t);
    assert Scan.SkipWs(t, |t|) == |t|;
  }
}
