/** The value tree of the library: the six variants, their typed accessors, structural equality,
    deep copy and the convenience constructors of the `Json` class. */
module JsonValue {
  import opened Basics

  /** The tag every value reports (`JsonType`). */
  datatype JsonType = KNull | KBool | KNumber | KString | KArray | KObject

  /** What a misused accessor raises: `JsonException("Not implemented")` from the base class, or
      `std::out_of_range` from `unordered_map::at` on a missing key. */
  datatype AccessError = NotImplemented | OutOfRange

  /** `(size_t)-1` on a 64-bit target. */
  const SIZE_MAX: nat := 0xFFFF_FFFF_FFFF_FFFF

  /** A JSON value.  Numbers are modelled by their mathematical value; arrays are ordered
      (`std::vector<Json>`) and objects map unique keys to values (`std::unordered_map`). */
  datatype Value =
    | Null
    | Bool(b: bool)
    | Number(n: real)
    | Str(s: Bytes)
    | Arr(elems: seq<Value>)
    | Obj(members: map<Bytes, Value>)
  {
    /** The tag fixed by the variant. */
    function Type(): (t: JsonType)
      ensures t == KNull <==> Null?
      ensures t == KBool <==> Bool?
      ensures t == KNumber <==> Number?
      ensures t == KString <==> Str?
      ensures t == KArray <==> Arr?
      ensures t == KObject <==> Obj?
    {
      match this
      case Null => KNull
      case Bool(_) => KBool
      case Number(_) => KNumber
      case Str(_) => KString
      case Arr(_) => KArray
      case Obj(_) => KObject
    }

    function IsNull(): (r: bool) ensures r <==> Null? { Type() == KNull }
    function IsBool(): (r: bool) ensures r <==> Bool? { Type() == KBool }
    function IsNumber(): (r: bool) ensures r <==> Number? { Type() == KNumber }
    function IsString(): (r: bool) ensures r <==> Str? { Type() == KString }
    function IsArray(): (r: bool) ensures r <==> Arr? { Type() == KArray }
    function IsObject(): (r: bool) ensures r <==> Obj? { Type() == KObject }

    function ToBool(): (r: Result<bool, AccessError>)
      ensures r.Ok? <==> Bool?
      ensures r.Ok? ==> Bool(r.value) == this
      ensures r.Err? ==> r.error == NotImplemented
    {
      if Bool? then Ok(b) else Err(NotImplemented)
    }

    function ToNumber(): (r: Result<real, AccessError>)
      ensures r.Ok? <==> Number?
      ensures r.Ok? ==> Number(r.value) == this
      ensures r.Err? ==> r.error == NotImplemented
    {
      if Number? then Ok(n) else Err(NotImplemented)
    }

    function ToString(): (r: Result<Bytes, AccessError>)
      ensures r.Ok? <==> Str?
      ensures r.Ok? ==> Str(r.value) == this
      ensures r.Err? ==> r.error == NotImplemented
    {
      if Str? then Ok(s) else Err(NotImplemented)
    }

    /** Returns a copy of the elements; the copy is indistinguishable from them. */
    function ToArray(): (r: Result<seq<Value>, AccessError>)
      ensures r.Ok? <==> Arr?
      ensures r.Ok? ==> Arr(r.value) == this
      ensures r.Err? ==> r.error == NotImplemented
    {
      if Arr? then Ok(elems) else Err(NotImplemented)
    }

    function ToObject(): (r: Result<map<Bytes, Value>, AccessError>)
      ensures r.Ok? <==> Obj?
      ensures r.Ok? ==> Obj(r.value) == this
      ensures r.Err? ==> r.error == NotImplemented
    {
      if Obj? then Ok(members) else Err(NotImplemented)
    }

    /** Element count of an array, entry count of an object, `(size_t)-1` otherwise; never fails. */
    function Size(): (n: nat)
      ensures Arr? ==> n == |elems|
      ensures Obj? ==> n == |members|
      ensures !Arr? && !Obj? ==> n == SIZE_MAX
    {
      match this
      case Arr(es) => |es|
      case Obj(m) => |m|
      case _ => SIZE_MAX
    }

    /** `operator[](size_t)`: unchecked `val_[i]` on an array, so an index below the size is the
        caller's obligation; every other variant raises "Not implemented". */
    function At(i: nat): (r: Result<Value, AccessError>)
      requires Arr? ==> i < |elems|
      ensures r.Ok? <==> Arr?
      ensures r.Ok? ==> r.value == elems[i]
      ensures r.Err? ==> r.error == NotImplemented
    {
      if Arr? then Ok(elems[i]) else Err(NotImplemented)
    }

    /** `operator[](const std::string&)`: `val_.at(key)` on an object, which raises
        `std::out_of_range` for a missing key instead of inserting it. */
    function Get(key: Bytes): (r: Result<Value, AccessError>)
      ensures r.Ok? <==> Obj? && key in members
      ensures r.Ok? ==> r.value == members[key]
      ensures r.Err? && Obj? ==> r.error == OutOfRange
      ensures r.Err? && !Obj? ==> r.error == NotImplemented
    {
      if !Obj? then Err(NotImplemented)
      else if key in members then Ok(members[key])
      else Err(OutOfRange)
    }
  }

  /** `Json::operator==`: different tags are unequal; equal tags compare payloads, arrays
      element by element in order, objects as maps from key to value. */
  predicate Equal(a: Value, b: Value)
    decreases a
  {
    a.Type() == b.Type() &&
    match a
    case Null => true
    case Bool(x) => x == b.b
    case Number(x) => x == b.n
    case Str(x) => x == b.s
    case Arr(xs) =>
      |xs| == |b.elems| && forall i | 0 <= i < |xs| :: Equal(xs[i], b.elems[i])
    case Obj(m) =>
      m.Keys == b.members.Keys && forall k | k in m :: Equal(m[k], b.members[k])
  }

  /** The source's equality is exactly sameness of the value tree. */
  lemma {:induction false} EqualIffSame(a: Value, b: Value)
    ensures Equal(a, b) <==> a == b
    decreases a
  {
    match a
    case Arr(xs) =>
      if b.Arr? && |xs| == |b.elems| {
        forall i | 0 <= i < |xs| ensures Equal(xs[i], b.elems[i]) <==> xs[i] == b.elems[i] {
          EqualIffSame(xs[i], b.elems[i]);
        }
        if Equal(a, b) {
          assert xs == b.elems;
        }
      }
    case Obj(m) =>
      if b.Obj? && m.Keys == b.members.Keys {
        forall k | k in m ensures Equal(m[k], b.members[k]) <==> m[k] == b.members[k] {
          EqualIffSame(m[k], b.members[k]);
        }
        if Equal(a, b) {
          assert m == b.members;
        }
      }
    case _ =>
  }

  /** `Json::operator!=` is the negation of `operator==`. */
  function NotEqual(a: Value, b: Value): (r: bool)
    ensures r <==> a != b
  {
    EqualIffSame(a, b);
    !Equal(a, b)
  }

  /** The copy constructor: rebuild the variant from the source's tag and payload, copying
      array elements and object entries in turn. */
  function Copy(o: Value): (c: Value)
    ensures c.Type() == o.Type()
    ensures c == o
    decreases o
  {
    match o
    case Null => Null
    case Bool(x) => Bool(x)
    case Number(x) => Number(x)
    case Str(x) => Str(x)
    case Arr(xs) => Arr(seq(|xs|, i requires 0 <= i < |xs| => Copy(xs[i])))
    case Obj(m) => Obj(map k | k in m :: Copy(m[k]))
  }

  /** `Json()`: the default value. */
  function Default(): (v: Value)
    ensures v.IsNull() && v.Size() == SIZE_MAX
  {
    Null
  }

  /** `Json(int)`: an integer becomes a Number holding the same value. */
  function OfInt(i: int): (v: Value)
    ensures v.IsNumber() && v.ToNumber() == Ok(i as real)
  {
    Number(i as real)
  }

  /** `Json(const char*)`: the same as the `std::string` constructor on the bytes before the
      terminating NUL. */
  function OfCString(buf: Bytes): (v: Value)
    ensures v.IsString()
    ensures v.ToString() == Ok(CString(buf))
    ensures '\0' !in buf ==> v == Str(buf)
  {
    Str(CString(buf))
  }

  /** `Json(const array&)`: every element can be read back at its index. */
  function OfArray(a: seq<Value>): (v: Value)
    ensures v.IsArray() && v.Size() == |a|
    ensures forall i | 0 <= i < |a| :: v.At(i) == Ok(a[i])
  {
    Arr(a)
  }

  /** `Json(const object&)`: every entry can be read back by its key, and no other key exists. */
  function OfObject(m: map<Bytes, Value>): (v: Value)
    ensures v.IsObject() && v.Size() == |m|
    ensures forall k | k in m :: v.Get(k) == Ok(m[k])
    ensures forall k | k !in m :: v.Get(k) == Err(OutOfRange)
  {
    Obj(m)
  }
}
