/** The earlier draft of the value: one `std::variant` over null, bool, double and string, with
    a tag computed from the alternative held and getters that assert the alternative. */
module DraftValue {
  import opened Basics
  import opened JsonValue

  /** `std::variant<nullptr_t, bool, double, std::string>`. */
  datatype Payload = PNull | PBool(b: bool) | PDouble(d: real) | PString(s: Bytes)

  /** `JsonValue::getType`: null and bool have their own tags, and every other alternative,
      the string included, reports a number. */
  function GetType(p: Payload): (t: JsonType)
    ensures t == KNull <==> p.PNull?
    ensures t == KBool <==> p.PBool?
    ensures t == KNumber <==> p.PDouble? || p.PString?
    ensures t != KString && t != KArray && t != KObject
  {
    if p.PNull? then KNull
    else if p.PBool? then KBool
    else KNumber
  }

  /** `JsonValue::toBool`: asserts the bool alternative and returns it unchanged. */
  function ToBool(p: Payload): (b: bool)
    requires p.PBool?
    ensures PBool(b) == p
  {
    p.b
  }

  /** `JsonValue::toDouble`: asserts the double alternative and returns it unchanged. */
  function ToDouble(p: Payload): (d: real)
    requires p.PDouble?
    ensures PDouble(d) == p
  {
    p.d
  }
}
