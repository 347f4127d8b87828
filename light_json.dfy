/** The C draft of the front end: a cursor object `JsonData`, a result object `JsonValue` written
    through a pointer, and integer return codes.  Each function is a method over those objects,
    proved to agree with a step function of the input and the cursor; the draft as a whole is
    then shown to accept and reject the same texts as the class draft in `Parser`. */
module LightJson {
  import opened Basics
  import opened Scan
  import JsonValue
  import Parser

  /** The tags of this draft: `true` and `false` are tags of their own. */
  datatype LightType = KNull | KTrue | KFalse | KNumber | KString | KArray | KObject

  const PARSE_OK: int := 0
  const PARSE_EXPECT_VALUE: int := 1
  const PARSE_INVALID_VALUE: int := 2
  const PARSE_ROOT_NOT_SINGULAR: int := 3
  /** Returned by `parse_number` but not declared with the other codes; the model gives it the
      next free code. */
  const PARSE_NUMBER_TOO_BIG: int := 4

  /** `struct JsonData`: the input and the `json` pointer into it, as an offset. */
  class JsonData {
    const text: Bytes
    var json: nat

    predicate Valid()
      reads this
    {
      json <= |text|
    }

    constructor(text: Bytes)
      ensures this.text == text && json == 0 && Valid()
    {
      this.text := text;
      json := 0;
    }
  }

  /** `struct JsonValue`: the `type` tag (`tag` here, since `type` is a keyword), and the
      `number` field `parse_number` writes. */
  class LightValue {
    var tag: LightType
    var number: real

    constructor(t: LightType, n: real)
      ensures tag == t && number == n
    {
      tag := t;
      number := n;
    }
  }

  // ---- The steps, as functions of the input, the cursor and the tag before the step ----

  /** What a step leaves: its return code, the cursor, and the tag of the value. */
  datatype LStep = LStep(code: int, next: nat, tag: LightType)

  /** `parse_literal`, entered on the literal's first byte: that byte is consumed first, so a
      mismatch leaves the cursor one past the start; the tag is written only on success. */
  function LiteralStep(s: Bytes, i: nat, lit: Bytes, t: LightType, prior: LightType): (st: LStep)
    requires i <= |s| && |lit| > 0 && '\0' !in lit && Peek(s, i) == lit[0]
    ensures st.code == PARSE_OK <==> LiteralAt(s, i, lit)
    ensures st.code == PARSE_OK ==> st.next == i + |lit| && st.tag == t
    ensures st.code != PARSE_OK ==> st == LStep(PARSE_INVALID_VALUE, i + 1, prior)
    ensures st.next <= |s|
  {
    MatchesAtIsLiteral(s, i, lit);
    assert i < |s| by {
      assert lit[0] in lit;
    }
    if MatchesAt(s, i, lit) then LStep(PARSE_OK, i + |lit|, t)
    else LStep(PARSE_INVALID_VALUE, i + 1, prior)
  }

  /** `parse_number`: the scan runs on a local pointer; `data->json` moves to the end of the
      number only when the scan succeeds and `strtod` reports no range error, and only then is
      the tag written. */
  function NumberStep(s: Bytes, i: nat, rangeError: Bytes -> bool, prior: LightType): (st: LStep)
    requires i <= |s|
    ensures st.code == PARSE_OK <==> ScanNumber(s, i).Scanned? && !rangeError(CString(s[i..]))
    ensures st.code == PARSE_OK ==> st.next == ScanNumber(s, i).end && st.tag == KNumber
    ensures st.code != PARSE_OK ==> st.next == i && st.tag == prior
    ensures st.code != PARSE_OK ==>
      st.code == if ScanNumber(s, i).Stuck? then PARSE_INVALID_VALUE else PARSE_NUMBER_TOO_BIG
    ensures st.next <= |s|
  {
    match ScanNumber(s, i)
    case Stuck(_) => LStep(PARSE_INVALID_VALUE, i, prior)
    case Scanned(e) =>
      if rangeError(CString(s[i..])) then LStep(PARSE_NUMBER_TOO_BIG, i, prior)
      else LStep(PARSE_OK, e, KNumber)
  }

  /** `parse_value`: dispatch on the byte at the cursor. */
  function ValueStep(s: Bytes, i: nat, rangeError: Bytes -> bool, prior: LightType): (st: LStep)
    requires i <= |s|
    ensures st.next <= |s|
    ensures st.code != PARSE_OK ==> st.tag == prior
  {
    match Peek(s, i)
    case 'n' => LiteralStep(s, i, "null", KNull, prior)
    case 'f' => LiteralStep(s, i, "false", KFalse, prior)
    case 't' => LiteralStep(s, i, "true", KTrue, prior)
    case '\0' => LStep(PARSE_EXPECT_VALUE, i, prior)
    case _ => NumberStep(s, i, rangeError, prior)
  }

  /** The dispatch returns `PARSE_EXPECT_VALUE` exactly when the cursor is at the end of the C
      string, and then leaves the cursor where it is. */
  lemma ValueStepExpectsValue(s: Bytes, i: nat, rangeError: Bytes -> bool, prior: LightType)
    requires i <= |s|
    ensures ValueStep(s, i, rangeError, prior).code == PARSE_EXPECT_VALUE <==> Peek(s, i) == '\0'
    ensures Peek(s, i) == '\0' ==> ValueStep(s, i, rangeError, prior).next == i
  {
  }

  /** What `parse` returns and the tag it leaves. */
  datatype Outcome = Outcome(code: int, tag: LightType)

  /** `parse`: the tag starts as `kNull`; after a value only whitespace may follow, or the tag is
      reset to `kNull` and the root is not singular.  No failure leaves a tag other than `kNull`
      behind, and a tag other than `kNull` is the value's own. */
  function LightParse(s: Bytes, rangeError: Bytes -> bool): (r: Outcome)
    ensures r.code != PARSE_OK ==> r.tag == KNull
    ensures r.code == PARSE_OK ==> r.tag in {KNull, KTrue, KFalse, KNumber}
  {
    var st := ValueStep(s, SkipWs(s, 0), rangeError, KNull);
    if st.code != PARSE_OK then Outcome(st.code, st.tag)
    else if Peek(s, SkipWs(s, st.next)) != '\0' then Outcome(PARSE_ROOT_NOT_SINGULAR, KNull)
    else Outcome(PARSE_OK, st.tag)
  }

  // ---- The functions of the draft, over the cursor and value objects ----

  /** `parse_whitespace`: a local pointer runs over the whitespace, then is stored back. */
  method ParseWhitespace(data: JsonData)
    requires data.Valid()
    modifies data
    ensures data.Valid() && data.json == SkipWs(data.text, old(data.json))
  {
    var p := data.json;
    while IsWs(Peek(data.text, p))
      invariant data.json <= p <= |data.text|
      invariant SkipWs(data.text, data.json) == SkipWs(data.text, p)
      decreases |data.text| - p
    {
      p := p + 1;
    }
    data.json := p;
  }

  /** `parse_literal`: `EXPECT` consumes the first byte, then the rest of the literal is compared
      byte by byte. */
  method ParseLiteral(data: JsonData, value: LightValue, lit: Bytes, t: LightType) returns (code: int)
    requires data.Valid() && |lit| > 0 && '\0' !in lit && Peek(data.text, data.json) == lit[0]
    modifies data, value
    ensures data.Valid()
    ensures LStep(code, data.json, value.tag) ==
      LiteralStep(data.text, old(data.json), lit, t, old(value.tag))
    ensures value.number == old(value.number)
  {
    assert lit[0] in lit;
    data.json := data.json + 1;
    var i := 0;
    while i + 1 < |lit|
      invariant 0 <= i < |lit|
      invariant data.json == old(data.json) + 1
      invariant forall k | 0 <= k <= i :: Peek(data.text, old(data.json) + k) == lit[k]
    {
      if Peek(data.text, data.json + i) != lit[i + 1] {
        return PARSE_INVALID_VALUE;
      }
      i := i + 1;
    }
    assert MatchesAt(data.text, old(data.json), lit);
    MatchesAtIsLiteral(data.text, old(data.json), lit);
    data.json := data.json + i;
    value.tag := t;
    return PARSE_OK;
  }

  /** `while (ISDIGIT(*curr)) ++curr;` */
  method SkipDigits(s: Bytes, c: nat) returns (e: nat)
    requires c <= |s|
    ensures e == DigitsEnd(s, c)
  {
    e := c;
    while IsDigit(Peek(s, e))
      invariant c <= e <= |s|
      invariant DigitsEnd(s, c) == DigitsEnd(s, e)
      decreases |s| - e
    {
      e := e + 1;
    }
  }

  /** The integer part: one `0`, or a digit 1-9 and the digits after it. */
  method ScanIntegerPart(s: Bytes, c: nat) returns (r: Scan)
    requires c <= |s|
    ensures r == ScanInt(s, c)
  {
    if Peek(s, c) == '0' {
      return Scanned(c + 1);
    }
    if !IsDigit1To9(Peek(s, c)) {
      return Stuck(c);
    }
    var e := SkipDigits(s, c);
    DigitsEndAt(s, c + 1, e);
    return Scanned(e);
  }

  /** The optional fraction: a `.` must be followed by a digit. */
  method ScanFractionPart(s: Bytes, c: nat) returns (r: Scan)
    requires c <= |s|
    ensures r == ScanFrac(s, c)
  {
    if Peek(s, c) != '.' {
      return Scanned(c);
    }
    if !IsDigit(Peek(s, c + 1)) {
      return Stuck(c + 1);
    }
    var e := SkipDigits(s, c + 1);
    DigitsEndAt(s, c + 2, e);
    return Scanned(e);
  }

  /** The optional exponent: `e` or `E`, an optional sign, then a digit. */
  method ScanExponentPart(s: Bytes, c: nat) returns (r: Scan)
    requires c <= |s|
    ensures r == ScanExp(s, c)
  {
    if !(Peek(s, c) == 'e' || Peek(s, c) == 'E') {
      return Scanned(c);
    }
    var d := c + 1;
    if Peek(s, d) == '+' || Peek(s, d) == '-' {
      d := d + 1;
    }
    if !IsDigit(Peek(s, d)) {
      return Stuck(d);
    }
    var e := SkipDigits(s, d);
    DigitsEndAt(s, d + 1, e);
    return Scanned(e);
  }

  /** `parse_number`: scan on a local pointer, convert, and move the cursor only on success.
      The converted number is stored before the range check, as the draft does. */
  method ParseNumber(data: JsonData, value: LightValue, strtod: Bytes -> real, rangeError: Bytes -> bool)
    returns (code: int)
    requires data.Valid()
    modifies data, value
    ensures data.Valid()
    ensures LStep(code, data.json, value.tag) ==
      NumberStep(data.text, old(data.json), rangeError, old(value.tag))
    ensures code == PARSE_INVALID_VALUE ==> value.number == old(value.number)
    ensures code != PARSE_INVALID_VALUE ==> value.number == strtod(CString(data.text[old(data.json)..]))
  {
    var s := data.text;
    var curr := data.json;
    if Peek(s, curr) == '-' {
      curr := curr + 1;
    }
    var r := ScanIntegerPart(s, curr);
    if r.Stuck? {
      return PARSE_INVALID_VALUE;
    }
    r := ScanFractionPart(s, r.end);
    if r.Stuck? {
      return PARSE_INVALID_VALUE;
    }
    r := ScanExponentPart(s, r.end);
    if r.Stuck? {
      return PARSE_INVALID_VALUE;
    }
    var t := CString(s[data.json..]);
    value.number := strtod(t);
    if rangeError(t) {
      return PARSE_NUMBER_TOO_BIG;
    }
    data.json := r.end;
    value.tag := KNumber;
    return PARSE_OK;
  }

  /** `parse_value`. */
  method ParseValue(data: JsonData, value: LightValue, strtod: Bytes -> real, rangeError: Bytes -> bool)
    returns (code: int)
    requires data.Valid()
    modifies data, value
    ensures data.Valid()
    ensures LStep(code, data.json, value.tag) ==
      ValueStep(data.text, old(data.json), rangeError, old(value.tag))
    ensures code == PARSE_OK && value.tag == KNumber ==>
      value.number == strtod(CString(data.text[old(data.json)..]))
  {
    match Peek(data.text, data.json)
    case 'n' => code := ParseLiteral(data, value, "null", KNull);
    case 'f' => code := ParseLiteral(data, value, "false", KFalse);
    case 't' => code := ParseLiteral(data, value, "true", KTrue);
    case '\0' => code := PARSE_EXPECT_VALUE;
    case _ => code := ParseNumber(data, value, strtod, rangeError);
  }

  /** `parse(value, json)`. */
  method Parse(value: LightValue, json: Bytes, strtod: Bytes -> real, rangeError: Bytes -> bool)
    returns (ret: int)
    modifies value
    ensures Outcome(ret, value.tag) == LightParse(json, rangeError)
    ensures ret != PARSE_OK ==> value.tag == KNull
    ensures ret == PARSE_OK && value.tag == KNumber ==>
      value.number == strtod(CString(json[SkipWs(json, 0)..]))
  {
    var data := new JsonData(json);
    value.tag := KNull;
    ParseWhitespace(data);
    ret := ParseValue(data, value, strtod, rangeError);
    if ret == PARSE_OK {
      ParseWhitespace(data);
      if Peek(data.text, data.json) != '\0' {
        value.tag := KNull;
        return PARSE_ROOT_NOT_SINGULAR;
      }
    }
  }

  // ---- Agreement with the class draft ----

  /** The tag of this draft that stands for a value of the class draft. */
  predicate SameType(t: LightType, v: JsonValue.Value)
  {
    match v
    case Null => t == KNull
    case Bool(b) => t == if b then KTrue else KFalse
    case Number(_) => t == KNumber
    case _ => false
  }

  /** The code this draft returns for each error of the class draft. */
  function CodeOf(k: Parser.ErrorKind): int
  {
    match k
    case ExpectValue => PARSE_EXPECT_VALUE
    case InvalidValue => PARSE_INVALID_VALUE
    case RootNotSingular => PARSE_ROOT_NOT_SINGULAR
    case NumberTooBig => PARSE_NUMBER_TOO_BIG
  }

  /** When neither draft's range check fires on the value, both drafts accept the same texts,
      agree on the kind of value, and fail with the same kind of error. */
  lemma DraftsAgree(s: Bytes, strtod: Bytes -> real, rangeError: Bytes -> bool)
    requires var t := CString(s[SkipWs(s, 0)..]); !rangeError(t) && Parser.NotAtLimit(strtod, t)
    ensures var l, p := LightParse(s, rangeError), Parser.ParseText(s, strtod);
      (l.code == PARSE_OK <==> p.Ok?) &&
      (p.Ok? ==> SameType(l.tag, p.value)) &&
      (p.Err? ==> l.code == CodeOf(p.error.kind))
  {
    var a := SkipWs(s, 0);
    StepsAgree(s, a, strtod, rangeError);
    ParseOutcome(s, strtod);
    LightParseOutcome(s, rangeError);
  }

  /** The outcome of the C draft's `parse` in terms of its value step. */
  lemma LightParseOutcome(s: Bytes, rangeError: Bytes -> bool)
    ensures var st, l := ValueStep(s, SkipWs(s, 0), rangeError, KNull), LightParse(s, rangeError);
      (st.code != PARSE_OK ==> l.code == st.code) &&
      (st.code == PARSE_OK ==> l.code == (if Peek(s, SkipWs(s, st.next)) != '\0' then PARSE_ROOT_NOT_SINGULAR else PARSE_OK)) &&
      (l.code == PARSE_OK ==> l.tag == st.tag)
  {
  }

  /** The outcome of the C++ draft's `parse` in terms of its value step. */
  lemma ParseOutcome(s: Bytes, strtod: Bytes -> real)
    ensures var pst, p := Parser.ValueStep(s, SkipWs(s, 0), strtod), Parser.ParseText(s, strtod);
      (pst.Fail? ==> p.Err? && p.error.kind == pst.kind) &&
      (pst.Done? ==> if Peek(s, SkipWs(s, pst.next)) != '\0' then p.Err? && p.error.kind == Parser.RootNotSingular
                     else p == Ok(pst.value))
  {
  }

  /** One value step of each draft, from the same cursor: the same outcome and the same end. */
  lemma StepsAgree(s: Bytes, a: nat, strtod: Bytes -> real, rangeError: Bytes -> bool)
    requires a <= |s|
    requires var t := CString(s[a..]); !rangeError(t) && Parser.NotAtLimit(strtod, t)
    ensures var st, pst := ValueStep(s, a, rangeError, KNull), Parser.ValueStep(s, a, strtod);
      (st.code == PARSE_OK <==> pst.Done?) &&
      (pst.Done? ==> st.next == pst.next && SameType(st.tag, pst.value)) &&
      (pst.Fail? ==> st.code == CodeOf(pst.kind))
  {
    match Peek(s, a)
    case 'n' =>
    case 't' =>
    case 'f' =>
    case '\0' =>
    case _ =>
      assert ValueStep(s, a, rangeError, KNull) == NumberStep(s, a, rangeError, KNull);
      assert Parser.ValueStep(s, a, strtod) == Parser.NumberStep(s, a, strtod);
  }
}
