/** The class draft of the front end: a parser that owns a cursor into the input and reports
    the first error as an exception carrying a message.  Each operation is stated twice: as a
    step function of the input and the cursor, and as a method of the `Parser` class that
    advances its `curr` field and is proved to land where the step function says. */
module Parser {
  import opened Basics
  import opened Scan
  import opened JsonValue

  /** The messages `Parser::error` is called with. */
  datatype ErrorKind = ExpectValue | InvalidValue | RootNotSingular | NumberTooBig
  {
    function Text(): Bytes
    {
      match this
      case ExpectValue => "Expect value"
      case InvalidValue => "Invalid value"
      case RootNotSingular => "Root not singular"
      case NumberTooBig => "Number too big"
    }
  }

  /** The exception `Parser::error` throws: the kind and the input still unread at the cursor,
      read as a C string. */
  datatype ParseError = ParseError(kind: ErrorKind, rest: Bytes)
  {
    /** `what()`: the kind, `": "`, then the rest of the input. */
    function Message(): Bytes
    {
      kind.Text() + ": " + rest
    }
  }

  function ErrorAt(s: Bytes, kind: ErrorKind, at: nat): ParseError
    requires at <= |s|
  {
    ParseError(kind, CString(s[at..]))
  }

  /** What the error tests read back from a message, `errMsg.substr(0, errMsg.find_first_of(":"))`,
      is the kind's text; the rest of the input follows after `": "`. */
  lemma MessageKindPrefix(e: ParseError)
    ensures PrefixBefore(e.Message(), ':') == e.kind.Text()
    ensures e.Message()[|e.kind.Text()| + 2..] == e.rest
  {
    var t := e.kind.Text();
    assert ':' !in t;
    assert e.Message() == t + (": " + e.rest);
    PrefixBeforeStops(t, ": " + e.rest, ':');
  }

  /** The message alone tells the error: different errors never share a message. */
  lemma MessageDeterminesError(e1: ParseError, e2: ParseError)
    requires e1.Message() == e2.Message()
    ensures e1 == e2
  {
    MessageKindPrefix(e1);
    MessageKindPrefix(e2);
    assert e1.kind.Text() == e2.kind.Text();
  }

  // ---- The limits of a double that `parseNumber` compares against ----

  function Pow2(e: nat): (p: nat)
    ensures p >= 1
  {
    if e == 0 then 1 else 2 * Pow2(e - 1)
  }

  /** `std::numeric_limits<double>::max()`, the largest finite double. */
  const DBL_MAX: real := ((Pow2(53) - 1) * Pow2(971)) as real

  /** `std::numeric_limits<double>::min()`, the smallest positive normal double. */
  const DBL_MIN: real := 1.0 / Pow2(1022) as real

  // ---- One parsing step, as a function of the input and the cursor ----

  /** Where a step leaves the parser: the value and the cursor after it, or the kind of error and
      the cursor at the moment `error` is called. */
  datatype Step = Done(value: Value, next: nat) | Fail(kind: ErrorKind, at: nat)

  predicate StepWithin(st: Step, i: nat, n: nat)
  {
    match st
    case Done(_, j) => i <= j <= n
    case Fail(_, k) => i <= k <= n
  }

  /** A method's outcome together with the cursor it leaves, as a step. */
  function Outcome(r: Result<Value, ErrorKind>, curr: nat): Step
  {
    match r
    case Ok(v) => Done(v, curr)
    case Err(k) => Fail(k, curr)
  }

  /** The value `parseLiteral` builds, chosen by the literal's first byte. */
  function LiteralValue(lit: Bytes): Value
    requires |lit| > 0
  {
    if lit[0] == 't' then Bool(true) else if lit[0] == 'f' then Bool(false) else Null
  }

  /** `parseLiteral`: on a match the cursor moves past the literal; otherwise "Invalid value" is
      raised with the cursor unmoved. */
  function LiteralStep(s: Bytes, i: nat, lit: Bytes): (st: Step)
    requires i <= |s| && |lit| > 0 && '\0' !in lit
    ensures StepWithin(st, i, |s|)
    ensures st.Done? <==> LiteralAt(s, i, lit)
    ensures st.Done? ==> st == Done(LiteralValue(lit), i + |lit|)
    ensures st.Fail? ==> st == Fail(InvalidValue, i)
  {
    MatchesAtIsLiteral(s, i, lit);
    if MatchesAt(s, i, lit) then Done(LiteralValue(lit), i + |lit|) else Fail(InvalidValue, i)
  }

  /** `parseNumber`: scan the number text; a scan error raises "Invalid value" at the byte that
      broke the grammar; otherwise `strtod` converts the input from the number's first byte, a
      result equal to either limit of a double raises "Number too big" after the number, and
      anything else is the parsed Number. */
  function NumberStep(s: Bytes, i: nat, strtod: Bytes -> real): (st: Step)
    requires i <= |s|
    ensures StepWithin(st, i, |s|)
    ensures st.Done? <==>
      ScanNumber(s, i).Scanned? && strtod(CString(s[i..])) != DBL_MAX && strtod(CString(s[i..])) != DBL_MIN
    ensures st.Done? ==> st == Done(Number(strtod(CString(s[i..]))), ScanNumber(s, i).end)
    ensures st.Fail? && ScanNumber(s, i).Stuck? ==> st == Fail(InvalidValue, ScanNumber(s, i).at)
    ensures st.Fail? && ScanNumber(s, i).Scanned? ==> st == Fail(NumberTooBig, ScanNumber(s, i).end)
  {
    match ScanNumber(s, i)
    case Stuck(k) => Fail(InvalidValue, k)
    case Scanned(e) =>
      var val := strtod(CString(s[i..]));
      if val == DBL_MAX || val == DBL_MIN then Fail(NumberTooBig, e) else Done(Number(val), e)
  }

  /** `parseValue`: dispatch on the byte at the cursor. */
  function ValueStep(s: Bytes, i: nat, strtod: Bytes -> real): (st: Step)
    requires i <= |s|
    ensures StepWithin(st, i, |s|)
  {
    match Peek(s, i)
    case 'n' => LiteralStep(s, i, "null")
    case 't' => LiteralStep(s, i, "true")
    case 'f' => LiteralStep(s, i, "false")
    case '\0' => Fail(ExpectValue, i)
    case _ => NumberStep(s, i, strtod)
  }

  /** The dispatch fails with "Expect value" exactly when the cursor is at the end of the C string,
      and then reports the cursor itself. */
  lemma ValueStepExpectsValue(s: Bytes, i: nat, strtod: Bytes -> real)
    requires i <= |s|
    ensures ValueStep(s, i, strtod).Fail? && ValueStep(s, i, strtod).kind == ExpectValue <==> Peek(s, i) == '\0'
    ensures Peek(s, i) == '\0' ==> ValueStep(s, i, strtod) == Fail(ExpectValue, i)
  {
  }

  /** `parse` from cursor `i`: whitespace, one value, whitespace, then the end of the input. */
  function ParseFrom(s: Bytes, i: nat, strtod: Bytes -> real): Result<Value, ParseError>
    requires i <= |s|
  {
    var a := SkipWs(s, i);
    match ValueStep(s, a, strtod)
    case Fail(k, at) => Err(ErrorAt(s, k, at))
    case Done(v, j) =>
      var b := SkipWs(s, j);
      if Peek(s, b) != '\0' then Err(ErrorAt(s, RootNotSingular, b)) else Ok(v)
  }

  /** A parser constructed on `data` parses from its first byte. */
  function ParseText(data: Bytes, strtod: Bytes -> real): Result<Value, ParseError>
  {
    ParseFrom(data, 0, strtod)
  }

  // ---- The class ----

  class Parser {
    /** The bytes `data.c_str()` points at. */
    const input: Bytes
    /** The C library's `strtod`, applied to the C string at the start of a number. */
    const strtod: Bytes -> real
    /** `curr_`, as an offset into `input`. */
    var curr: nat

    predicate Valid()
      reads this
    {
      curr <= |input|
    }

    constructor(data: Bytes, strtod: Bytes -> real)
      ensures input == data && this.strtod == strtod && curr == 0 && Valid()
    {
      input := data;
      this.strtod := strtod;
      curr := 0;
    }

    /** `parseWhiteSpace`: advance over whitespace one byte at a time. */
    method ParseWhiteSpace()
      requires Valid()
      modifies this
      ensures Valid() && curr == SkipWs(input, old(curr))
    {
      ghost var start := curr;
      while IsWs(Peek(input, curr))
        invariant start <= curr <= |input|
        invariant SkipWs(input, start) == SkipWs(input, curr)
        decreases |input| - curr
      {
        curr := curr + 1;
      }
    }

    /** `while (isDigit(++curr_));`: step over the byte at the cursor, then over digits. */
    method SkipDigitsAfter()
      requires curr < |input|
      modifies this
      ensures Valid() && curr == DigitsEnd(input, old(curr) + 1)
    {
      curr := curr + 1;
      ghost var start := curr;
      while IsDigit(Peek(input, curr))
        invariant start <= curr <= |input|
        invariant DigitsEnd(input, start) == DigitsEnd(input, curr)
        decreases |input| - curr
      {
        curr := curr + 1;
      }
    }

    method ParseLiteral(lit: Bytes) returns (r: Result<Value, ErrorKind>)
      requires Valid() && |lit| > 0 && '\0' !in lit
      modifies this
      ensures Valid() && Outcome(r, curr) == LiteralStep(input, old(curr), lit)
    {
      if !MatchesAt(input, curr, lit) {
        return Err(InvalidValue);
      }
      MatchesAtIsLiteral(input, curr, lit);
      curr := curr + |lit|;
      if lit[0] == 't' {
        return Ok(Bool(true));
      }
      if lit[0] == 'f' {
        return Ok(Bool(false));
      }
      return Ok(Null);
    }

    /** The integer part of `parseNumber`: one `0`, or a digit 1-9 and the digits after it. */
    method ParseIntegerPart() returns (ok: bool)
      requires Valid()
      modifies this
      ensures Valid() && (if ok then Scanned(curr) else Stuck(curr)) == ScanInt(input, old(curr))
    {
      if Peek(input, curr) == '0' {
        curr := curr + 1;
      } else {
        if !IsDigit1To9(Peek(input, curr)) {
          return false;
        }
        SkipDigitsAfter();
      }
      return true;
    }

    /** The optional fraction: a `.` must be followed by a digit. */
    method ParseFractionPart() returns (ok: bool)
      requires Valid()
      modifies this
      ensures Valid() && (if ok then Scanned(curr) else Stuck(curr)) == ScanFrac(input, old(curr))
    {
      if Peek(input, curr) == '.' {
        curr := curr + 1;
        if !IsDigit(Peek(input, curr)) {
          return false;
        }
        SkipDigitsAfter();
      }
      return true;
    }

    /** The optional exponent: `e` or `E`, an optional sign, then a digit. */
    method ParseExponentPart() returns (ok: bool)
      requires Valid()
      modifies this
      ensures Valid() && (if ok then Scanned(curr) else Stuck(curr)) == ScanExp(input, old(curr))
    {
      if Peek(input, curr) == 'e' || Peek(input, curr) == 'E' {
        curr := curr + 1;
        if Peek(input, curr) == '+' || Peek(input, curr) == '-' {
          curr := curr + 1;
        }
        if !IsDigit(Peek(input, curr)) {
          return false;
        }
        SkipDigitsAfter();
      }
      return true;
    }

    method ParseNumber() returns (r: Result<Value, ErrorKind>)
      requires Valid()
      modifies this
      ensures Valid() && Outcome(r, curr) == NumberStep(input, old(curr), strtod)
    {
      var start := curr;
      if Peek(input, curr) == '-' {
        curr := curr + 1;
      }
      var ok := ParseIntegerPart();
      if !ok {
        return Err(InvalidValue);
      }
      ok := ParseFractionPart();
      if !ok {
        return Err(InvalidValue);
      }
      ok := ParseExponentPart();
      if !ok {
        return Err(InvalidValue);
      }
      var val := strtod(CString(input[start..]));
      if val == DBL_MAX || val == DBL_MIN {
        return Err(NumberTooBig);
      }
      return Ok(Number(val));
    }

    method ParseValue() returns (r: Result<Value, ErrorKind>)
      requires Valid()
      modifies this
      ensures Valid() && Outcome(r, curr) == ValueStep(input, old(curr), strtod)
    {
      match Peek(input, curr)
      case 'n' => r := ParseLiteral("null");
      case 't' => r := ParseLiteral("true");
      case 'f' => r := ParseLiteral("false");
      case '\0' => r := Err(ExpectValue);
      case _ => r := ParseNumber();
    }

    /** `error(msg)`: the exception built from the cursor. */
    function Error(kind: ErrorKind): ParseError
      requires Valid()
      reads this
    {
      ErrorAt(input, kind, curr)
    }

    /** `parse`: the first error ends the parse, as the exception does. */
    method Parse() returns (r: Result<Value, ParseError>)
      requires Valid()
      modifies this
      ensures r == ParseFrom(input, old(curr), strtod)
    {
      ParseWhiteSpace();
      var v := ParseValue();
      if v.Err? {
        return Err(Error(v.error));
      }
      ParseWhiteSpace();
      if Peek(input, curr) != '\0' {
        return Err(Error(RootNotSingular));
      }
      return Ok(v.value);
    }
  }

  // ---- What the parser accepts ----

  /** A value these drafts know: one of the three literals or a number. */
  predicate TokenAt(s: Bytes, a: nat, b: nat)
  {
    a <= b <= |s| && (s[a..b] == "null" || s[a..b] == "true" || s[a..b] == "false" || NumberAt(s, a, b))
  }

  /** JSON-text = ws value ws (section 2 of RFC 8259), over the values these drafts know. */
  predicate JsonTextAt(s: Bytes)
  {
    exists a, b | 0 <= a <= b <= |s| :: AllWs(s, 0, a) && TokenAt(s, a, b) && AllWs(s, b, |s|)
  }

  /** `strtod`'s result on `t` is neither limit of a double, so no "Number too big" is raised. */
  predicate NotAtLimit(strtod: Bytes -> real, t: Bytes)
  {
    strtod(t) != DBL_MAX && strtod(t) != DBL_MIN
  }

  lemma ParseSound(s: Bytes, strtod: Bytes -> real)
    requires '\0' !in s
    requires ParseText(s, strtod).Ok?
    ensures JsonTextAt(s)
  {
    var a := SkipWs(s, 0);
    var j := ValueStep(s, a, strtod).next;
    assert Peek(s, SkipWs(s, j)) == '\0';
    if Peek(s, a) !in {'n', 't', 'f'} {
      NumberScanSound(s, a);
    }
    assert TokenAt(s, a, j);
  }

  /** A literal or number, followed by a byte that cannot extend it, is one value step. */
  lemma TokenStep(s: Bytes, a: nat, b: nat, strtod: Bytes -> real)
    requires TokenAt(s, a, b) && !Continues(Peek(s, b))
    ensures ValueStep(s, a, strtod).Done? ==> ValueStep(s, a, strtod).next == b
    ensures ValueStep(s, a, strtod).Fail? ==> ValueStep(s, a, strtod).kind == NumberTooBig
  {
    var lit := s[a..b];
    if lit == "null" || lit == "true" || lit == "false" {
      assert s[a] == lit[0];
      assert LiteralAt(s, a, lit);
    } else {
      NumberStart(s, a, b);
      NumberScanComplete(s, a, b);
    }
  }

  lemma ParseComplete(s: Bytes, strtod: Bytes -> real)
    requires JsonTextAt(s)
    ensures ParseText(s, strtod).Ok? || ParseText(s, strtod).error.kind == NumberTooBig
  {
    var a, b :| 0 <= a <= b <= |s| && AllWs(s, 0, a) && TokenAt(s, a, b) && AllWs(s, b, |s|);
    assert !Continues(Peek(s, b)) by {
      if b < |s| {
        assert IsWs(s[b]);
      }
    }
    assert !IsWs(Peek(s, a)) by {
      if s[a..b] == "null" || s[a..b] == "true" || s[a..b] == "false" {
        assert s[a] == s[a..b][0];
      } else {
        NumberStart(s, a, b);
      }
    }
    SkipWsAt(s, 0, a);
    SkipWsAt(s, b, |s|);
    TokenStep(s, a, b, strtod);
  }

  /** For input without embedded NUL bytes, the parse succeeds exactly on whitespace, one literal
      or number, and whitespace, except that a number whose conversion hits a limit of a double
      is refused as "Number too big". */
  lemma ParseAcceptsExactly(s: Bytes, strtod: Bytes -> real)
    requires '\0' !in s
    ensures ParseText(s, strtod).Ok? ==> JsonTextAt(s)
    ensures JsonTextAt(s) ==> ParseText(s, strtod).Ok? || ParseText(s, strtod).error.kind == NumberTooBig
  {
    if ParseText(s, strtod).Ok? {
      ParseSound(s, strtod);
    }
    if JsonTextAt(s) {
      ParseComplete(s, strtod);
    }
  }

  /** "Expect value" is raised exactly when nothing but whitespace precedes the end of the C
      string, and then nothing is left to report. */
  lemma ExpectValueExactly(s: Bytes, strtod: Bytes -> real)
    ensures ParseText(s, strtod).Err? && ParseText(s, strtod).error.kind == ExpectValue
      <==> Peek(s, SkipWs(s, 0)) == '\0'
    ensures Peek(s, SkipWs(s, 0)) == '\0' ==> ParseText(s, strtod) == Err(ParseError(ExpectValue, []))
  {
    var a := SkipWs(s, 0);
    ValueStepExpectsValue(s, a, strtod);
    if Peek(s, a) == '\0' {
      assert CString(s[a..]) == [] by {
        if a < |s| {
          assert s[a..][0] == '\0';
        }
      }
    }
  }

  /** A number that the following byte cannot extend, and whose conversion is not at a limit,
      is one successful value step ending after it. */
  lemma NumberStepDone(s: Bytes, a: nat, b: nat, strtod: Bytes -> real)
    requires a <= b <= |s| && NumberAt(s, a, b) && !Continues(Peek(s, b))
    requires NotAtLimit(strtod, CString(s[a..]))
    ensures ValueStep(s, a, strtod) == NumberStep(s, a, strtod)
    ensures NumberStep(s, a, strtod).Done? && NumberStep(s, a, strtod).next == b
    ensures !IsWs(Peek(s, a))
  {
    NumberStart(s, a, b);
    NumberDispatch(s, a, strtod);
    NumberScanComplete(s, a, b);
  }

  /** A minus sign or a digit at the cursor is dispatched to the number step. */
  lemma NumberDispatch(s: Bytes, a: nat, strtod: Bytes -> real)
    requires a < |s| && (s[a] == '-' || IsDigit(s[a]))
    ensures ValueStep(s, a, strtod) == NumberStep(s, a, strtod)
    ensures !IsWs(Peek(s, a))
  {
    assert Peek(s, a) == s[a];
  }

  /** A literal or number that the following byte cannot extend, and whose conversion is not at
      a limit, is one successful value step ending after it. */
  lemma TokenStepDone(s: Bytes, a: nat, b: nat, strtod: Bytes -> real)
    requires TokenAt(s, a, b) && !Continues(Peek(s, b))
    requires NotAtLimit(strtod, CString(s[a..]))
    ensures ValueStep(s, a, strtod).Done? && ValueStep(s, a, strtod).next == b
    ensures !IsWs(Peek(s, a))
  {
    var lit := s[a..b];
    if lit == "null" || lit == "true" || lit == "false" {
      assert LiteralAt(s, a, lit);
      LiteralDispatch(s, a, lit, strtod);
    } else {
      NumberStepDone(s, a, b, strtod);
    }
  }

  /** A literal at the cursor is dispatched to the literal step, which then succeeds. */
  lemma LiteralDispatch(s: Bytes, a: nat, lit: Bytes, strtod: Bytes -> real)
    requires lit == "null" || lit == "true" || lit == "false"
    requires a <= |s| && LiteralAt(s, a, lit)
    ensures ValueStep(s, a, strtod) == LiteralStep(s, a, lit)
    ensures !IsWs(Peek(s, a))
  {
    assert Peek(s, a) == lit[0];
  }

  /** A literal or number that the following byte cannot extend, followed by whitespace and then
      anything before the end of the C string, makes the root not singular, reported at the first
      byte after that whitespace. */
  lemma TrailingBytesNotSingular(s: Bytes, a: nat, b: nat, strtod: Bytes -> real)
    requires TokenAt(s, a, b) && AllWs(s, 0, a) && !Continues(Peek(s, b))
    requires NotAtLimit(strtod, CString(s[a..]))
    requires Peek(s, SkipWs(s, b)) != '\0'
    ensures ParseText(s, strtod) == Err(ErrorAt(s, RootNotSingular, SkipWs(s, b)))
  {
    TokenStepDone(s, a, b, strtod);
    SkipWsAt(s, 0, a);
  }

  /** A byte that starts no value, at the start of the input, is an invalid value, and the
      message repeats the whole input. */
  lemma BadStartIsInvalid(s: Bytes, strtod: Bytes -> real)
    requires '\0' !in s && |s| > 0
    requires !IsWs(s[0]) && s[0] !in {'n', 't', 'f', '-'} && !IsDigit(s[0])
    ensures ParseText(s, strtod) == Err(ParseError(InvalidValue, s))
  {
    assert SkipWs(s, 0) == 0;
    assert ScanNumber(s, 0) == Stuck(0);
  }

  /** A literal that does not match is an invalid value reported at its first byte. */
  lemma BrokenLiteralIsInvalid(s: Bytes, strtod: Bytes -> real)
    requires '\0' !in s && |s| > 0 && s[0] in {'n', 't', 'f'}
    requires !LiteralAt(s, 0, "null") && !LiteralAt(s, 0, "true") && !LiteralAt(s, 0, "false")
    ensures ParseText(s, strtod) == Err(ParseError(InvalidValue, s))
  {
    assert SkipWs(s, 0) == 0;
  }

  /** The invalid literals of the error tests. */
  lemma InvalidLiteralExamples(strtod: Bytes -> real)
    ensures ParseText("nul", strtod) == Err(ParseError(InvalidValue, "nul"))
    ensures ParseText("nan", strtod) == Err(ParseError(InvalidValue, "nan"))
  {
    BrokenLiteralIsInvalid("nul", strtod);
    BrokenLiteralIsInvalid("nan", strtod);
  }

  /** A plus sign does not start a JSON number. */
  lemma InvalidSignExamples(strtod: Bytes -> real)
    ensures ParseText("+0", strtod) == Err(ParseError(InvalidValue, "+0"))
    ensures ParseText("+1", strtod) == Err(ParseError(InvalidValue, "+1"))
  {
    BadStartIsInvalid("+0", strtod);
    BadStartIsInvalid("+1", strtod);
  }

  /** Neither a stray symbol nor a decimal point starts a value. */
  lemma InvalidStartExamples(strtod: Bytes -> real)
    ensures ParseText("?", strtod) == Err(ParseError(InvalidValue, "?"))
    ensures ParseText(".123", strtod) == Err(ParseError(InvalidValue, ".123"))
  {
    BadStartIsInvalid("?", strtod);
    BadStartIsInvalid(".123", strtod);
  }

  /** Infinity is not a JSON number, in either case. */
  lemma InvalidInfinityExamples(strtod: Bytes -> real)
    ensures ParseText("inf", strtod) == Err(ParseError(InvalidValue, "inf"))
    ensures ParseText("INF", strtod) == Err(ParseError(InvalidValue, "INF"))
  {
    BadStartIsInvalid("inf", strtod);
    BadStartIsInvalid("INF", strtod);
  }

  /** Not-a-number in capitals is not a JSON value either. */
  lemma InvalidNanExample(strtod: Bytes -> real)
    ensures ParseText("NAN", strtod) == Err(ParseError(InvalidValue, "NAN"))
  {
    BadStartIsInvalid("NAN", strtod);
  }

  /** A `.` must be followed by a digit: `1.` fails at the end of the input. */
  lemma MissingFractionExample(strtod: Bytes -> real)
    ensures ParseText("1.", strtod) == Err(ParseError(InvalidValue, ""))
  {
    assert ScanNumber("1.", 0) == Stuck(2);
  }

  /** A leading `0` followed by a byte that is neither whitespace nor part of a number: the
      number ends after the `0` and the rest makes the root not singular. */
  lemma LeadingZeroNotSingular(s: Bytes, strtod: Bytes -> real)
    requires '\0' !in s && |s| > 1 && s[0] == '0' && !IsWs(s[1]) && s[1] != '.' && !IsExpMark(s[1])
    requires NotAtLimit(strtod, s)
    ensures ParseText(s, strtod) == Err(ParseError(RootNotSingular, s[1..]))
  {
    assert s[0..] == s;
    NumberDispatch(s, 0, strtod);
    assert SkipWs(s, 0) == 0;
    assert ScanNumber(s, 0) == Scanned(1);
    assert ValueStep(s, 0, strtod) == Done(Number(strtod(s)), 1);
    assert SkipWs(s, 1) == 1;
    assert CString(s[1..]) == s[1..];
  }

  /** A literal followed by more than whitespace. */
  lemma TrailingWordExample(strtod: Bytes -> real)
    ensures ParseText("null x", strtod) == Err(ParseError(RootNotSingular, "x"))
  {
    var s: Bytes := "null x";
    assert SkipWs(s, 0) == 0 && LiteralAt(s, 0, "null") && SkipWs(s, 4) == 5;
    assert s[5..] == "x";
  }

  /** `0123` and `0x...` stop after the `0`, and the rest makes the root not singular. */
  lemma LeadingZeroDigitsExample(strtod: Bytes -> real)
    requires NotAtLimit(strtod, "0123")
    ensures ParseText("0123", strtod) == Err(ParseError(RootNotSingular, "123"))
  {
    LeadingZeroExample("0123", "123", strtod);
  }

  lemma LeadingZeroHexExample(strtod: Bytes -> real)
    requires NotAtLimit(strtod, "0x0")
    ensures ParseText("0x0", strtod) == Err(ParseError(RootNotSingular, "x0"))
  {
    LeadingZeroExample("0x0", "x0", strtod);
  }

  lemma LeadingZeroLongHexExample(strtod: Bytes -> real)
    requires NotAtLimit(strtod, "0x123")
    ensures ParseText("0x123", strtod) == Err(ParseError(RootNotSingular, "x123"))
  {
    LeadingZeroExample("0x123", "x123", strtod);
  }

  /** One leading-zero input, with the rest it reports. */
  lemma LeadingZeroExample(s: Bytes, rest: Bytes, strtod: Bytes -> real)
    requires s == "0" + rest && |rest| > 0 && '\0' !in rest
    requires IsDigit(rest[0]) || rest[0] == 'x'
    requires NotAtLimit(strtod, s)
    ensures ParseText(s, strtod) == Err(ParseError(RootNotSingular, rest))
  {
    assert s[1..] == rest;
    assert '\0' !in s by {
      assert forall k | 0 <= k < |s| :: s[k] == if k == 0 then '0' else rest[k - 1];
    }
    LeadingZeroNotSingular(s, strtod);
  }

  /** Nothing but whitespace where a value is expected. */
  lemma ExpectValueExamples(strtod: Bytes -> real)
    ensures ParseText("", strtod) == Err(ParseError(ExpectValue, ""))
    ensures ParseText(" \t\r\n", strtod) == Err(ParseError(ExpectValue, ""))
  {
  }

  /** A literal after the leading whitespace, with nothing but whitespace before the end of the
      C string, parses to the literal's value. */
  lemma LiteralTextParses(s: Bytes, a: nat, lit: Bytes, strtod: Bytes -> real)
    requires lit == "null" || lit == "true" || lit == "false"
    requires a <= |s| && SkipWs(s, 0) == a && LiteralAt(s, a, lit)
    requires Peek(s, SkipWs(s, a + |lit|)) == '\0'
    ensures ParseText(s, strtod) == Ok(LiteralValue(lit))
  {
    assert Peek(s, a) == lit[0];
  }

  /** Literals parse, alone or surrounded by whitespace. */
  lemma LiteralExamples(strtod: Bytes -> real)
    ensures ParseText("null", strtod) == Ok(Null)
    ensures ParseText("   null\n\r\t", strtod) == Ok(Null)
    ensures ParseText("true", strtod) == Ok(Bool(true))
  {
    assert SkipWs("null", 4) == 4;
    LiteralTextParses("null", 0, "null", strtod);
    assert SkipWs("   null\n\r\t", 0) == 3 && SkipWs("   null\n\r\t", 7) == 10;
    LiteralTextParses("   null\n\r\t", 3, "null", strtod);
    assert SkipWs("true", 4) == 4;
    LiteralTextParses("true", 0, "true", strtod);
  }

  /** `false` parses, and an embedded NUL ends the input. */
  lemma MoreLiteralExamples(strtod: Bytes -> real)
    ensures ParseText("false", strtod) == Ok(Bool(false))
    ensures ParseText("null\0x", strtod) == Ok(Null)
  {
    assert SkipWs("false", 5) == 5;
    LiteralTextParses("false", 0, "false", strtod);
    assert SkipWs("null\0x", 4) == 4;
    LiteralTextParses("null\0x", 0, "null", strtod);
  }

  /** An input that is exactly one number parses to what `strtod` makes of it, unless that is a
      limit of a double. */
  lemma WholeNumberParses(s: Bytes, strtod: Bytes -> real)
    requires '\0' !in s && NumberAt(s, 0, |s|) && NotAtLimit(strtod, s)
    ensures ParseText(s, strtod) == Ok(Number(strtod(s)))
  {
    assert s[0..] == s;
    NumberStepDone(s, 0, |s|, strtod);
    assert SkipWs(s, 0) == 0;
    assert SkipWs(s, |s|) == |s|;
  }

  /** The other side of the limit check: a whole number whose conversion equals a limit of a
      double, the largest finite or the smallest normal one, is refused as "Number too big" after
      the last digit, although it is in range. */
  lemma WholeNumberAtLimit(s: Bytes, strtod: Bytes -> real)
    requires '\0' !in s && NumberAt(s, 0, |s|) && (strtod(s) == DBL_MAX || strtod(s) == DBL_MIN)
    ensures ParseText(s, strtod) == Err(ParseError(NumberTooBig, []))
  {
    assert s[0..] == s;
    NumberStart(s, 0, |s|);
    NumberDispatch(s, 0, strtod);
    assert SkipWs(s, 0) == 0;
    NumberScanComplete(s, 0, |s|);
    assert NumberStep(s, 0, strtod) == Fail(NumberTooBig, |s|);
    assert CString(s[|s|..]) == [];
  }

  /** `-0`: a minus sign and a zero integer part. */
  lemma NegativeZeroExample(strtod: Bytes -> real)
    requires NotAtLimit(strtod, "-0")
    ensures ParseText("-0", strtod) == Ok(Number(strtod("-0")))
  {
    var s: Bytes := "-0";
    assert IntAt(s, 1, 2) && FracAt(s, 2, 2) && ExpAt(s, 2, 2);
    assert UnsignedAt(s, 1, 2);
    WholeNumberParses(s, strtod);
  }

  /** `-1.5`: a fraction. */
  lemma FractionExample(strtod: Bytes -> real)
    requires NotAtLimit(strtod, "-1.5")
    ensures ParseText("-1.5", strtod) == Ok(Number(strtod("-1.5")))
  {
    var s: Bytes := "-1.5";
    FractionGrammar(s);
    WholeNumberParses(s, strtod);
  }

  /** `-1.5` is a number of the grammar: a minus sign, integer part `1` and fraction `.5`. */
  lemma FractionGrammar(s: Bytes)
    requires s == "-1.5"
    ensures '\0' !in s && NumberAt(s, 0, |s|)
  {
    assert IntAt(s, 1, 2) && FracAt(s, 2, 4) && ExpAt(s, 4, 4);
    assert UnsignedAt(s, 1, 4);
  }

  /** `1.234E-10`: a fraction and a signed exponent. */
  lemma ExponentExample(strtod: Bytes -> real)
    requires NotAtLimit(strtod, "1.234E-10")
    ensures ParseText("1.234E-10", strtod) == Ok(Number(strtod("1.234E-10")))
  {
    var s: Bytes := "1.234E-10";
    ExponentGrammar(s);
    WholeNumberParses(s, strtod);
  }

  /** `1.234E-10` is a number of the grammar: integer part `1`, fraction `.234`, exponent `E-10`. */
  lemma ExponentGrammar(s: Bytes)
    requires s == "1.234E-10"
    ensures '\0' !in s && NumberAt(s, 0, |s|)
  {
    assert IntAt(s, 0, 1);
    assert FracAt(s, 1, 5) by {
      assert AllDigits(s, 2, 5);
    }
    assert ExpAt(s, 5, 9) by {
      assert IsSign(s[6]) && AllDigits(s, 7, 9);
    }
    assert UnsignedAt(s, 0, 9);
  }
}
