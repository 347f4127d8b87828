/** The byte-level pieces both parser drafts share: whitespace, the literal match and the
    number scanner, each as a function of the input and a cursor, with the grammar of
    section 6 of RFC 8259 stated independently and related to the scanner. */
module Scan {
  import opened Basics

  /** The four insignificant whitespace bytes of section 2 of RFC 8259. */
  predicate IsWs(c: Byte) { c == ' ' || c == '\t' || c == '\n' || c == '\r' }

  predicate AllWs(s: Bytes, i: nat, j: nat)
    requires i <= j <= |s|
  {
    forall k | i <= k < j :: IsWs(s[k])
  }

  /** Where whitespace skipping starting at `i` stops: the end of the maximal whitespace run. */
  function SkipWs(s: Bytes, i: nat): (j: nat)
    requires i <= |s|
    ensures i <= j <= |s|
    ensures AllWs(s, i, j)
    ensures !IsWs(Peek(s, j))
    decreases |s| - i
  {
    if i < |s| && IsWs(s[i]) then SkipWs(s, i + 1) else i
  }

  /** A whitespace run is maximal exactly where it stops. */
  lemma {:induction false} SkipWsAt(s: Bytes, i: nat, j: nat)
    requires i <= j <= |s|
    requires AllWs(s, i, j) && !IsWs(Peek(s, j))
    ensures SkipWs(s, i) == j
    decreases j - i
  {
    if i < j {
      SkipWsAt(s, i + 1, j);
    }
  }

  /** The next bytes from `i` are exactly `lit`. */
  predicate LiteralAt(s: Bytes, i: nat, lit: Bytes)
  {
    i + |lit| <= |s| && s[i..i + |lit|] == lit
  }

  /** Every byte of the literal is found in turn from `i`, reading the terminating NUL past the
      end of the input: `strncmp(curr, literal, |literal|) == 0`, and the byte-by-byte loop of
      `parse_literal`. */
  predicate MatchesAt(s: Bytes, i: nat, lit: Bytes)
  {
    forall k | 0 <= k < |lit| :: Peek(s, i + k) == lit[k]
  }

  /** For a literal without NUL bytes the comparison is an exact match of the next bytes. */
  lemma MatchesAtIsLiteral(s: Bytes, i: nat, lit: Bytes)
    requires i <= |s| && '\0' !in lit
    ensures MatchesAt(s, i, lit) <==> LiteralAt(s, i, lit)
  {
    if MatchesAt(s, i, lit) && |lit| > 0 {
      var last := |lit| - 1;
      assert Peek(s, i + last) == lit[last] && lit[last] in lit;
      forall k | 0 <= k < |lit| ensures s[i..i + |lit|][k] == lit[k] {
        assert Peek(s, i + k) == lit[k];
      }
      assert s[i..i + |lit|] == lit;
    }
    if LiteralAt(s, i, lit) {
      forall k | 0 <= k < |lit| ensures Peek(s, i + k) == lit[k] {
        assert s[i..i + |lit|][k] == s[i + k];
      }
    }
  }

  predicate AllDigits(s: Bytes, i: nat, j: nat)
    requires i <= j <= |s|
  {
    forall k | i <= k < j :: IsDigit(s[k])
  }

  /** End of the maximal digit run starting at `i`. */
  function DigitsEnd(s: Bytes, i: nat): (j: nat)
    requires i <= |s|
    ensures i <= j <= |s|
    ensures AllDigits(s, i, j)
    ensures !IsDigit(Peek(s, j))
    decreases |s| - i
  {
    if i < |s| && IsDigit(s[i]) then DigitsEnd(s, i + 1) else i
  }

  /** A digit run is maximal exactly where it stops. */
  lemma {:induction false} DigitsEndAt(s: Bytes, i: nat, j: nat)
    requires i <= j <= |s|
    requires AllDigits(s, i, j) && !IsDigit(Peek(s, j))
    ensures DigitsEnd(s, i) == j
    decreases j - i
  {
    if i < j {
      DigitsEndAt(s, i + 1, j);
    }
  }

  // ---- The number grammar of section 6 of RFC 8259, on a span s[i..j] ----

  predicate IsExpMark(c: Byte) { c == 'e' || c == 'E' }
  predicate IsSign(c: Byte) { c == '+' || c == '-' }

  /** int = zero / ( digit1-9 *DIGIT ) */
  predicate IntAt(s: Bytes, i: nat, j: nat)
    requires i <= j <= |s|
  {
    (j == i + 1 && s[i] == '0') || (i < j && IsDigit1To9(s[i]) && AllDigits(s, i + 1, j))
  }

  /** [ frac ], frac = decimal-point 1*DIGIT */
  predicate FracAt(s: Bytes, i: nat, j: nat)
    requires i <= j <= |s|
  {
    i == j || (i + 2 <= j && s[i] == '.' && AllDigits(s, i + 1, j))
  }

  /** [ exp ], exp = e [ minus / plus ] 1*DIGIT */
  predicate ExpAt(s: Bytes, i: nat, j: nat)
    requires i <= j <= |s|
  {
    i == j ||
    (i + 2 <= j && IsExpMark(s[i]) &&
     (AllDigits(s, i + 1, j) || (i + 3 <= j && IsSign(s[i + 1]) && AllDigits(s, i + 2, j))))
  }

  predicate UnsignedAt(s: Bytes, i: nat, j: nat)
    requires i <= j <= |s|
  {
    exists b, c | i <= b <= c <= j :: IntAt(s, i, b) && FracAt(s, b, c) && ExpAt(s, c, j)
  }

  /** number = [ minus ] int [ frac ] [ exp ], matched by exactly s[i..j]. */
  predicate NumberAt(s: Bytes, i: nat, j: nat)
  {
    i <= j <= |s| &&
    if i < j && s[i] == '-' then UnsignedAt(s, i + 1, j) else UnsignedAt(s, i, j)
  }

  /** A byte that would make the scanner keep going after a complete number. */
  predicate Continues(c: Byte) { IsDigit(c) || c == '.' || IsExpMark(c) }

  // ---- The scanner shared by `Parser::parseNumber` and `parse_number` ----

  /** Where a scan stopped: just after the number, or at the byte that broke the grammar. */
  datatype Scan = Scanned(end: nat) | Stuck(at: nat)

  predicate ScanWithin(r: Scan, i: nat, n: nat)
  {
    match r
    case Scanned(e) => i <= e <= n
    case Stuck(k) => i <= k <= n
  }

  /** A leading `0` is the whole integer part; otherwise a digit 1-9 and all digits after it. */
  function ScanInt(s: Bytes, i: nat): (r: Scan)
    requires i <= |s|
    ensures ScanWithin(r, i, |s|)
    ensures r.Scanned? ==> IntAt(s, i, r.end)
  {
    if Peek(s, i) == '0' then Scanned(i + 1)
    else if !IsDigit1To9(Peek(s, i)) then Stuck(i)
    else Scanned(DigitsEnd(s, i + 1))
  }

  /** A `.` must be followed by at least one digit. */
  function ScanFrac(s: Bytes, i: nat): (r: Scan)
    requires i <= |s|
    ensures ScanWithin(r, i, |s|)
    ensures r.Scanned? ==> FracAt(s, i, r.end)
  {
    if Peek(s, i) != '.' then Scanned(i)
    else if !IsDigit(Peek(s, i + 1)) then Stuck(i + 1)
    else Scanned(DigitsEnd(s, i + 2))
  }

  /** An `e`/`E`, an optional sign, then at least one digit. */
  function ScanExp(s: Bytes, i: nat): (r: Scan)
    requires i <= |s|
    ensures ScanWithin(r, i, |s|)
    ensures r.Scanned? ==> ExpAt(s, i, r.end)
  {
    if !IsExpMark(Peek(s, i)) then Scanned(i)
    else
      var d := if IsSign(Peek(s, i + 1)) then i + 2 else i + 1;
      if !IsDigit(Peek(s, d)) then Stuck(d)
      else Scanned(DigitsEnd(s, d + 1))
  }

  /** The scan of a number starting at `i`, without backtracking. */
  function ScanNumber(s: Bytes, i: nat): (r: Scan)
    requires i <= |s|
    ensures ScanWithin(r, i, |s|)
  {
    var a := if Peek(s, i) == '-' then i + 1 else i;
    match ScanInt(s, a)
    case Stuck(k) => Stuck(k)
    case Scanned(b) =>
      match ScanFrac(s, b)
      case Stuck(k) => Stuck(k)
      case Scanned(c) => ScanExp(s, c)
  }

  /** Whatever the scanner consumes is a number. */
  lemma NumberScanSound(s: Bytes, i: nat)
    requires i <= |s|
    requires ScanNumber(s, i).Scanned?
    ensures NumberAt(s, i, ScanNumber(s, i).end)
  {
    var a := if Peek(s, i) == '-' then i + 1 else i;
    var b := ScanInt(s, a).end;
    var c := ScanFrac(s, b).end;
    var e := ScanNumber(s, i).end;
    assert IntAt(s, a, b) && FracAt(s, b, c) && ExpAt(s, c, e);
    assert UnsignedAt(s, a, e);
  }

  lemma ScanIntStops(s: Bytes, a: nat, b: nat)
    requires a <= b <= |s| && IntAt(s, a, b) && !IsDigit(Peek(s, b))
    ensures ScanInt(s, a) == Scanned(b)
  {
    if s[a] != '0' {
      DigitsEndAt(s, a + 1, b);
    }
  }

  lemma ScanFracStops(s: Bytes, b: nat, c: nat)
    requires b <= c <= |s| && FracAt(s, b, c) && !IsDigit(Peek(s, c))
    requires b == c ==> Peek(s, b) != '.'
    ensures ScanFrac(s, b) == Scanned(c)
  {
    if b < c {
      DigitsEndAt(s, b + 2, c);
    }
  }

  lemma ScanExpStops(s: Bytes, c: nat, e: nat)
    requires c <= e <= |s| && ExpAt(s, c, e) && !IsDigit(Peek(s, e))
    requires c == e ==> !IsExpMark(Peek(s, c))
    ensures ScanExp(s, c) == Scanned(e)
  {
    if c < e {
      if IsSign(s[c + 1]) {
        DigitsEndAt(s, c + 3, e);
      } else {
        DigitsEndAt(s, c + 2, e);
      }
    }
  }

  /** A number followed by a byte that cannot extend it is consumed exactly. */
  lemma NumberScanComplete(s: Bytes, i: nat, e: nat)
    requires NumberAt(s, i, e) && !Continues(Peek(s, e))
    ensures ScanNumber(s, i) == Scanned(e)
  {
    var a := if i < e && s[i] == '-' then i + 1 else i;
    assert a == if Peek(s, i) == '-' then i + 1 else i;
    var b, c :| a <= b <= c <= e && IntAt(s, a, b) && FracAt(s, b, c) && ExpAt(s, c, e);
    ScanIntStops(s, a, b);
    ScanFracStops(s, b, c);
    ScanExpStops(s, c, e);
  }

  /** The scanner accepts exactly the numbers of the grammar: at every position that cannot
      extend a number, it stops there if and only if the span up to it is a number. */
  lemma NumberScanExact(s: Bytes, i: nat, e: nat)
    requires i <= e <= |s| && !Continues(Peek(s, e))
    ensures ScanNumber(s, i) == Scanned(e) <==> NumberAt(s, i, e)
  {
    if ScanNumber(s, i) == Scanned(e) {
      NumberScanSound(s, i);
    }
    if NumberAt(s, i, e) {
      NumberScanComplete(s, i, e);
    }
  }

  /** A number text starts with a minus sign or a digit. */
  lemma NumberStart(s: Bytes, i: nat, e: nat)
    requires NumberAt(s, i, e)
    ensures i < e && (s[i] == '-' || IsDigit(s[i]))
  {
    var a := if i < e && s[i] == '-' then i + 1 else i;
    var b, c :| a <= b <= c <= e && IntAt(s, a, b) && FracAt(s, b, c) && ExpAt(s, c, e);
  }

  /** A leading zero is a complete integer part: in `0123` only the `0` is consumed. */
  lemma LeadingZeroStops(s: Bytes, i: nat)
    requires i < |s| && s[i] == '0' && IsDigit(Peek(s, i + 1))
    ensures ScanNumber(s, i) == Scanned(i + 1)
  {
  }
}
