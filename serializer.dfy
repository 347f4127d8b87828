/** `Json::serialize` and its helpers: a recursive walk that writes literals, escaped strings and
    `", "`-separated containers.  The string escapes follow section 7 of RFC 8259. */
module Serializer {
  import opened Basics
  import opened JsonValue

  /** What the serializer takes from the platform: the iteration order of an `unordered_map`
      (a listing of its keys, each once) and the `"%.17g"` rendering of a double. */
  datatype Runtime = Runtime(keyOrder: map<Bytes, Value> -> seq<Bytes>, formatNumber: real -> Bytes)
  {
    ghost predicate Valid()
    {
      forall m :: IsKeyOrder(keyOrder(m), m)
    }
  }

  /** `ks` lists every key of `m` exactly once. */
  predicate IsKeyOrder(ks: seq<Bytes>, m: map<Bytes, Value>)
  {
    (forall i, j | 0 <= i < j < |ks| :: ks[i] != ks[j]) &&
    (forall k | k in ks :: k in m) && (forall k | k in m :: k in ks)
  }

  const BACKSPACE: Byte := 8 as char
  const FORMFEED: Byte := 12 as char

  /** A byte that cannot stand for itself inside a JSON string. */
  predicate NeedsEscape(c: Byte)
  {
    c == '"' || c == '\\' || (c as int) < 0x20
  }

  function HexDigit(d: nat): Byte
    requires d < 16
  {
    if d < 10 then ('0' as int + d) as char else ('a' as int + d - 10) as char
  }

  function DecimalDigit(d: nat): Byte
    requires d < 10
  {
    ('0' as int + d) as char
  }

  /** The bytes written as a two-character escape. */
  predicate HasShortEscape(c: Byte)
  {
    c == '"' || c == '\\' || c == BACKSPACE || c == FORMFEED || c == '\n' || c == '\r' || c == '\t'
  }

  /** The escape of one byte: the two-character escapes for `"`, `\`, backspace, form feed,
      newline, carriage return and tab; `\u00XX` in hexadecimal for any other control byte;
      every other byte, `/` and 0x80-0xFF included, unchanged. */
  function EscapeByte(c: Byte): (t: Bytes)
    ensures t == [c] <==> !NeedsEscape(c)
    ensures NeedsEscape(c) ==> |t| >= 2 && t[0] == '\\'
    ensures |t| == 2 <==> HasShortEscape(c)
    ensures |t| == 2 ==> ShortEscape(t[1]) == Some(c)
    ensures NeedsEscape(c) && !HasShortEscape(c) ==>
              t == "\\u00" + [HexDigit(c as int / 16), HexDigit(c as int % 16)]
  {
    if c == '"' then "\\\""
    else if c == '\\' then "\\\\"
    else if c == BACKSPACE then "\\b"
    else if c == FORMFEED then "\\f"
    else if c == '\n' then "\\n"
    else if c == '\r' then "\\r"
    else if c == '\t' then "\\t"
    else if (c as int) < 0x20 then "\\u00" + [HexDigit(c as int / 16), HexDigit(c as int % 16)]
    else [c]
  }

  /** The control bytes the source renders wrongly: those whose code is 10 or more and that have
      no two-character escape. */
  predicate Misrendered(c: Byte)
  {
    c as int == 11 || 14 <= c as int < 0x20
  }

  /** The escape of one byte as the source writes it: a control byte without a two-character
      escape is printed through a stream without `std::hex`, so its code appears in DECIMAL,
      zero-padded to four digits.  It agrees with the hexadecimal escape exactly on the bytes
      that are not misrendered. */
  function EscapeByteAsWritten(c: Byte): (t: Bytes)
    ensures t == EscapeByte(c) <==> !Misrendered(c)
  {
    if c == '"' then "\\\""
    else if c == '\\' then "\\\\"
    else if c == BACKSPACE then "\\b"
    else if c == FORMFEED then "\\f"
    else if c == '\n' then "\\n"
    else if c == '\r' then "\\r"
    else if c == '\t' then "\\t"
    else if (c as int) < 0x20 then
      var v := c as int;
      var decimal: Bytes := "\\u00" + [DecimalDigit(v / 10), DecimalDigit(v % 10)];
      var hex := EscapeByte(c);
      assert v < 10 ==> decimal == hex;
      assert 10 <= v < 16 ==> decimal[4] == '1' && hex[4] == '0';
      assert 16 <= v < 20 ==> decimal[5] == DecimalDigit(v - 10) && hex[5] == HexDigit(v - 16);
      assert 20 <= v ==> decimal[4] != '1' && hex[4] == '1';
      decimal
    else [c]
  }

  /** The escaped body of a string: each byte escaped in turn. */
  function EscapeBody(s: Bytes): Bytes
  {
    if s == [] then [] else EscapeByte(s[0]) + EscapeBody(s[1..])
  }

  /** A string value: its escaped body between double quotes. */
  function StringText(s: Bytes): Bytes
  {
    "\"" + EscapeBody(s) + "\""
  }

  lemma {:induction false} EscapeBodyAppend(a: Bytes, b: Bytes)
    ensures EscapeBody(a + b) == EscapeBody(a) + EscapeBody(b)
    decreases |a|
  {
    if a == [] {
      assert a + b == b;
    } else {
      assert (a + b)[1..] == a[1..] + b;
      EscapeBodyAppend(a[1..], b);
    }
  }

  /** Bytes that need no escape are copied unchanged: the body of such a string is the string. */
  lemma {:induction false} EscapeBodyIdentity(s: Bytes)
    requires forall i | 0 <= i < |s| :: !NeedsEscape(s[i])
    ensures EscapeBody(s) == s
  {
    if s != [] {
      EscapeBodyIdentity(s[1..]);
    }
  }

  /** The escaped body of a string as the source writes it: each byte through the decimal
      escape. */
  function EscapeBodyAsWritten(s: Bytes): Bytes
  {
    if s == [] then [] else EscapeByteAsWritten(s[0]) + EscapeBodyAsWritten(s[1..])
  }

  /** A string value as the source writes it. */
  function StringTextAsWritten(s: Bytes): Bytes
  {
    "\"" + EscapeBodyAsWritten(s) + "\""
  }

  /** The decimal and hexadecimal escapes of a byte have the same length. */
  lemma EscapeLengthsAgree(c: Byte)
    ensures |EscapeByteAsWritten(c)| == |EscapeByte(c)|
  {
  }

  /** The source's escaped body equals the hexadecimal one exactly when no byte of the string is
      misrendered. */
  lemma {:induction false} AsWrittenBodyAgrees(s: Bytes)
    ensures EscapeBodyAsWritten(s) == EscapeBody(s) <==> forall i | 0 <= i < |s| :: !Misrendered(s[i])
  {
    if s != [] {
      AsWrittenBodyAgrees(s[1..]);
      var x, y := EscapeByteAsWritten(s[0]), EscapeBodyAsWritten(s[1..]);
      var x', y' := EscapeByte(s[0]), EscapeBody(s[1..]);
      EscapeLengthsAgree(s[0]);
      if x + y == x' + y' {
        assert (x + y)[..|x|] == x && (x' + y')[..|x'|] == x';
        assert (x + y)[|x|..] == y && (x' + y')[|x'|..] == y';
      }
      if forall i | 0 <= i < |s| :: !Misrendered(s[i]) {
        assert forall i | 0 <= i < |s[1..]| :: !Misrendered(s[1..][i]) by {
          forall i | 0 <= i < |s[1..]|
            ensures !Misrendered(s[1..][i])
          {
            assert s[1..][i] == s[i + 1];
          }
        }
      } else {
        var k :| 0 <= k < |s| && Misrendered(s[k]);
        if k > 0 {
          assert s[1..][k - 1] == s[k];
        }
      }
    }
  }

  /** The source's text of a string value equals the hexadecimal one exactly when no byte of the
      string is misrendered. */
  lemma StringTextAsWrittenAgrees(s: Bytes)
    ensures StringTextAsWritten(s) == StringText(s) <==> forall i | 0 <= i < |s| :: !Misrendered(s[i])
  {
    AsWrittenBodyAgrees(s);
    var a, b := StringTextAsWritten(s), StringText(s);
    if a == b {
      assert a[1..|a| - 1] == EscapeBodyAsWritten(s);
      assert b[1..|b| - 1] == EscapeBody(s);
    }
  }

  // ---- A reference decoder for the contents of a JSON string (section 7 of RFC 8259) ----

  function HexValue(c: Byte): (v: int)
    ensures -1 <= v < 16
  {
    if '0' <= c <= '9' then c as int - '0' as int
    else if 'a' <= c <= 'f' then c as int - 'a' as int + 10
    else if 'A' <= c <= 'F' then c as int - 'A' as int + 10
    else -1
  }

  /** The byte a two-character escape `\e` stands for. */
  function ShortEscape(e: Byte): Option<Byte>
  {
    if e == '"' then Some('"')
    else if e == '\\' then Some('\\')
    else if e == '/' then Some('/')
    else if e == 'b' then Some(BACKSPACE)
    else if e == 'f' then Some(FORMFEED)
    else if e == 'n' then Some('\n')
    else if e == 'r' then Some('\r')
    else if e == 't' then Some('\t')
    else None
  }

  function Prepend(c: Byte, rest: Option<Bytes>): Option<Bytes>
  {
    if rest.Some? then Some([c] + rest.value) else None
  }

  /** Decodes the text between the quotes of a JSON string into its bytes.  An unescaped `"`,
      `\` or control byte is invalid; `\uXXXX` is decoded when it names a code point below
      0x80, the only ones this serializer writes. */
  function Unescape(t: Bytes): Option<Bytes>
    decreases |t|
  {
    if t == [] then Some([])
    else if t[0] == '"' || (t[0] as int) < 0x20 then None
    else if t[0] != '\\' then Prepend(t[0], Unescape(t[1..]))
    else if |t| < 2 then None
    else if t[1] == 'u' then
      if |t| < 6 || HexValue(t[2]) < 0 || HexValue(t[3]) < 0 || HexValue(t[4]) < 0 || HexValue(t[5]) < 0
      then None
      else
        var u := 4096 * HexValue(t[2]) + 256 * HexValue(t[3]) + 16 * HexValue(t[4]) + HexValue(t[5]);
        if u < 0x80 then Prepend(u as char, Unescape(t[6..])) else None
    else
      var d := ShortEscape(t[1]);
      if d.None? then None else Prepend(d.value, Unescape(t[2..]))
  }

  lemma EscapeByteDecodes(c: Byte, rest: Bytes)
    ensures Unescape(EscapeByte(c) + rest) == Prepend(c, Unescape(rest))
  {
    if !NeedsEscape(c) {
      assert (EscapeByte(c) + rest)[1..] == rest;
    } else if |EscapeByte(c)| == 2 {
      var e := EscapeByte(c)[1];
      assert EscapeByte(c) == ['\\', e];
      PairEscapeDecodes(e, c, rest);
    } else {
      HexEscapeDecodes(c, rest);
    }
  }

  /** A two-character escape `\e` reads back as the byte it stands for. */
  lemma PairEscapeDecodes(e: Byte, c: Byte, rest: Bytes)
    requires ShortEscape(e) == Some(c)
    ensures Unescape(['\\', e] + rest) == Prepend(c, Unescape(rest))
  {
    var t := ['\\', e] + rest;
    assert t[0] == '\\' && t[1] == e && e != 'u';
    assert t[2..] == rest;
  }

  /** A control byte without a two-character escape reads back from its `\u00XX` escape. */
  lemma HexEscapeDecodes(c: Byte, rest: Bytes)
    requires (c as int) < 0x20 && |EscapeByte(c)| != 2
    ensures Unescape(EscapeByte(c) + rest) == Prepend(c, Unescape(rest))
  {
    var v := c as int;
    var hi, lo := HexDigit(v / 16), HexDigit(v % 16);
    assert EscapeByte(c) == "\\u00" + [hi, lo];
    var t := EscapeByte(c) + rest;
    assert t[..6] == ['\\', 'u', '0', '0', hi, lo];
    assert HexValue(hi) == v / 16 && HexValue(lo) == v % 16;
    assert t[6..] == rest;
  }

  /** Decoding an escaped body gives back the original bytes. */
  lemma {:induction false} EscapeRoundTrip(s: Bytes)
    ensures Unescape(EscapeBody(s)) == Some(s)
  {
    if s != [] {
      EscapeRoundTrip(s[1..]);
      EscapeByteDecodes(s[0], EscapeBody(s[1..]));
      assert [s[0]] + s[1..] == s;
    }
  }

  /** What a JSON reader makes of the source's escape of one byte: the byte itself exactly when it
      is not misrendered; a misrendered byte c comes back as the byte 16 * (c / 10) + c % 10.  From
      a byte below 0x14 that is the control byte 0x11 or one of 0x14-0x19; from 0x14 up it is a
      printable ASCII byte, one of 0x20-0x29 (space, `!`, `"`, ... `)`) or the digit `0` or `1`. */
  lemma AsWrittenEscapeDecodes(c: Byte)
    ensures Unescape(EscapeByteAsWritten(c)) == Some([c]) <==> !Misrendered(c)
    ensures Misrendered(c) ==> Unescape(EscapeByteAsWritten(c)) == Some([(16 * (c as int / 10) + c as int % 10) as char])
  {
    EscapeByteDecodes(c, []);
    assert EscapeByte(c) + [] == EscapeByte(c);
    assert [c] + [] == [c];
    var t := EscapeByteAsWritten(c);
    if Misrendered(c) {
      var v := c as int;
      var u := 16 * (v / 10) + v % 10;
      assert t == "\\u00" + [DecimalDigit(v / 10), DecimalDigit(v % 10)];
      assert HexValue(t[2]) == 0 && HexValue(t[3]) == 0;
      assert HexValue(t[4]) == v / 10 && HexValue(t[5]) == v % 10;
      assert t[0] == '\\' && t[1] == 'u' && |t| == 6;
      assert t[6..] == [] && u < 0x80;
      assert [u as char] + [] == [u as char];
      assert Unescape(t) == Prepend(u as char, Unescape([]));
      assert u != v;
    }
  }

  /** Byte 0x16 is written as `\u0022`, which reads back as a double quote. */
  lemma QuoteFromControlByte()
    ensures EscapeByteAsWritten(22 as char) == "\\u0022"
    ensures Unescape(EscapeByteAsWritten(22 as char)) == Some(['"'])
  {
    AsWrittenEscapeDecodes(22 as char);
  }

  /** Byte 0x0B (vertical tab) is written as `\u0011`, which reads back as byte 0x11. */
  lemma VerticalTabMisrendered()
    ensures EscapeByteAsWritten(11 as char) == "\\u0011"
    ensures Unescape(EscapeByteAsWritten(11 as char)) == Some([17 as char])
    ensures StringTextAsWritten([11 as char]) == "\"\\u0011\""
    ensures StringTextAsWritten([11 as char]) != StringText([11 as char])
  {
    AsWrittenEscapeDecodes(11 as char);
    StringTextAsWrittenAgrees([11 as char]);
    assert [11 as char][1..] == [];
    assert EscapeBodyAsWritten([11 as char]) == "\\u0011" + [];
    assert Misrendered([11 as char][0]);
  }

  /** A byte other than space and a space in front of the rest: the byte's escape and a space in
      front of the rest's escape. */
  lemma SpacedEscapeStep(s: Bytes, k: nat)
    requires k + 2 <= |s| && s[k] != ' ' && s[k + 1] == ' '
    ensures EscapeBody(s[k..]) == EscapeByte(s[k]) + " " + EscapeBody(s[k + 2..])
  {
    assert s[k..][1..] == [' '] + s[k + 2..];
    assert ([' '] + s[k + 2..])[1..] == s[k + 2..];
  }

  /** Eight bytes other than space, separated by spaces: their escapes separated by spaces. */
  lemma SpacedEscapes(s: Bytes)
    requires |s| == 15 && s[1] == s[3] == s[5] == s[7] == s[9] == s[11] == s[13] == ' '
    requires s[0] != ' ' && s[2] != ' ' && s[4] != ' ' && s[6] != ' '
    requires s[8] != ' ' && s[10] != ' ' && s[12] != ' '
    ensures EscapeBody(s) ==
      EscapeByte(s[0]) + " " + (EscapeByte(s[2]) + " " + (EscapeByte(s[4]) + " " + (EscapeByte(s[6]) + " " +
      (EscapeByte(s[8]) + " " + (EscapeByte(s[10]) + " " + (EscapeByte(s[12]) + " " + EscapeByte(s[14])))))))
  {
    assert s[14..] == [s[14]];
    EscapeBodySingle(s[14]);
    SpacedEscapeStep(s, 12);
    SpacedEscapeStep(s, 10);
    SpacedEscapeStep(s, 8);
    SpacedEscapeStep(s, 6);
    SpacedEscapeStep(s, 4);
    SpacedEscapeStep(s, 2);
    SpacedEscapeStep(s, 0);
    assert s[0..] == s;
  }

  /** The string of tests/test.cpp:260, whose bytes are `"`, `\`, `/`, backspace, form feed, newline,
      carriage return and tab, separated by spaces, is written with the two-character escapes and
      `/` unchanged. */
  lemma ShortEscapesText(s: Bytes)
    requires |s| == 15 && s[0] == '"' && s[2] == '\\' && s[4] == '/' && s[6] == BACKSPACE && s[8] == FORMFEED
    requires s[10] == '\n' && s[12] == '\r' && s[14] == '\t'
    requires s[1] == s[3] == s[5] == s[7] == s[9] == s[11] == s[13] == ' '
    ensures StringText(s) == "\"\\\" \\\\ / \\b \\f \\n \\r \\t\""
  {
    SpacedEscapes(s);
  }

  /** A NUL byte between two strings that need no escapes is written `\u0000` between them. */
  lemma NulBetween(a: Bytes, b: Bytes)
    requires forall i | 0 <= i < |a| :: !NeedsEscape(a[i])
    requires forall i | 0 <= i < |b| :: !NeedsEscape(b[i])
    ensures StringText(a + [0 as char] + b) == "\"" + a + "\\u0000" + b + "\""
  {
    var nul: Bytes := [0 as char];
    assert EscapeBody(nul) == "\\u0000" by {
      EscapeBodySingle(0 as char);
      assert HexDigit(0) == '0';
    }
    assert EscapeBody(a + nul + b) == a + EscapeBody(nul) + b by {
      EscapeBodyIdentity(a);
      EscapeBodyIdentity(b);
      EscapeBodyAppend(a, nul);
      EscapeBodyAppend(a + nul, b);
    }
  }

  /** The string of tests/test.cpp:261, `Hello`, a NUL byte and `World`: the NUL is written
      `\u0000` and the letters unchanged. */
  lemma NulEscapeExample()
    ensures StringText("Hello" + [0 as char] + "World") == "\"Hello\\u0000World\""
  {
    NulBetween("Hello", "World");
  }

  // ---- The serialized text of a value ----

  /** Parts separated by `", "`. */
  function Join(parts: seq<Bytes>): Bytes
  {
    if |parts| == 0 then []
    else if |parts| == 1 then parts[0]
    else Join(parts[..|parts| - 1]) + ", " + parts[|parts| - 1]
  }

  function PairText(key: Bytes, value: Bytes): Bytes
  {
    "\"" + key + "\"" + ": " + value
  }

  /** The text `serialize` produces: literals for Null and Bool, the platform's rendering for a
      Number, an escaped string, and `[`...`]` / `{`...`}` around `", "`-separated parts.  Object
      keys are written between quotes without escaping, in the map's iteration order. */
  function Serialization(v: Value, rt: Runtime): Bytes
    requires rt.Valid()
    decreases v, 1
  {
    match v
    case Null => "null"
    case Bool(b) => if b then "true" else "false"
    case Number(n) => rt.formatNumber(n)
    case Str(s) => StringText(s)
    case Arr(_) => "[" + Join(ElementTexts(v, rt)) + "]"
    case Obj(m) => "{" + Join(PairTexts(v, rt.keyOrder(m), rt)) + "}"
  }

  function ElementTexts(v: Value, rt: Runtime): (ts: seq<Bytes>)
    requires v.Arr? && rt.Valid()
    ensures |ts| == |v.elems|
    decreases v, 0
  {
    seq(|v.elems|, i requires 0 <= i < |v.elems| => Serialization(v.elems[i], rt))
  }

  /** The `"key": value` texts of the entries of an object, listed in the order `ks`. */
  function PairTexts(v: Value, ks: seq<Bytes>, rt: Runtime): (ts: seq<Bytes>)
    requires v.Obj? && rt.Valid()
    requires forall k | k in ks :: k in v.members
    ensures |ts| == |ks|
    decreases v, 0
  {
    seq(|ks|, i requires 0 <= i < |ks| => PairText(ks[i], Serialization(v.members[ks[i]], rt)))
  }

  /** A key order lists as many keys as the map holds. */
  lemma {:induction false} KeyOrderLength(ks: seq<Bytes>, m: map<Bytes, Value>)
    requires IsKeyOrder(ks, m)
    ensures |ks| == |m|
  {
    if ks == [] {
      assert m.Keys == {};
    } else {
      var rest := m - {ks[0]};
      KeyOrderTail(ks, m);
      KeyOrderLength(ks[1..], rest);
      assert m.Keys == rest.Keys + {ks[0]};
    }
  }

  /** Without its first key, a key order lists the rest of the map. */
  lemma KeyOrderTail(ks: seq<Bytes>, m: map<Bytes, Value>)
    requires IsKeyOrder(ks, m) && ks != []
    ensures IsKeyOrder(ks[1..], m - {ks[0]})
  {
    var tail, rest := ks[1..], m - {ks[0]};
    forall k | k in rest ensures k in tail {
      var j :| 0 <= j < |ks| && ks[j] == k;
      assert tail[j - 1] == k;
    }
    forall k | k in tail ensures k in rest {
      var j :| 0 <= j < |tail| && tail[j] == k;
      assert ks[j + 1] == k;
    }
  }

  /** An empty array serializes as `[]` and an empty object as `{}`. */
  lemma SerializeEmptyContainers(rt: Runtime)
    requires rt.Valid()
    ensures Serialization(Arr([]), rt) == "[]"
    ensures Serialization(Obj(map[]), rt) == "{}"
  {
    KeyOrderLength(rt.keyOrder(map[]), map[]);
  }

  /** A serialized string is a JSON string literal whose decoded contents are the string. */
  lemma SerializeStringDecodes(s: Bytes, rt: Runtime)
    requires rt.Valid()
    ensures var t := Serialization(Str(s), rt);
      |t| >= 2 && t[0] == '"' && t[|t| - 1] == '"' && Unescape(t[1..|t| - 1]) == Some(s)
  {
    var t := Serialization(Str(s), rt);
    assert t[1..|t| - 1] == EscapeBody(s);
    EscapeRoundTrip(s);
  }

  // ---- Key order does not matter up to a permutation of the entries ----

  lemma PairTextsAppend(v: Value, a: seq<Bytes>, b: seq<Bytes>, rt: Runtime)
    requires v.Obj? && rt.Valid()
    requires forall k | k in a + b :: k in v.members
    ensures PairTexts(v, a + b, rt) == PairTexts(v, a, rt) + PairTexts(v, b, rt)
  {
  }

  /** Two listings of the same keys, with the same multiplicities, give the same entry texts up to
      order. */
  lemma {:induction false} PairTextsPermuted(v: Value, ks1: seq<Bytes>, ks2: seq<Bytes>, rt: Runtime)
    requires v.Obj? && rt.Valid()
    requires forall k | k in ks1 :: k in v.members
    requires multiset(ks1) == multiset(ks2)
    ensures forall k | k in ks2 :: k in v.members
    ensures multiset(PairTexts(v, ks1, rt)) == multiset(PairTexts(v, ks2, rt))
    decreases |ks1|
  {
    forall k | k in ks2 ensures k in v.members {
      assert k in multiset(ks2);
    }
    if ks1 == [] {
      assert |multiset(ks2)| == 0;
    } else {
      var k := ks1[0];
      assert k in multiset(ks2);
      var j :| 0 <= j < |ks2| && ks2[j] == k;
      var rest := ks2[..j] + ks2[j + 1..];
      RemoveOne(ks1, ks2, j);
      PairTextsPermuted(v, ks1[1..], rest, rt);
      assert ks1 == [k] + ks1[1..];
      PairTextsAppend(v, [k], ks1[1..], rt);
      PairTextsAround(v, ks2, j, rt);
    }
  }

  /** Taking the first key off one listing and the same key off the other keeps them equal as
      multisets. */
  lemma RemoveOne(ks1: seq<Bytes>, ks2: seq<Bytes>, j: nat)
    requires |ks1| > 0 && j < |ks2| && ks2[j] == ks1[0] && multiset(ks1) == multiset(ks2)
    ensures multiset(ks2[..j] + ks2[j + 1..]) == multiset(ks1[1..])
  {
    var k := ks1[0];
    assert ks2 == ks2[..j] + [k] + ks2[j + 1..];
    assert ks1 == [k] + ks1[1..];
    assert multiset(ks2) == multiset(ks2[..j]) + multiset{k} + multiset(ks2[j + 1..]);
    assert multiset(ks1) == multiset{k} + multiset(ks1[1..]);
    assert multiset(ks2[..j] + ks2[j + 1..]) == multiset(ks2[..j]) + multiset(ks2[j + 1..]);
    assert multiset(ks1[1..]) == multiset(ks1) - multiset{k};
    assert multiset(ks2[..j] + ks2[j + 1..]) == multiset(ks2) - multiset{k};
  }

  /** The entry texts of a listing are those of its key at `j` together with those of the rest. */
  lemma PairTextsAround(v: Value, ks: seq<Bytes>, j: nat, rt: Runtime)
    requires v.Obj? && rt.Valid() && j < |ks|
    requires forall k | k in ks :: k in v.members
    ensures multiset(PairTexts(v, ks, rt)) ==
      multiset(PairTexts(v, [ks[j]], rt)) + multiset(PairTexts(v, ks[..j] + ks[j + 1..], rt))
  {
    assert ks == ks[..j] + [ks[j]] + ks[j + 1..];
    PairTextsAppend(v, ks[..j], [ks[j]], rt);
    PairTextsAppend(v, ks[..j] + [ks[j]], ks[j + 1..], rt);
    PairTextsAppend(v, ks[..j], ks[j + 1..], rt);
  }

  lemma {:induction false} DistinctMultiset(ks: seq<Bytes>)
    requires forall i, j | 0 <= i < j < |ks| :: ks[i] != ks[j]
    ensures forall k :: multiset(ks)[k] == if k in ks then 1 else 0
  {
    if ks != [] {
      DistinctMultiset(ks[1..]);
      assert ks == [ks[0]] + ks[1..];
    }
  }

  /** Whatever order the map iterates in, the object's entries are the same texts, each once:
      two valid key orders give entry lists that are permutations of each other. */
  lemma ObjectOrderIrrelevant(v: Value, ks1: seq<Bytes>, ks2: seq<Bytes>, rt: Runtime)
    requires v.Obj? && rt.Valid()
    requires IsKeyOrder(ks1, v.members) && IsKeyOrder(ks2, v.members)
    ensures multiset(PairTexts(v, ks1, rt)) == multiset(PairTexts(v, ks2, rt))
  {
    DistinctMultiset(ks1);
    DistinctMultiset(ks2);
    assert multiset(ks1) == multiset(ks2);
    PairTextsPermuted(v, ks1, ks2, rt);
  }

  // ---- The serializer as the source writes it: loops that grow the result ----

  /** `serializeString`: open a quote, append the escape of each byte, close the quote. */
  method SerializeString(s: Bytes) returns (t: Bytes)
    ensures t == StringText(s)
  {
    t := "\"";
    for i := 0 to |s|
      invariant t == "\"" + EscapeBody(s[..i])
    {
      EscapeBodyStep(s, i, t);
      t := t + EscapeByte(s[i]);
    }
    assert s[..|s|] == s;
    t := t + "\"";
  }

  /** Escaping one more byte extends the escaped prefix by that byte's escape. */
  lemma EscapeBodyStep(s: Bytes, i: nat, t: Bytes)
    requires i < |s| && t == "\"" + EscapeBody(s[..i])
    ensures t + EscapeByte(s[i]) == "\"" + EscapeBody(s[..i + 1])
  {
    var p, c := s[..i], s[i];
    assert EscapeBody(s[..i + 1]) == EscapeBody(p) + EscapeByte(c) by {
      assert s[..i + 1] == p + [c];
      EscapeBodyAppend(p, [c]);
      EscapeBodySingle(c);
    }
  }

  /** The escaped body of a one-byte string is that byte's escape. */
  lemma EscapeBodySingle(c: Byte)
    ensures EscapeBody([c]) == EscapeByte(c)
  {
    assert [c][1..] == [];
    assert EscapeByte(c) + [] == EscapeByte(c);
  }

  /** Every key the iteration order lists is a key of the map. */
  lemma KeysListed(rt: Runtime, m: map<Bytes, Value>)
    requires rt.Valid()
    ensures forall k | k in rt.keyOrder(m) :: k in m
  {
    assert IsKeyOrder(rt.keyOrder(m), m);
  }

  /** One more part extends the joined text by a separator (after the first part) and the part. */
  lemma JoinStep(lead: Bytes, parts: seq<Bytes>, i: nat, t: Bytes)
    requires i < |parts|
    requires t == lead + Join(parts[..i])
    ensures (if i == 0 then t else t + ", ") + parts[i] == lead + Join(parts[..i + 1])
  {
    assert parts[..i + 1][..i] == parts[..i];
    if i == 0 {
      assert Join(parts[..0]) == [];
    }
  }

  lemma AppendPair(before: Bytes, key: Bytes, value: Bytes)
    ensures before + "\"" + key + "\"" + ": " + value == before + PairText(key, value)
  {
  }

  /** One more entry, appended piece by piece as `serializeObject` does, extends the object text
      by a separator (after the first entry) and the entry's `"key": value` text. */
  lemma ObjectEntryStep(parts: seq<Bytes>, i: nat, t: Bytes, key: Bytes, value: Bytes)
    requires i < |parts| && parts[i] == PairText(key, value)
    requires t == "{" + Join(parts[..i])
    ensures (if i == 0 then t else t + ", ") + ("\"" + key + "\"") + ": " + value == "{" + Join(parts[..i + 1])
  {
    var before := if i == 0 then t else t + ", ";
    JoinStep("{", parts, i, t);
    AppendPair(before, key, value);
    assert before + ("\"" + key + "\"") == before + "\"" + key + "\"";
  }

  /** `serialize`: dispatch on the tag. */
  method SerializeValue(v: Value, rt: Runtime) returns (t: Bytes)
    requires rt.Valid()
    ensures t == Serialization(v, rt)
    decreases v, 1
  {
    match v
    case Null => t := "null";
    case Bool(b) => t := if b then "true" else "false";
    case Number(n) => t := rt.formatNumber(n);
    case Str(s) => t := SerializeString(s);
    case Arr(_) => t := SerializeArray(v, rt);
    case Obj(_) => t := SerializeObject(v, rt);
  }

  /** `serializeArray`: `[`, the elements with `", "` before every one but the first, `]`. */
  method SerializeArray(v: Value, rt: Runtime) returns (t: Bytes)
    requires v.Arr? && rt.Valid()
    ensures t == Serialization(v, rt)
    decreases v, 0
  {
    ghost var parts := ElementTexts(v, rt);
    t := "[";
    var i := 0;
    while i != v.Size()
      invariant 0 <= i <= |v.elems|
      invariant t == "[" + Join(parts[..i])
    {
      JoinStep("[", parts, i, t);
      if i > 0 {
        t := t + ", ";
      }
      var e := SerializeValue(v.elems[i], rt);
      t := t + e;
      i := i + 1;
    }
    assert parts[..i] == parts;
    t := t + "]";
  }

  /** `serializeObject`: `{`, the entries in iteration order as `"key": value` with `", "`
      before every one but the first, `}`. */
  method SerializeObject(v: Value, rt: Runtime) returns (t: Bytes)
    requires v.Obj? && rt.Valid()
    ensures t == Serialization(v, rt)
    decreases v, 0
  {
    var ks := rt.keyOrder(v.members);
    KeysListed(rt, v.members);
    ghost var parts := PairTexts(v, ks, rt);
    t := "{";
    var seenFirst := false;
    for i := 0 to |ks|
      invariant seenFirst <==> i > 0
      invariant t == "{" + Join(parts[..i])
    {
      assert ks[i] in v.members;
      var e := SerializeValue(v.members[ks[i]], rt);
      assert parts[i] == PairText(ks[i], e);
      ObjectEntryStep(parts, i, t, ks[i], e);
      ghost var before := if i == 0 then t else t + ", ";
      if !seenFirst {
        seenFirst := true;
      } else {
        t := t + ", ";
      }
      assert t == before;
      var quoted: Bytes := "\"" + ks[i] + "\"";
      var colon: Bytes := ": ";
      t := t + quoted;
      t := t + colon;
      t := t + e;
    }
    assert parts[..|ks|] == parts;
    t := t + "}";
  }
}
