/** Reading the chip identifier out of a recovery serial-number string
    (cpp/examples/restore.cpp). */
module Ecid {
  import opened Prelude

  const TWO64: nat := 0x1_0000_0000_0000_0000

  predicate IsSpace(c: char) {
    c == ' ' || c == '\t' || c == '\n' || c == '\U{000B}' || c == '\U{000C}' || c == '\r'
  }

  predicate IsHex(c: char) {
    '0' <= c <= '9' || 'a' <= c <= 'f' || 'A' <= c <= 'F'
  }

  function Digit(c: char): (d: nat)
    requires IsHex(c)
    ensures d < 16
  {
    if c <= '9' then c as int - '0' as int
    else if c <= 'F' then c as int - 'A' as int + 10
    else c as int - 'a' as int + 10
  }

  predicate AllHex(s: string) {
    forall i :: 0 <= i < |s| ==> IsHex(s[i])
  }

  /** The number a string of hex digits denotes, the last digit counting once. */
  function Value(s: string): nat
    requires AllHex(s)
  {
    if s == "" then 0 else 16 * Value(s[..|s| - 1]) + Digit(s[|s| - 1])
  }

  /** The sixteen digits in their order, in either case, and their places: the last counts once, every
      place before it sixteen times as much. */
  lemma PlaceValue(s: string, c: char, k: nat)
    requires AllHex(s) && IsHex(c) && k < 16
    ensures IsHex("0123456789abcdef"[k]) && Digit("0123456789abcdef"[k]) == k
    ensures IsHex("0123456789ABCDEF"[k]) && Digit("0123456789ABCDEF"[k]) == k
    ensures AllHex(s + [c]) && Value(s + [c]) == 16 * Value(s) + Digit(c)
    ensures Value("") == 0
  {
    assert (s + [c])[..|s|] == s;
  }

  function SkipSpace(s: string): string {
    if s != "" && IsSpace(s[0]) then SkipSpace(s[1..]) else s
  }

  /** The longest prefix made of hex digits. */
  function HexPrefix(s: string): (p: string)
    ensures p <= s && AllHex(p)
    ensures |p| < |s| ==> !IsHex(s[|p|])
  {
    if s != "" && IsHex(s[0]) then [s[0]] + HexPrefix(s[1..]) else ""
  }

  /** A "0x" counts as a prefix only when a digit follows it. */
  function SkipPrefix(s: string): string {
    if |s| >= 3 && s[0] == '0' && (s[1] == 'x' || s[1] == 'X') && IsHex(s[2]) then s[2..] else s
  }

  /** `std::stoull(s, nullptr, 16)`; `None` where it throws. A minus sign negates modulo 2^64. */
  function Stoull16(s: string): Option<nat> {
    var body := SkipSpace(s);
    var negative := body != "" && body[0] == '-';
    var unsigned := if negative || (body != "" && body[0] == '+') then body[1..] else body;
    var digits := HexPrefix(SkipPrefix(unsigned));
    if digits == "" || Value(digits) >= TWO64 then None
    else if negative then Some((TWO64 - Value(digits)) % TWO64)
    else Some(Value(digits))
  }

  predicate OccursAt(s: string, pattern: string, i: nat) {
    i + |pattern| <= |s| && s[i..i + |pattern|] == pattern
  }

  /** `std::string::find`: the first occurrence at or after `from`. */
  function FindFrom(s: string, pattern: string, from: nat): (r: Option<nat>)
    requires from <= |s|
    ensures r.Some? ==> from <= r.value && OccursAt(s, pattern, r.value)
    ensures r.Some? ==> forall i :: from <= i < r.value ==> !OccursAt(s, pattern, i)
    ensures r.None? ==> forall i :: from <= i ==> !OccursAt(s, pattern, i)
    decreases |s| - from
  {
    if OccursAt(s, pattern, from) then Some(from)
    else if from == |s| then None
    else FindFrom(s, pattern, from + 1)
  }

  function EcidFromSerial(serial: string): nat {
    match FindFrom(serial, "ECID:", 0)
    case None => 0
    case Some(pos) =>
      var start := pos + 5;
      var hex := match FindFrom(serial, " ", start)
        case None => serial[start..]
        case Some(end) => serial[start..end];
      match Stoull16(hex) case Some(v) => v case None => 0
  }

  // ----- what a serial string looks like -----

  /** A serial string whose first "ECID:" is followed by `field` and then by the end of the
      string or a space. */
  ghost predicate HasField(serial: string, pre: string, field: string, rest: string) {
    && serial == pre + "ECID:" + field + rest
    && (forall i :: 0 <= i < |pre| ==> !OccursAt(serial, "ECID:", i))
    && ' ' !in field
    && (rest == "" || rest[0] == ' ')
  }

  /** The search for the space that ends the field stops right behind the field. */
  lemma {:induction false} FieldEnd(serial: string, from: nat, end: nat)
    requires from <= end <= |serial|
    requires ' ' !in serial[from..end]
    requires end == |serial| || serial[end] == ' '
    ensures FindFrom(serial, " ", from) == if end == |serial| then None else Some(end)
    decreases end - from
  {
    if from < end {
      assert serial[from] == serial[from..end][0];
      assert serial[from..from + 1] == [serial[from]];
      assert serial[from + 1..end] == serial[from..end][1..];
      FieldEnd(serial, from + 1, end);
    } else if end < |serial| {
      assert serial[from..from + 1] == " ";
    }
  }

  /** Where the marker and the field are. */
  lemma FieldInPlace(serial: string, pre: string, field: string, rest: string)
    requires serial == pre + "ECID:" + field + rest
    ensures OccursAt(serial, "ECID:", |pre|)
    ensures var start, end := |pre| + 5, |pre| + 5 + |field|;
      && end + |rest| == |serial| && serial[start..end] == field
      && (rest == "" ==> serial[start..] == field) && (rest != "" ==> serial[end] == rest[0])
  {
    var start, end := |pre| + 5, |pre| + 5 + |field|;
    assert serial[|pre|..start] == "ECID:";
    assert serial[start..] == field + rest;
    assert rest == "" ==> field + rest == field;
  }

  lemma MarkerFound(serial: string, pre: string)
    requires OccursAt(serial, "ECID:", |pre|) && forall i :: 0 <= i < |pre| ==> !OccursAt(serial, "ECID:", i)
    ensures FindFrom(serial, "ECID:", 0) == Some(|pre|)
  {
  }

  lemma FieldIsExtracted(serial: string, pre: string, field: string, rest: string)
    requires HasField(serial, pre, field, rest)
    ensures EcidFromSerial(serial) == match Stoull16(field) case Some(v) => v case None => 0
  {
    FieldInPlace(serial, pre, field, rest);
    MarkerFound(serial, pre);
    FieldEnd(serial, |pre| + 5, |pre| + 5 + |field|);
  }

  lemma {:induction false} DigitsAreTheirOwnPrefix(d: string)
    requires AllHex(d)
    ensures HexPrefix(d) == d
  {
    if d != "" { DigitsAreTheirOwnPrefix(d[1..]); }
  }

  lemma StoullOfDigits(d: string)
    requires AllHex(d) && d != ""
    ensures Stoull16(d) == if Value(d) < TWO64 then Some(Value(d)) else None
  {
    assert IsHex(d[0]) && !IsSpace(d[0]) && SkipSpace(d) == d;
    assert |d| > 1 ==> IsHex(d[1]) && d[1] != 'x' && d[1] != 'X';
    assert SkipPrefix(d) == d;
    DigitsAreTheirOwnPrefix(d);
  }

  /** For a field of hex digits, of either case and however padded, the parser returns the
      number when it fits 64 bits and 0 when it does not. */
  lemma FieldOfDigits(serial: string, pre: string, digits: string, rest: string)
    requires HasField(serial, pre, digits, rest) && AllHex(digits) && digits != ""
    ensures EcidFromSerial(serial) == if Value(digits) < TWO64 then Value(digits) else 0
  {
    FieldIsExtracted(serial, pre, digits, rest);
    StoullOfDigits(digits);
  }

  /** No "ECID:" anywhere, or nothing between it and the next space: 0. */
  lemma MissingOrEmptyField(serial: string, pre: string, rest: string)
    ensures (forall i: nat :: !OccursAt(serial, "ECID:", i)) ==> EcidFromSerial(serial) == 0
    ensures HasField(serial, pre, "", rest) ==> EcidFromSerial(serial) == 0
  {
    if HasField(serial, pre, "", rest) {
      FieldIsExtracted(serial, pre, "", rest);
    }
  }

  // ----- printing -----

  function HexDigit(d: nat): (c: char)
    requires d < 16
    ensures IsHex(c) && Digit(c) == d
  {
    if d < 10 then ('0' as int + d) as char else ('A' as int + d - 10) as char
  }

  /** Uppercase hex, without leading zeros. */
  function PrintHex(v: nat): (s: string)
    ensures AllHex(s) && s != "" && Value(s) == v
  {
    if v < 16 then
      assert [HexDigit(v)][..0] == "";
      [HexDigit(v)]
    else
      var s := PrintHex(v / 16) + [HexDigit(v % 16)];
      assert s[..|s| - 1] == PrintHex(v / 16);
      s
  }

  lemma {:induction false} ZeroPadding(n: nat, d: string)
    requires AllHex(d)
    ensures AllHex(seq(n, _ => '0') + d)
    ensures Value(seq(n, _ => '0') + d) == Value(d)
    decreases n + |d|
  {
    var zeros := seq(n, _ => '0');
    var s := zeros + d;
    if d != "" {
      assert s[..|s| - 1] == zeros + d[..|d| - 1];
      ZeroPadding(n, d[..|d| - 1]);
    } else if n > 0 {
      assert s[..|s| - 1] == seq(n - 1, _ => '0') + "";
      ZeroPadding(n - 1, "");
    }
  }

  /** Parsing inverts printing for every 64-bit identifier and every zero padding. */
  lemma ParsingInvertsPrinting(serial: string, pre: string, padding: nat, v: nat, rest: string)
    requires v < TWO64
    requires serial == pre + "ECID:" + (seq(padding, _ => '0') + PrintHex(v)) + rest
    requires forall i :: 0 <= i < |pre| ==> !OccursAt(serial, "ECID:", i)
    requires rest == "" || rest[0] == ' '
    ensures EcidFromSerial(serial) == v
  {
    var digits := seq(padding, _ => '0') + PrintHex(v);
    ZeroPadding(padding, PrintHex(v));
    forall c | c in digits ensures c != ' ' {
      var k :| 0 <= k < |digits| && digits[k] == c;
      assert IsHex(digits[k]);
    }
    FieldOfDigits(serial, pre, digits, rest);
  }
}
