/** The JSON codec: the printed form of a value and the parser, as functions.

    `JsonCode` has the loops of the source, proved against them, and `JsonRoundTrip` what the parser makes
    of printed text. Text is UTF-8 bytes; the parser turns each raw byte of a string into one character. */
module Json {
  import opened Words

  const LIMIT: int := 1_000_000_000_000_000

  /** A 64-bit float: an integer below 10^15 in magnitude, or any other pattern. */
  datatype Number = Whole(i: int) | Float(bits: u64) {
    predicate Valid() { Whole? ==> -LIMIT < i < LIMIT }
  }

  datatype Json =
    | Null
    | Bool(b: bool)
    | Num(n: Number)
    | Str(s: string)
    | Arr(items: seq<Json>)
    | Obj(fields: seq<Field>)

  datatype Field = Field(key: string, value: Json)

  /** The standard library's float formatting and parsing, for what is not a small integer. */
  datatype Lib = Lib(show: u64 -> seq<u8>, read: seq<u8> -> Option<Number>)

  // ---- the characters of the format ----

  const QUOTE: u8 := 0x22
  const BACKSLASH: u8 := 0x5C
  const COMMA: u8 := 0x2C
  const COLON: u8 := 0x3A
  const MINUS: u8 := 0x2D

  function TrueText(): seq<u8> { [0x74, 0x72, 0x75, 0x65] }

  function FalseText(): seq<u8> { [0x66, 0x61, 0x6C, 0x73, 0x65] }

  function NullText(): seq<u8> { [0x6E, 0x75, 0x6C, 0x6C] }

  predicate IsDigit(c: u8) { 0x30 <= c <= 0x39 }

  predicate IsSpace(c: u8) { c == 0x20 || c == 0x09 || c == 0x0A || c == 0x0D }

  // ---- printing ----

  /** The UTF-8 encoding of a character. */
  function Utf8(c: char): (b: seq<u8>)
    ensures c as int < 0x80 ==> b == [c as int]
    ensures c as int >= 0x80 ==> |b| >= 2 && forall k :: 0 <= k < |b| ==> b[k] >= 0x80
  {
    var n := c as int;
    if n < 0x80 then [n]
    else if n < 0x800 then [0xC0 + n / 0x40, 0x80 + n % 0x40]
    else if n < 0x1_0000 then [0xE0 + n / 0x1000, 0x80 + n / 0x40 % 0x40, 0x80 + n % 0x40]
    else [0xF0 + n / 0x4_0000, 0x80 + n / 0x1000 % 0x40, 0x80 + n / 0x40 % 0x40, 0x80 + n % 0x40]
  }

  function HexDigit(d: nat): u8
    requires d < 16
  {
    if d < 10 then 0x30 + d else 0x61 + d - 10
  }

  /** The short escape of a character, if it has one. */
  function ShortEscape(c: char): Option<u8> {
    if c == '"' then Some(QUOTE)
    else if c == '\\' then Some(BACKSLASH)
    else if c == '\n' then Some(0x6E)
    else if c == '\r' then Some(0x72)
    else if c == '\t' then Some(0x74)
    else if c as int == 0x08 then Some(0x62)
    else if c as int == 0x0C then Some(0x66)
    else None
  }

  function WriteChar(c: char): seq<u8> {
    if ShortEscape(c).Some? then [BACKSLASH, ShortEscape(c).value]
    else if c as int < 0x20 then [BACKSLASH, 0x75, 0x30, 0x30, HexDigit(c as int / 16), HexDigit(c as int % 16)]
    else Utf8(c)
  }

  /** The images of the characters of a string, one after the other, and `end`. */
  function Concat<T>(f: char -> seq<T>, s: string, end: seq<T>): seq<T>
    decreases s
  {
    if s == [] then end else f(s[0]) + Concat(f, s[1..], end)
  }

  /** The characters of a string and the closing quote. */
  function WriteChars(s: string): seq<u8> { Concat(WriteChar, s, [QUOTE]) }

  function WriteString(s: string): seq<u8> { [QUOTE] + WriteChars(s) }

  function DigitsOf(n: nat): seq<u8>
    decreases n
  {
    if n < 10 then [0x30 + n] else DigitsOf(n / 10) + [0x30 + n % 10]
  }

  function Decimal(i: int): seq<u8> {
    if i < 0 then [MINUS] + DigitsOf(-i) else DigitsOf(i)
  }

  function WriteNumber(lib: Lib, n: Number): seq<u8> {
    if n.Whole? then Decimal(n.i) else lib.show(n.bits)
  }

  function Write(lib: Lib, v: Json): seq<u8>
    decreases v
  {
    match v
    case Null => NullText()
    case Bool(b) => if b then TrueText() else FalseText()
    case Num(n) => WriteNumber(lib, n)
    case Str(s) => WriteString(s)
    case Arr(_) => [0x5B] + WriteItems(lib, v, 0)
    case Obj(_) => [0x7B] + WriteFields(lib, v, 0)
  }

  function Separator(k: nat): seq<u8> { if k > 0 then [COMMA] else [] }

  /** Items `k` and on, each but the very first after a comma, and the closing bracket. */
  function WriteItems(lib: Lib, v: Json, k: nat): seq<u8>
    requires v.Arr? && k <= |v.items|
    decreases v, |v.items| - k
  {
    if k == |v.items| then [0x5D] else Separator(k) + Write(lib, v.items[k]) + WriteItems(lib, v, k + 1)
  }

  function WriteFields(lib: Lib, v: Json, k: nat): seq<u8>
    requires v.Obj? && k <= |v.fields|
    decreases v, |v.fields| - k
  {
    if k == |v.fields| then [0x7D]
    else Separator(k) + WriteString(v.fields[k].key) + [COLON] + Write(lib, v.fields[k].value)
         + WriteFields(lib, v, k + 1)
  }

  // ---- parsing ----

  datatype JsonError =
    | UnexpectedEnd | UnexpectedCharacter(c: u8) | Expected(lit: seq<u8>)
    | UnterminatedEscape | BadEscape(e: u8) | BadUnicodeEscape | BadCodepoint | UnterminatedString
    | InvalidNumber | UnterminatedArray | ArrayDelimiter
    | KeyExpected | ColonExpected | UnterminatedObject | ObjectDelimiter | TrailingData

  /** A parsed value and the position after it. */
  datatype Parsed<T> = Good(v: T, next: nat) | Bad(e: JsonError)

  function SkipWs(b: seq<u8>, i: nat): (j: nat)
    requires i <= |b|
    ensures i <= j <= |b|
    decreases |b| - i
  {
    if i < |b| && IsSpace(b[i]) then SkipWs(b, i + 1) else i
  }

  function HexValue(c: u8): Option<nat> {
    if IsDigit(c) then Some(c - 0x30)
    else if 0x61 <= c <= 0x66 then Some(c - 0x61 + 10)
    else if 0x41 <= c <= 0x46 then Some(c - 0x41 + 10)
    else None
  }

  function HexNumber(h: seq<u8>, acc: nat): Option<nat>
    decreases h
  {
    if h == [] then Some(acc)
    else if HexValue(h[0]).None? then None
    else HexNumber(h[1..], acc * 16 + HexValue(h[0]).value)
  }

  /** `u32::from_str_radix(_, 16)` of four bytes, which takes a leading plus sign. */
  function FromHex(h: seq<u8>): Option<nat>
    requires |h| == 4
  {
    if h[0] == 0x2B then HexNumber(h[1..], 0) else HexNumber(h, 0)
  }

  /** `char::from_u32`. */
  function CharOf(n: nat): Option<char> {
    if n < 0xD800 || 0xE000 <= n < 0x11_0000 then Some(n as char) else None
  }

  /** The character an escape stands for; `i` is the position after the backslash. */
  function ParseEscape(b: seq<u8>, i: nat): (r: Parsed<char>)
    requires i <= |b|
    ensures r.Good? ==> i < r.next <= |b|
  {
    if i >= |b| then Bad(UnterminatedEscape)
    else
      var e := b[i];
      if e == QUOTE then Good('"', i + 1)
      else if e == BACKSLASH then Good('\\', i + 1)
      else if e == 0x2F then Good('/', i + 1)
      else if e == 0x6E then Good('\n', i + 1)
      else if e == 0x72 then Good('\r', i + 1)
      else if e == 0x74 then Good('\t', i + 1)
      else if e == 0x62 then Good(0x08 as char, i + 1)
      else if e == 0x66 then Good(0x0C as char, i + 1)
      else if e == 0x75 then
        if i + 5 > |b| then Bad(BadUnicodeEscape)
        else
          var code := FromHex(b[i + 1..i + 5]);
          if code.None? then Bad(BadUnicodeEscape)
          else if CharOf(code.value).None? then Bad(BadCodepoint)
          else Good(CharOf(code.value).value, i + 5)
      else Bad(BadEscape(e))
  }

  /** The rest of a string from position `i`, `s` having been read. */
  function ParseChars(b: seq<u8>, i: nat, s: string): (r: Parsed<string>)
    requires i <= |b|
    ensures r.Good? ==> i < r.next <= |b|
    decreases |b| - i
  {
    if i >= |b| then Bad(UnterminatedString)
    else if b[i] == QUOTE then Good(s, i + 1)
    else if b[i] == BACKSLASH then
      var c := ParseEscape(b, i + 1);
      if c.Good? then ParseChars(b, c.next, s + [c.v]) else Bad(c.e)
    else ParseChars(b, i + 1, s + [b[i] as char])
  }

  /** The end of the run of digits at `i`. */
  function DigitsEnd(b: seq<u8>, i: nat): (j: nat)
    requires i <= |b|
    ensures i <= j <= |b|
    decreases |b| - i
  {
    if i < |b| && IsDigit(b[i]) then DigitsEnd(b, i + 1) else i
  }

  predicate At(b: seq<u8>, i: nat, c: u8) { i < |b| && b[i] == c }

  function AfterSign(b: seq<u8>, i: nat): nat
    requires i <= |b|
    ensures i <= AfterSign(b, i) <= |b|
  {
    if At(b, i, MINUS) then i + 1 else i
  }

  function AfterFraction(b: seq<u8>, i: nat): nat
    requires i <= |b|
    ensures i <= AfterFraction(b, i) <= |b|
  {
    if At(b, i, 0x2E) then DigitsEnd(b, i + 1) else i
  }

  function AfterExponent(b: seq<u8>, i: nat): nat
    requires i <= |b|
    ensures i <= AfterExponent(b, i) <= |b|
  {
    if At(b, i, 0x65) || At(b, i, 0x45) then
      DigitsEnd(b, if At(b, i + 1, 0x2B) || At(b, i + 1, MINUS) then i + 2 else i + 1)
    else i
  }

  /** The end of the number token at `i`. */
  function NumberEnd(b: seq<u8>, i: nat): (j: nat)
    requires i <= |b|
    ensures i <= j <= |b|
  {
    AfterExponent(b, AfterFraction(b, DigitsEnd(b, AfterSign(b, i))))
  }

  function DigitsValue(t: seq<u8>): nat
    requires forall k :: 0 <= k < |t| ==> IsDigit(t[k])
    decreases t
  {
    if t == [] then 0
    else
      assert IsDigit(t[|t| - 1]);
      var d: int := t[|t| - 1];
      10 * DigitsValue(t[..|t| - 1]) + (d - 0x30)
  }

  predicate IsDigits(t: seq<u8>) { t != [] && forall k :: 0 <= k < |t| ==> IsDigit(t[k]) }

  /** The integer a text spells, if it is an optional minus sign and digits. */
  function IntegerOf(t: seq<u8>): Option<int> {
    if IsDigits(t) then Some(DigitsValue(t))
    else if t != [] && t[0] == MINUS && IsDigits(t[1..]) then
      var n: int := DigitsValue(t[1..]);
      Some(-n)
    else None
  }

  function ReadNumber(lib: Lib, t: seq<u8>): Option<Number> {
    var i := IntegerOf(t);
    if i.Some? && -LIMIT < i.value < LIMIT then Some(Whole(i.value)) else lib.read(t)
  }

  function ParseNumber(lib: Lib, b: seq<u8>, i: nat): (r: Parsed<Number>)
    requires i < |b| && (b[i] == MINUS || IsDigit(b[i]))
    ensures r.Good? ==> i < r.next <= |b|
  {
    var j := NumberEnd(b, i);
    var n := ReadNumber(lib, b[i..j]);
    if n.Some? then Good(n.value, j) else Bad(InvalidNumber)
  }

  predicate Starts(b: seq<u8>, i: nat, t: seq<u8>) {
    i + |t| <= |b| && b[i..i + |t|] == t
  }

  function Literal(b: seq<u8>, i: nat, t: seq<u8>, v: Json): Parsed<Json> {
    if Starts(b, i, t) then Good(v, i + |t|) else Bad(Expected(t))
  }

  function ParseValue(lib: Lib, b: seq<u8>, i: nat): (r: Parsed<Json>)
    requires i <= |b|
    ensures r.Good? ==> i < r.next <= |b|
    decreases |b| - i, 0
  {
    var j := SkipWs(b, i);
    if j >= |b| then Bad(UnexpectedEnd)
    else if b[j] == QUOTE then
      var s := ParseChars(b, j + 1, []);
      if s.Good? then Good(Str(s.v), s.next) else Bad(s.e)
    else if b[j] == 0x7B then ParseObject(lib, b, j)
    else if b[j] == 0x5B then ParseArray(lib, b, j)
    else if b[j] == 0x74 then Literal(b, j, TrueText(), Bool(true))
    else if b[j] == 0x66 then Literal(b, j, FalseText(), Bool(false))
    else if b[j] == 0x6E then Literal(b, j, NullText(), Null)
    else if b[j] == MINUS || IsDigit(b[j]) then
      var n := ParseNumber(lib, b, j);
      if n.Good? then Good(Num(n.v), n.next) else Bad(n.e)
    else Bad(UnexpectedCharacter(b[j]))
  }

  /** `i` is the position of the opening bracket. */
  function ParseArray(lib: Lib, b: seq<u8>, i: nat): (r: Parsed<Json>)
    requires i < |b|
    ensures r.Good? ==> i < r.next <= |b|
    decreases |b| - i - 1, 2
  {
    var j := SkipWs(b, i + 1);
    if At(b, j, 0x5D) then Good(Arr([]), j + 1) else ParseItems(lib, b, j, [])
  }

  /** The loop of the array parser, `items` having been read. */
  function ParseItems(lib: Lib, b: seq<u8>, i: nat, items: seq<Json>): (r: Parsed<Json>)
    requires i <= |b|
    ensures r.Good? ==> i < r.next <= |b|
    decreases |b| - i, 1
  {
    var v := ParseValue(lib, b, i);
    if v.Bad? then v
    else
      var j := SkipWs(b, v.next);
      if j >= |b| then Bad(UnterminatedArray)
      else if b[j] == COMMA then ParseItems(lib, b, j + 1, items + [v.v])
      else if b[j] == 0x5D then Good(Arr(items + [v.v]), j + 1)
      else Bad(ArrayDelimiter)
  }

  function ParseObject(lib: Lib, b: seq<u8>, i: nat): (r: Parsed<Json>)
    requires i < |b|
    ensures r.Good? ==> i < r.next <= |b|
    decreases |b| - i - 1, 2
  {
    var j := SkipWs(b, i + 1);
    if At(b, j, 0x7D) then Good(Obj([]), j + 1) else ParseFields(lib, b, j, [])
  }

  /** A key and its colon. */
  function ParseKey(b: seq<u8>, i: nat): (r: Parsed<string>)
    requires i <= |b|
    ensures r.Good? ==> i < r.next <= |b|
  {
    var j := SkipWs(b, i);
    if !At(b, j, QUOTE) then Bad(KeyExpected)
    else
      var key := ParseChars(b, j + 1, []);
      if key.Bad? then key
      else
        var k := SkipWs(b, key.next);
        if At(b, k, COLON) then Good(key.v, k + 1) else Bad(ColonExpected)
  }

  function ParseFields(lib: Lib, b: seq<u8>, i: nat, fields: seq<Field>): (r: Parsed<Json>)
    requires i <= |b|
    ensures r.Good? ==> i < r.next <= |b|
    decreases |b| - i, 1
  {
    var key := ParseKey(b, i);
    if key.Bad? then Bad(key.e)
    else
      var v := ParseValue(lib, b, key.next);
      if v.Bad? then v
      else
        var j := SkipWs(b, v.next);
        var read := fields + [Field(key.v, v.v)];
        if j >= |b| then Bad(UnterminatedObject)
        else if b[j] == COMMA then ParseFields(lib, b, j + 1, read)
        else if b[j] == 0x7D then Good(Obj(read), j + 1)
        else Bad(ObjectDelimiter)
  }

  function Parse(lib: Lib, b: seq<u8>): Result<Json, JsonError> {
    var v := ParseValue(lib, b, 0);
    if v.Bad? then Err(v.e)
    else if SkipWs(b, v.next) != |b| then Err(TrailingData)
    else Ok(v.v)
  }
}
