/** Parsing what was printed: each parser stops exactly at the end of the printed form. */
module JsonRoundTrip {
  import opened Words
  import opened Json

  // ---- what the parser makes of printed text ----

  function Latin1(b: seq<u8>): (s: string)
    ensures |s| == |b|
    decreases b
  {
    if b == [] then [] else [b[0] as char] + Latin1(b[1..])
  }

  function GarbleChar(c: char): string { Latin1(Utf8(c)) }

  /** A string as it comes back: each UTF-8 byte a character of its own. */
  function GarbleText(s: string): string { Concat(GarbleChar, s, []) }

  function Garble(v: Json): Json
    decreases v
  {
    match v
    case Str(s) => Str(GarbleText(s))
    case Arr(items) => Arr(seq(|items|, i requires 0 <= i < |items| => Garble(items[i])))
    case Obj(fields) =>
      Obj(seq(|fields|, i requires 0 <= i < |fields| => Field(GarbleText(fields[i].key), Garble(fields[i].value))))
    case _ => v
  }

  predicate AsciiText(s: string) { forall k :: 0 <= k < |s| ==> s[k] as int < 0x80 }

  predicate Ascii(v: Json)
    decreases v
  {
    match v
    case Str(s) => AsciiText(s)
    case Arr(items) => forall i :: 0 <= i < |items| ==> Ascii(items[i])
    case Obj(fields) => forall i :: 0 <= i < |fields| ==> AsciiText(fields[i].key) && Ascii(fields[i].value)
    case _ => true
  }

  lemma {:induction false} GarbleLonger(s: string)
    ensures |GarbleText(s)| >= |s|
    decreases s
  {
    if s != [] { GarbleLonger(s[1..]); }
  }

  lemma {:induction false} GarbleTextIff(s: string)
    ensures GarbleText(s) == s <==> AsciiText(s)
    decreases s
  {
    if s != [] {
      GarbleTextIff(s[1..]);
      GarbleLonger(s[1..]);
      assert s == [s[0]] + s[1..];
      var head := Latin1(Utf8(s[0]));
      if s[0] as int < 0x80 {
        assert head == [s[0]];
        assert GarbleText(s)[1..] == GarbleText(s[1..]);
        assert AsciiText(s) <==> AsciiText(s[1..]) by {
          if AsciiText(s) { assert forall k :: 0 <= k < |s| - 1 ==> s[1..][k] == s[k + 1]; }
          if AsciiText(s[1..]) { assert forall k :: 0 < k < |s| ==> s[k] == s[1..][k - 1]; }
        }
      } else {
        assert |GarbleText(s)| > |s|;
      }
    }
  }

  /** A value comes back as it was exactly when all its strings and keys are ASCII. */
  lemma {:induction false} GarbleIff(v: Json)
    ensures Garble(v) == v <==> Ascii(v)
    decreases v
  {
    match v
    case Str(s) => GarbleTextIff(s);
    case Arr(items) =>
      forall i | 0 <= i < |items|
        ensures Garble(items[i]) == items[i] <==> Ascii(items[i])
      {
        GarbleIff(items[i]);
      }
      if Garble(v) == v {
        assert forall i :: 0 <= i < |items| ==> Garble(v).items[i] == Garble(items[i]);
      } else {
        assert Garble(v).items != items;
      }
    case Obj(fields) =>
      forall i | 0 <= i < |fields|
        ensures Field(GarbleText(fields[i].key), Garble(fields[i].value)) == fields[i]
                <==> AsciiText(fields[i].key) && Ascii(fields[i].value)
      {
        GarbleTextIff(fields[i].key);
        GarbleIff(fields[i].value);
      }
      if Garble(v) == v {
        assert forall i :: 0 <= i < |fields| ==>
                 Garble(v).fields[i] == Field(GarbleText(fields[i].key), Garble(fields[i].value));
      } else {
        assert Garble(v).fields != fields;
      }
    case _ =>
  }

  // ---- prefixes ----

  lemma StartsSplit(b: seq<u8>, i: nat, s: seq<u8>, t: seq<u8>)
    requires Starts(b, i, s + t)
    ensures Starts(b, i, s) && Starts(b, i + |s|, t)
  {
    assert b[i..i + |s|] == b[i..i + |s + t|][..|s|] == s;
    assert b[i + |s|..i + |s + t|] == b[i..i + |s + t|][|s|..] == t;
  }

  lemma StartsAt(b: seq<u8>, i: nat, t: seq<u8>, k: nat)
    requires Starts(b, i, t) && k < |t|
    ensures i + k < |b| && b[i + k] == t[k]
  {
    assert b[i..i + |t|][k] == b[i + k];
  }

  // ---- strings ----

  /** Raw bytes other than quotes and backslashes are taken one by one. */
  lemma {:induction false} RawBytes(b: seq<u8>, i: nat, t: seq<u8>, s: string)
    requires Starts(b, i, t) && forall k :: 0 <= k < |t| ==> t[k] != QUOTE && t[k] != BACKSLASH
    ensures ParseChars(b, i, s) == ParseChars(b, i + |t|, s + Latin1(t))
    decreases t
  {
    if t == [] {
      assert s + Latin1(t) == s;
    } else {
      StartsAt(b, i, t, 0);
      assert t == [t[0]] + t[1..];
      StartsSplit(b, i, [t[0]], t[1..]);
      RawBytes(b, i + 1, t[1..], s + [t[0] as char]);
      assert s + [t[0] as char] + Latin1(t[1..]) == s + Latin1(t);
    }
  }

  lemma ShortEscapeParses(b: seq<u8>, i: nat, c: char, s: string)
    requires Starts(b, i, WriteChar(c)) && ShortEscape(c).Some?
    ensures ParseChars(b, i, s) == ParseChars(b, i + 2, s + [c])
  {
    StartsAt(b, i, WriteChar(c), 0);
    StartsAt(b, i, WriteChar(c), 1);
    assert ParseEscape(b, i + 1) == Good(c, i + 2);
  }

  lemma HexDigitValue(d: nat)
    requires d < 16
    ensures HexValue(HexDigit(d)) == Some(d) && HexDigit(d) != 0x2B
  {
  }

  lemma HexOf(n: nat, h: seq<u8>)
    requires n < 0x20 && h == [0x30, 0x30, HexDigit(n / 16), HexDigit(n % 16)]
    ensures FromHex(h) == Some(n)
  {
    var d, e := HexDigit(n / 16), HexDigit(n % 16);
    HexDigitValue(n / 16);
    HexDigitValue(n % 16);
    HexStep(0x30, [0x30, d, e], 0, 0);
    HexStep(0x30, [d, e], 0, 0);
    HexStep(d, [e], n / 16, 0);
    HexStep(e, [], n % 16, n / 16);
    assert h == [0x30] + ([0x30] + ([d] + ([e] + [])));
    assert [0x30] + [d, e] == [0x30, d, e] && [d] + [e] == [d, e] && [e] + [] == [e];
  }

  lemma HexStep(c: u8, rest: seq<u8>, d: nat, acc: nat)
    requires HexValue(c) == Some(d)
    ensures HexNumber([c] + rest, acc) == HexNumber(rest, acc * 16 + d)
  {
    assert ([c] + rest)[1..] == rest;
  }

  lemma ControlParses(b: seq<u8>, i: nat, c: char, s: string)
    requires Starts(b, i, WriteChar(c)) && ShortEscape(c).None? && c as int < 0x20
    ensures ParseChars(b, i, s) == ParseChars(b, i + 6, s + [c])
  {
    var t := WriteChar(c);
    StartsAt(b, i, t, 0);
    StartsAt(b, i, t, 1);
    assert b[i + 2..i + 6] == b[i..i + 6][2..] == t[2..];
    HexOf(c as int, t[2..]);
    assert ParseEscape(b, i + 1) == Good(c, i + 6);
  }

  /** The printed form of a character reads back as its UTF-8 bytes. */
  lemma CharParses(b: seq<u8>, i: nat, c: char, s: string)
    requires Starts(b, i, WriteChar(c))
    ensures ParseChars(b, i, s) == ParseChars(b, i + |WriteChar(c)|, s + Latin1(Utf8(c)))
  {
    if ShortEscape(c).Some? {
      ShortEscapeParses(b, i, c, s);
      assert Latin1(Utf8(c)) == [c];
    } else if c as int < 0x20 {
      ControlParses(b, i, c, s);
      assert Latin1(Utf8(c)) == [c];
    } else {
      RawBytes(b, i, Utf8(c), s);
    }
  }

  /** Text printed by `f` character by character is read as `g` of each. */
  ghost predicate ReadsAs(b: seq<u8>, f: char -> seq<u8>, g: char -> string) {
    forall i: nat, c: char, s: string {:trigger Starts(b, i, f(c)), ParseChars(b, i, s)} ::
      Starts(b, i, f(c)) ==> ParseChars(b, i, s) == ParseChars(b, i + |f(c)|, s + g(c))
  }

  lemma {:induction false} ConcatParse(b: seq<u8>, f: char -> seq<u8>, g: char -> string, i: nat, t: string, s: string)
    requires ReadsAs(b, f, g) && Starts(b, i, Concat(f, t, [QUOTE]))
    ensures ParseChars(b, i, s) == Good(s + Concat(g, t, []), i + |Concat(f, t, [QUOTE])|)
    decreases t
  {
    if t == [] {
      StartsAt(b, i, [QUOTE], 0);
      assert s + [] == s;
    } else {
      var head, tail := f(t[0]), Concat(f, t[1..], [QUOTE]);
      var j := i + |head|;
      StartsSplit(b, i, head, tail);
      assert ParseChars(b, i, s) == ParseChars(b, j, s + g(t[0]));
      ConcatParse(b, f, g, j, t[1..], s + g(t[0]));
      Regroup(s, g(t[0]), Concat(g, t[1..], []));
    }
  }

  lemma Regroup(a: string, x: string, c: string)
    ensures (a + x) + c == a + (x + c)
  {
  }

  lemma CharsParse(b: seq<u8>, i: nat, t: string, s: string)
    requires Starts(b, i, WriteChars(t))
    ensures ParseChars(b, i, s) == Good(s + GarbleText(t), i + |WriteChars(t)|)
  {
    forall j: nat, c: char, r: string | Starts(b, j, WriteChar(c))
      ensures ParseChars(b, j, r) == ParseChars(b, j + |WriteChar(c)|, r + GarbleChar(c))
    {
      CharParses(b, j, c, r);
    }
    ConcatParse(b, WriteChar, GarbleChar, i, t, s);
  }

  /** A printed string from after its opening quote. */
  lemma QuotedParses(b: seq<u8>, i: nat, s: string)
    requires Starts(b, i, WriteString(s))
    ensures At(b, i, QUOTE) && i + |WriteString(s)| <= |b|
    ensures ParseChars(b, i + 1, []) == Good(GarbleText(s), i + |WriteString(s)|)
  {
    StartsAt(b, i, WriteString(s), 0);
    StartsSplit(b, i, [QUOTE], WriteChars(s));
    CharsParse(b, i + 1, s, []);
    assert [] + GarbleText(s) == GarbleText(s);
  }

  // ---- numbers ----

  /** A byte that ends a number token. */
  predicate Delimiter(c: u8) {
    !IsDigit(c) && c != 0x2E && c != 0x65 && c != 0x45 && c != 0x2B && c != MINUS
  }

  predicate Stops(b: seq<u8>, j: nat) { j < |b| ==> Delimiter(b[j]) }

  lemma {:induction false} DigitsEndIn(b: seq<u8>, i: nat, t: seq<u8>, k: nat)
    requires Starts(b, i, t) && Stops(b, i + |t|) && k <= |t|
    ensures DigitsEnd(b, i + k) == i + DigitsEnd(t, k)
    decreases |t| - k
  {
    if k < |t| {
      StartsAt(b, i, t, k);
      if IsDigit(t[k]) { DigitsEndIn(b, i, t, k + 1); }
    }
  }

  lemma AtIn(b: seq<u8>, i: nat, t: seq<u8>, k: nat, c: u8)
    requires Starts(b, i, t) && Stops(b, i + |t|) && k <= |t| && !Delimiter(c)
    ensures At(b, i + k, c) == At(t, k, c)
  {
    if k < |t| { StartsAt(b, i, t, k); }
  }

  /** A number token followed by a delimiter ends where it ends on its own. */
  lemma NumberEndIn(b: seq<u8>, i: nat, t: seq<u8>)
    requires Starts(b, i, t) && Stops(b, i + |t|)
    ensures NumberEnd(b, i) == i + NumberEnd(t, 0)
  {
    AtIn(b, i, t, 0, MINUS);
    var k1 := AfterSign(t, 0);
    assert AfterSign(b, i) == i + k1;
    DigitsEndIn(b, i, t, k1);
    var k2 := DigitsEnd(t, k1);
    FractionIn(b, i, t, k2);
    ExponentIn(b, i, t, AfterFraction(t, k2));
  }

  lemma FractionIn(b: seq<u8>, i: nat, t: seq<u8>, k: nat)
    requires Starts(b, i, t) && Stops(b, i + |t|) && k <= |t|
    ensures AfterFraction(b, i + k) == i + AfterFraction(t, k)
  {
    AtIn(b, i, t, k, 0x2E);
    if At(t, k, 0x2E) { DigitsEndIn(b, i, t, k + 1); }
  }

  lemma ExponentIn(b: seq<u8>, i: nat, t: seq<u8>, k: nat)
    requires Starts(b, i, t) && Stops(b, i + |t|) && k <= |t|
    ensures AfterExponent(b, i + k) == i + AfterExponent(t, k)
  {
    AtIn(b, i, t, k, 0x65);
    AtIn(b, i, t, k, 0x45);
    if At(t, k, 0x65) || At(t, k, 0x45) {
      AtIn(b, i, t, k + 1, 0x2B);
      AtIn(b, i, t, k + 1, MINUS);
      var k' := if At(t, k + 1, 0x2B) || At(t, k + 1, MINUS) then k + 2 else k + 1;
      DigitsEndIn(b, i, t, k');
    }
  }

  /** The text of a number is one token, starts like one, and reads back as that number. */
  ghost predicate Readable(lib: Lib, n: Number) {
    var t := WriteNumber(lib, n);
    && t != [] && (t[0] == MINUS || IsDigit(t[0]))
    && NumberEnd(t, 0) == |t|
    && ReadNumber(lib, t) == Some(n)
  }

  lemma {:induction false} DigitsOfAre(n: nat)
    ensures IsDigits(DigitsOf(n)) && DigitsValue(DigitsOf(n)) == n
    decreases n
  {
    if n >= 10 {
      DigitsOfAre(n / 10);
      var t := DigitsOf(n);
      assert t[..|t| - 1] == DigitsOf(n / 10);
    }
  }

  lemma {:induction false} DigitsEndWhole(t: seq<u8>, k: nat)
    requires k <= |t| && forall j :: k <= j < |t| ==> IsDigit(t[j])
    ensures DigitsEnd(t, k) == |t|
    decreases |t| - k
  {
    if k < |t| { DigitsEndWhole(t, k + 1); }
  }

  /** Every integer below 10^15 in magnitude prints as digits that read back as it. */
  lemma WholeReadable(lib: Lib, n: Number)
    requires n.Whole? && n.Valid()
    ensures Readable(lib, n)
  {
    var m: nat := if n.i < 0 then -n.i else n.i;
    var t := Decimal(n.i);
    DigitsOfAre(m);
    var k := AfterSign(t, 0);
    assert t[k..] == DigitsOf(m);
    assert forall j :: k <= j < |t| ==> t[j] == t[k..][j - k];
    DigitsEndWhole(t, k);
    assert n.i < 0 ==> !IsDigit(t[0]);
    assert n.i >= 0 ==> t[0] == DigitsOf(m)[0];
  }

  /** A sign or a digit starts a number. */
  lemma NumberStarts(lib: Lib, b: seq<u8>, i: nat)
    requires i < |b| && (b[i] == MINUS || IsDigit(b[i]))
    ensures var n := ParseNumber(lib, b, i);
            ParseValue(lib, b, i) == if n.Good? then Good(Num(n.v), n.next) else Bad(n.e)
  {
    assert SkipWs(b, i) == i;
  }

  lemma NumberParses(lib: Lib, b: seq<u8>, i: nat, n: Number)
    requires Readable(lib, n) && Starts(b, i, WriteNumber(lib, n)) && Stops(b, i + |WriteNumber(lib, n)|)
    ensures ParseValue(lib, b, i) == Good(Num(n), i + |WriteNumber(lib, n)|)
  {
    var t := WriteNumber(lib, n);
    StartsAt(b, i, t, 0);
    NumberEndIn(b, i, t);
    NumberStarts(lib, b, i);
  }

  // ---- values ----

  /** Every number of the value has a readable text. */
  ghost predicate Printable(lib: Lib, v: Json)
    decreases v
  {
    match v
    case Num(n) => Readable(lib, n)
    case Arr(items) => forall i :: 0 <= i < |items| ==> Printable(lib, items[i])
    case Obj(fields) => forall i :: 0 <= i < |fields| ==> Printable(lib, fields[i].value)
    case _ => true
  }

  /** What a printed value starts with is no white space, and no closing bracket. */
  lemma FirstByte(lib: Lib, v: Json)
    requires Printable(lib, v)
    ensures var t := Write(lib, v); t != [] && !IsSpace(t[0]) && t[0] != 0x5D && t[0] != 0x7D
  {
  }

  lemma LiteralParses(lib: Lib, b: seq<u8>, i: nat, v: Json)
    requires v.Null? || v.Bool?
    requires Starts(b, i, Write(lib, v))
    ensures ParseValue(lib, b, i) == Good(v, i + |Write(lib, v)|)
  {
    StartsAt(b, i, Write(lib, v), 0);
    assert SkipWs(b, i) == i;
  }

  lemma StringParses(lib: Lib, b: seq<u8>, i: nat, s: string)
    requires Starts(b, i, WriteString(s))
    ensures ParseValue(lib, b, i) == Good(Str(GarbleText(s)), i + |WriteString(s)|)
  {
    QuotedParses(b, i, s);
    assert SkipWs(b, i) == i;
  }

  /** A printed key and its colon. */
  lemma KeyParses(b: seq<u8>, i: nat, s: string)
    requires Starts(b, i, WriteString(s) + [COLON])
    ensures ParseKey(b, i) == Good(GarbleText(s), i + |WriteString(s)| + 1)
  {
    StartsSplit(b, i, WriteString(s), [COLON]);
    QuotedParses(b, i, s);
    var k := i + |WriteString(s)|;
    StartsAt(b, k, [COLON], 0);
    KeyShape(b, i, GarbleText(s), k);
  }

  lemma KeyShape(b: seq<u8>, i: nat, key: string, k: nat)
    requires At(b, i, QUOTE) && ParseChars(b, i + 1, []) == Good(key, k) && At(b, k, COLON)
    ensures ParseKey(b, i) == Good(key, k + 1)
  {
    assert SkipWs(b, i) == i && SkipWs(b, k) == k;
  }

  // -- one turn of each loop --

  /** Where element `k` starts, the loop state `loop(_, k)` either finishes with `out` or moves on to
      where element `k + 1` starts. */
  ghost predicate TurnAt(b: seq<u8>, loop: (nat, nat) -> Parsed<Json>, text: nat -> seq<u8>, n: nat, out: Json,
                         i: nat, k: nat)
  {
    if k + 1 == n then loop(i, k) == Good(out, i + |text(k)|)
    else exists e: nat :: MovesTo(b, loop, text, i, k, e)
  }

  ghost predicate MovesTo(b: seq<u8>, loop: (nat, nat) -> Parsed<Json>, text: nat -> seq<u8>, i: nat, k: nat, e: nat) {
    loop(i, k) == loop(e, k + 1) && Starts(b, e, text(k + 1)) && e + |text(k + 1)| == i + |text(k)|
  }

  lemma {:induction false} LoopParses(b: seq<u8>, loop: (nat, nat) -> Parsed<Json>, text: nat -> seq<u8>, n: nat,
                                      out: Json, i: nat, k: nat)
    requires forall i: nat, k: nat {:trigger TurnAt(b, loop, text, n, out, i, k)} ::
               k < n && Starts(b, i, text(k)) ==> TurnAt(b, loop, text, n, out, i, k)
    requires k < n && Starts(b, i, text(k))
    ensures loop(i, k) == Good(out, i + |text(k)|)
    decreases n - k
  {
    assert TurnAt(b, loop, text, n, out, i, k);
    if k + 1 < n {
      var e: nat :| MovesTo(b, loop, text, i, k, e);
      LoopParses(b, loop, text, n, out, e, k + 1);
    }
  }

  lemma ItemsStep(lib: Lib, b: seq<u8>, i: nat, items: seq<Json>, v: Json, j: nat)
    requires i <= |b| && ParseValue(lib, b, i) == Good(v, j)
    ensures At(b, j, COMMA) ==> ParseItems(lib, b, i, items) == ParseItems(lib, b, j + 1, items + [v])
    ensures At(b, j, 0x5D) ==> ParseItems(lib, b, i, items) == Good(Arr(items + [v]), j + 1)
  {
  }

  lemma FieldsStep(lib: Lib, b: seq<u8>, i: nat, fields: seq<Field>, key: string, k: nat, v: Json, j: nat)
    requires i <= |b| && ParseKey(b, i) == Good(key, k) && k <= |b| && ParseValue(lib, b, k) == Good(v, j)
    ensures At(b, j, COMMA) ==>
              ParseFields(lib, b, i, fields) == ParseFields(lib, b, j + 1, fields + [Field(key, v)])
    ensures At(b, j, 0x7D) ==> ParseFields(lib, b, i, fields) == Good(Obj(fields + [Field(key, v)]), j + 1)
  {
    if j < |b| && !IsSpace(b[j]) { assert SkipWs(b, j) == j; }
  }

  lemma ArrayOpens(lib: Lib, b: seq<u8>, i: nat)
    requires At(b, i, 0x5B) && i + 1 < |b| && !IsSpace(b[i + 1])
    ensures ParseValue(lib, b, i)
            == if b[i + 1] == 0x5D then Good(Arr([]), i + 2) else ParseItems(lib, b, i + 1, [])
  {
    assert SkipWs(b, i) == i && SkipWs(b, i + 1) == i + 1;
  }

  lemma ObjectOpens(lib: Lib, b: seq<u8>, i: nat)
    requires At(b, i, 0x7B) && i + 1 < |b| && !IsSpace(b[i + 1])
    ensures ParseValue(lib, b, i)
            == if b[i + 1] == 0x7D then Good(Obj([]), i + 2) else ParseFields(lib, b, i + 1, [])
  {
    assert SkipWs(b, i) == i && SkipWs(b, i + 1) == i + 1;
  }

  // -- the induction over the value --

  /** The printed form of a value parses to it and no further, whatever delimiter follows. */
  lemma {:induction false} ValueParses(lib: Lib, b: seq<u8>, i: nat, v: Json, t: seq<u8>, c: u8)
    requires t == Write(lib, v) && Printable(lib, v) && Starts(b, i, t)
    requires i + |t| == |b| || (b[i + |t|] == c && Delimiter(c))
    ensures ParseValue(lib, b, i) == Good(Garble(v), i + |t|)
    decreases v, 3, 0
  {
    match v
    case Null => LiteralParses(lib, b, i, v);
    case Bool(_) => LiteralParses(lib, b, i, v);
    case Num(n) => NumberParses(lib, b, i, n);
    case Str(s) => StringParses(lib, b, i, s);
    case Arr(_) => ArrayParses(lib, b, i, v);
    case Obj(_) => ObjectParses(lib, b, i, v);
  }

  lemma {:induction false} ArrayParses(lib: Lib, b: seq<u8>, i: nat, v: Json)
    requires v.Arr? && Printable(lib, v) && Starts(b, i, Write(lib, v))
    ensures ParseValue(lib, b, i) == Good(Garble(v), i + |Write(lib, v)|)
    decreases v, 2, 0
  {
    var rest := WriteItems(lib, v, 0);
    StartsAt(b, i, [0x5B] + rest, 0);
    StartsSplit(b, i, [0x5B], rest);
    if v.items == [] {
      StartsAt(b, i + 1, rest, 0);
      assert Garble(v) == Arr([]);
    } else {
      ItemsText(lib, v, 0);
      FirstByte(lib, v.items[0]);
      var text := ItemText(lib, v, 0);
      assert rest == text;
      StartsAt(b, i + 1, text, 0);
      ItemsParse(lib, b, i + 1, v);
    }
    ArrayOpens(lib, b, i);
  }

  /** Item `k` without a comma before it, and what follows it. */
  function ItemText(lib: Lib, v: Json, k: nat): seq<u8>
    requires v.Arr? && k < |v.items|
  {
    Write(lib, v.items[k]) + WriteItems(lib, v, k + 1)
  }

  lemma ItemsText(lib: Lib, v: Json, k: nat)
    requires v.Arr? && k < |v.items|
    ensures WriteItems(lib, v, k) == Separator(k) + ItemText(lib, v, k)
  {
  }

  /** One item: where it is, and what comes next. */
  lemma ItemSplit(lib: Lib, b: seq<u8>, i: nat, v: Json, k: nat, text: seq<u8>, e: nat, c: u8)
    requires v.Arr? && k < |v.items| && Starts(b, i, ItemText(lib, v, k)) && text == Write(lib, v.items[k])
    requires e == i + |text| && c == if k + 1 == |v.items| then 0x5D else COMMA
    ensures Starts(b, i, text)
    ensures Starts(b, e, WriteItems(lib, v, k + 1)) && At(b, e, c)
    ensures i + |ItemText(lib, v, k)| == e + |WriteItems(lib, v, k + 1)|
  {
    var rest := WriteItems(lib, v, k + 1);
    StartsSplit(b, i, text, rest);
    ItemsRest(lib, v, k + 1);
    StartsAt(b, e, rest, 0);
  }

  lemma ItemsLength(lib: Lib, v: Json, k: nat)
    requires v.Arr? && k < |v.items|
    ensures |WriteItems(lib, v, k + 1)| == 1 + if k + 1 < |v.items| then |ItemText(lib, v, k + 1)| else 0
    ensures k + 1 < |v.items| ==> WriteItems(lib, v, k + 1) == [COMMA] + ItemText(lib, v, k + 1)
  {
    if k + 1 < |v.items| { ItemsText(lib, v, k + 1); }
  }

  /** After item `k` the loop goes on with the next, or the array is done. */
  lemma ItemTurn(lib: Lib, b: seq<u8>, i: nat, v: Json, k: nat, e: nat, c: u8)
    requires v.Arr? && k < |v.items| && i <= |b|
    requires ParseValue(lib, b, i) == Good(Garble(v.items[k]), e)
    requires c == (if k + 1 == |v.items| then 0x5D else COMMA) && At(b, e, c)
    requires i + |ItemText(lib, v, k)| == e + |WriteItems(lib, v, k + 1)|
    ensures |Garble(v).items| == |v.items|
    ensures var r := ParseItems(lib, b, i, Garble(v).items[..k]);
            if k + 1 == |v.items| then r == Good(Garble(v), i + |ItemText(lib, v, k)|)
            else i + |ItemText(lib, v, k)| == e + 1 + |ItemText(lib, v, k + 1)|
                 && r == ParseItems(lib, b, e + 1, Garble(v).items[..k + 1])
  {
    ItemsGrow(v, k);
    ItemsLength(lib, v, k);
    ItemsStep(lib, b, i, Garble(v).items[..k], Garble(v.items[k]), e);
  }

  /** One turn of the loop: the array is done, or item `k + 1` is next. */
  lemma {:induction false} ItemNext(lib: Lib, b: seq<u8>, i: nat, v: Json, k: nat, e: nat)
    requires v.Arr? && Printable(lib, v) && k < |v.items|
    requires Starts(b, i, ItemText(lib, v, k)) && e == i + |Write(lib, v.items[k])|
    ensures i <= |b| && |Garble(v).items| == |v.items|
    ensures Starts(b, e, WriteItems(lib, v, k + 1)) && e < |b|
    ensures var r := ParseItems(lib, b, i, Garble(v).items[..k]);
            if k + 1 == |v.items| then r == Good(Garble(v), i + |ItemText(lib, v, k)|)
            else i + |ItemText(lib, v, k)| == e + 1 + |ItemText(lib, v, k + 1)|
                 && r == ParseItems(lib, b, e + 1, Garble(v).items[..k + 1])
    decreases v, 0, 0
  {
    var text := Write(lib, v.items[k]);
    var c: u8 := if k + 1 == |v.items| then 0x5D else COMMA;
    ItemSplit(lib, b, i, v, k, text, e, c);
    assert Printable(lib, v.items[k]);
    ValueParses(lib, b, i, v.items[k], text, c);
    ItemTurn(lib, b, i, v, k, e, c);
  }

  lemma NextItem(lib: Lib, b: seq<u8>, v: Json, k: nat, e: nat, t: seq<u8>)
    requires v.Arr? && k + 1 < |v.items| && t == ItemText(lib, v, k + 1)
    requires Starts(b, e, WriteItems(lib, v, k + 1))
    ensures Starts(b, e + 1, t)
  {
    ItemsLength(lib, v, k);
    StartsSplit(b, e, [COMMA], t);
  }

  /** The loop of the parser with the first `k` items read, and the text it then stands at. */
  function ItemLoop(lib: Lib, b: seq<u8>, got: seq<Json>, i: nat, k: nat): Parsed<Json> {
    if i <= |b| && k <= |got| then ParseItems(lib, b, i, got[..k]) else Bad(UnexpectedEnd)
  }

  function ItemTextAt(lib: Lib, v: Json, k: nat): seq<u8> {
    if v.Arr? && k < |v.items| then ItemText(lib, v, k) else []
  }

  lemma {:induction false} ItemTurnAt(lib: Lib, b: seq<u8>, v: Json, i: nat, k: nat, e: nat,
                                      loop: (nat, nat) -> Parsed<Json>, text: nat -> seq<u8>, t: seq<u8>)
    requires v.Arr? && Printable(lib, v) && k < |v.items| && t == ItemText(lib, v, k) && Starts(b, i, t)
    requires text(k) == t && text(k + 1) == ItemTextAt(lib, v, k + 1)
    requires e == i + |Write(lib, v.items[k])|
    requires loop(i, k) == ItemLoop(lib, b, Garble(v).items, i, k)
    requires loop(e + 1, k + 1) == ItemLoop(lib, b, Garble(v).items, e + 1, k + 1)
    ensures TurnAt(b, loop, text, |v.items|, Garble(v), i, k)
    decreases v, 0, 2
  {
    ItemNext(lib, b, i, v, k, e);
    if k + 1 < |v.items| {
      NextItem(lib, b, v, k, e, text(k + 1));
      assert MovesTo(b, loop, text, i, k, e + 1);
    }
  }

  /** ... for every turn. */
  lemma {:induction false} ItemTurns(lib: Lib, b: seq<u8>, v: Json, got: seq<Json>,
                                     loop: (nat, nat) -> Parsed<Json>, text: nat -> seq<u8>)
    requires v.Arr? && Printable(lib, v) && Garble(v) == Arr(got)
    requires forall i, k :: loop(i, k) == ItemLoop(lib, b, got, i, k)
    requires forall k :: text(k) == ItemTextAt(lib, v, k)
    ensures forall i: nat, k: nat {:trigger TurnAt(b, loop, text, |v.items|, Arr(got), i, k)} ::
              k < |v.items| && Starts(b, i, text(k)) ==> TurnAt(b, loop, text, |v.items|, Arr(got), i, k)
    decreases v, 0, 3
  {
    forall i: nat, k: nat | k < |v.items| && Starts(b, i, text(k))
      ensures TurnAt(b, loop, text, |v.items|, Arr(got), i, k)
    {
      ItemTurnAt(lib, b, v, i, k, i + |Write(lib, v.items[k])|, loop, text, text(k));
    }
  }

  /** All the items, from the first on. */
  lemma {:induction false} ItemsParse(lib: Lib, b: seq<u8>, i: nat, v: Json)
    requires v.Arr? && Printable(lib, v) && v.items != []
    requires Starts(b, i, ItemText(lib, v, 0))
    ensures ParseItems(lib, b, i, []) == Good(Garble(v), i + |ItemText(lib, v, 0)|)
    decreases v, 1, 0
  {
    var got := Garble(v).items;
    var loop := (i: nat, k: nat) => ItemLoop(lib, b, got, i, k);
    var text := (k: nat) => ItemTextAt(lib, v, k);
    ItemTurns(lib, b, v, got, loop, text);
    LoopParses(b, loop, text, |v.items|, Arr(got), i, 0);
    assert got[..0] == [];
  }

  lemma ItemsGrow(v: Json, k: nat)
    requires v.Arr? && k < |v.items|
    ensures |Garble(v).items| == |v.items|
    ensures Garble(v).items[..k] + [Garble(v.items[k])] == Garble(v).items[..k + 1]
    ensures k + 1 == |v.items| ==> Garble(v).items[..k + 1] == Garble(v).items
  {
  }

  lemma ItemsRest(lib: Lib, v: Json, k: nat)
    requires v.Arr? && 0 < k <= |v.items|
    ensures var t := WriteItems(lib, v, k); t != [] && t[0] == if k == |v.items| then 0x5D else COMMA
  {
  }

  lemma {:induction false} ObjectParses(lib: Lib, b: seq<u8>, i: nat, v: Json)
    requires v.Obj? && Printable(lib, v) && Starts(b, i, Write(lib, v))
    ensures ParseValue(lib, b, i) == Good(Garble(v), i + |Write(lib, v)|)
    decreases v, 2, 0
  {
    var rest := WriteFields(lib, v, 0);
    StartsAt(b, i, [0x7B] + rest, 0);
    StartsSplit(b, i, [0x7B], rest);
    if v.fields == [] {
      StartsAt(b, i + 1, rest, 0);
      assert Garble(v) == Obj([]);
    } else {
      FieldsText(lib, v, 0);
      var text := FieldText(lib, v, 0);
      assert rest == text;
      StartsAt(b, i + 1, text, 0);
      FieldsParse(lib, b, i + 1, v);
    }
    ObjectOpens(lib, b, i);
  }

  function KeyText(v: Json, k: nat): (t: seq<u8>)
    requires v.Obj? && k < |v.fields|
    ensures t != [] && t[0] == QUOTE
  {
    WriteString(v.fields[k].key) + [COLON]
  }

  /** Field `k` without a comma before it, and what follows it. */
  function FieldText(lib: Lib, v: Json, k: nat): seq<u8>
    requires v.Obj? && k < |v.fields|
  {
    KeyText(v, k) + (Write(lib, v.fields[k].value) + WriteFields(lib, v, k + 1))
  }

  lemma FieldsText(lib: Lib, v: Json, k: nat)
    requires v.Obj? && k < |v.fields|
    ensures WriteFields(lib, v, k) == Separator(k) + FieldText(lib, v, k)
  {
  }

  /** One field: its key, where its value is, and what comes next. */
  lemma FieldSplit(lib: Lib, b: seq<u8>, i: nat, v: Json, k: nat, text: seq<u8>, j: nat, e: nat, c: u8)
    requires v.Obj? && k < |v.fields|
    requires Starts(b, i, FieldText(lib, v, k))
    requires text == Write(lib, v.fields[k].value) && j == i + |KeyText(v, k)| && e == j + |text|
    requires c == if k + 1 == |v.fields| then 0x7D else COMMA
    ensures i <= |b| && ParseKey(b, i) == Good(GarbleText(v.fields[k].key), j)
    ensures Starts(b, j, text)
    ensures Starts(b, e, WriteFields(lib, v, k + 1)) && At(b, e, c)
    ensures i + |FieldText(lib, v, k)| == e + |WriteFields(lib, v, k + 1)|
  {
    var rest := WriteFields(lib, v, k + 1);
    FieldPlaces(b, i, KeyText(v, k), text, rest, j, e);
    KeyParses(b, i, v.fields[k].key);
    FieldsRest(lib, v, k + 1);
    StartsAt(b, e, rest, 0);
  }

  lemma FieldPlaces(b: seq<u8>, i: nat, key: seq<u8>, text: seq<u8>, rest: seq<u8>, j: nat, e: nat)
    requires Starts(b, i, key + (text + rest)) && j == i + |key| && e == j + |text|
    ensures Starts(b, i, key) && Starts(b, j, text) && Starts(b, e, rest)
  {
    StartsSplit(b, i, key, text + rest);
    StartsSplit(b, j, text, rest);
  }

  /** The length of what follows field `k`. */
  lemma FieldsLength(lib: Lib, v: Json, k: nat)
    requires v.Obj? && k < |v.fields|
    ensures |WriteFields(lib, v, k + 1)| == 1 + if k + 1 < |v.fields| then |FieldText(lib, v, k + 1)| else 0
    ensures k + 1 < |v.fields| ==> WriteFields(lib, v, k + 1) == [COMMA] + FieldText(lib, v, k + 1)
  {
    if k + 1 < |v.fields| { FieldsText(lib, v, k + 1); }
  }

  lemma {:induction false} FieldValue(lib: Lib, b: seq<u8>, j: nat, v: Json, k: nat, text: seq<u8>, e: nat, c: u8)
    requires v.Obj? && Printable(lib, v) && k < |v.fields| && text == Write(lib, v.fields[k].value)
    requires Starts(b, j, text) && e == j + |text| && At(b, e, c) && Delimiter(c)
    ensures j <= |b| && ParseValue(lib, b, j) == Good(Garble(v.fields[k].value), e)
    decreases v, 0, 0
  {
    assert Printable(lib, v.fields[k].value);
    ValueParses(lib, b, j, v.fields[k].value, text, c);
  }

  /** Field `k` is parsed, key and value, up to what comes next. */
  lemma {:induction false} FieldParses(lib: Lib, b: seq<u8>, i: nat, v: Json, k: nat, text: seq<u8>, j: nat, e: nat, c: u8)
    requires v.Obj? && Printable(lib, v) && k < |v.fields|
    requires Starts(b, i, FieldText(lib, v, k))
    requires text == Write(lib, v.fields[k].value) && j == i + |KeyText(v, k)| && e == j + |text|
    requires c == if k + 1 == |v.fields| then 0x7D else COMMA
    ensures i <= |b| && ParseKey(b, i) == Good(GarbleText(v.fields[k].key), j)
    ensures j <= |b| && ParseValue(lib, b, j) == Good(Garble(v.fields[k].value), e)
    ensures Starts(b, e, WriteFields(lib, v, k + 1)) && At(b, e, c)
    ensures i + |FieldText(lib, v, k)| == e + |WriteFields(lib, v, k + 1)|
    decreases v, 0, 1
  {
    FieldSplit(lib, b, i, v, k, text, j, e, c);
    FieldValue(lib, b, j, v, k, text, e, c);
  }

  /** One turn of the loop: the object is done, or field `k + 1` is next. */
  lemma {:induction false} FieldNext(lib: Lib, b: seq<u8>, i: nat, v: Json, k: nat, e: nat)
    requires v.Obj? && Printable(lib, v) && k < |v.fields|
    requires Starts(b, i, FieldText(lib, v, k))
    requires e == i + |KeyText(v, k)| + |Write(lib, v.fields[k].value)|
    ensures i <= |b| && |Garble(v).fields| == |v.fields|
    ensures Starts(b, e, WriteFields(lib, v, k + 1)) && e < |b|
    ensures var r := ParseFields(lib, b, i, Garble(v).fields[..k]);
            if k + 1 == |v.fields| then r == Good(Garble(v), i + |FieldText(lib, v, k)|)
            else i + |FieldText(lib, v, k)| == e + 1 + |FieldText(lib, v, k + 1)|
                 && r == ParseFields(lib, b, e + 1, Garble(v).fields[..k + 1])
    decreases v, 0, 2
  {
    var text := Write(lib, v.fields[k].value);
    var j := i + |KeyText(v, k)|;
    var c: u8 := if k + 1 == |v.fields| then 0x7D else COMMA;
    FieldParses(lib, b, i, v, k, text, j, e, c);
    FieldTurn(lib, b, i, v, k, j, e, c);
  }

  lemma NextField(lib: Lib, b: seq<u8>, v: Json, k: nat, e: nat, t: seq<u8>)
    requires v.Obj? && k + 1 < |v.fields| && t == FieldText(lib, v, k + 1)
    requires Starts(b, e, WriteFields(lib, v, k + 1))
    ensures Starts(b, e + 1, t)
  {
    FieldsLength(lib, v, k);
    StartsSplit(b, e, [COMMA], t);
  }

  /** The loop of the parser with the first `k` fields read, and the text it then stands at. */
  function FieldLoop(lib: Lib, b: seq<u8>, got: seq<Field>, i: nat, k: nat): Parsed<Json> {
    if i <= |b| && k <= |got| then ParseFields(lib, b, i, got[..k]) else Bad(UnexpectedEnd)
  }

  function FieldTextAt(lib: Lib, v: Json, k: nat): seq<u8> {
    if v.Obj? && k < |v.fields| then FieldText(lib, v, k) else []
  }

  lemma {:induction false} FieldTurnAt(lib: Lib, b: seq<u8>, v: Json, i: nat, k: nat, e: nat,
                                      loop: (nat, nat) -> Parsed<Json>, text: nat -> seq<u8>, t: seq<u8>)
    requires v.Obj? && Printable(lib, v) && k < |v.fields| && t == FieldText(lib, v, k) && Starts(b, i, t)
    requires text(k) == t && text(k + 1) == FieldTextAt(lib, v, k + 1)
    requires e == i + |KeyText(v, k)| + |Write(lib, v.fields[k].value)|
    requires loop(i, k) == FieldLoop(lib, b, Garble(v).fields, i, k)
    requires loop(e + 1, k + 1) == FieldLoop(lib, b, Garble(v).fields, e + 1, k + 1)
    ensures TurnAt(b, loop, text, |v.fields|, Garble(v), i, k)
    decreases v, 0, 3
  {
    FieldNext(lib, b, i, v, k, e);
    if k + 1 < |v.fields| {
      NextField(lib, b, v, k, e, text(k + 1));
      assert MovesTo(b, loop, text, i, k, e + 1);
    }
  }

  /** ... for every turn. */
  lemma {:induction false} FieldTurns(lib: Lib, b: seq<u8>, v: Json, got: seq<Field>,
                                     loop: (nat, nat) -> Parsed<Json>, text: nat -> seq<u8>)
    requires v.Obj? && Printable(lib, v) && Garble(v) == Obj(got)
    requires forall i, k :: loop(i, k) == FieldLoop(lib, b, got, i, k)
    requires forall k :: text(k) == FieldTextAt(lib, v, k)
    ensures forall i: nat, k: nat {:trigger TurnAt(b, loop, text, |v.fields|, Obj(got), i, k)} ::
              k < |v.fields| && Starts(b, i, text(k)) ==> TurnAt(b, loop, text, |v.fields|, Obj(got), i, k)
    decreases v, 0, 4
  {
    forall i: nat, k: nat | k < |v.fields| && Starts(b, i, text(k))
      ensures TurnAt(b, loop, text, |v.fields|, Obj(got), i, k)
    {
      FieldTurnAt(lib, b, v, i, k, i + |KeyText(v, k)| + |Write(lib, v.fields[k].value)|, loop, text, text(k));
    }
  }

  /** All the fields, from the first on. */
  lemma {:induction false} FieldsParse(lib: Lib, b: seq<u8>, i: nat, v: Json)
    requires v.Obj? && Printable(lib, v) && v.fields != []
    requires Starts(b, i, FieldText(lib, v, 0))
    ensures ParseFields(lib, b, i, []) == Good(Garble(v), i + |FieldText(lib, v, 0)|)
    decreases v, 1, 0
  {
    var got := Garble(v).fields;
    var loop := (i: nat, k: nat) => FieldLoop(lib, b, got, i, k);
    var text := (k: nat) => FieldTextAt(lib, v, k);
    FieldTurns(lib, b, v, got, loop, text);
    LoopParses(b, loop, text, |v.fields|, Obj(got), i, 0);
    assert got[..0] == [];
  }

  /** After field `k` the loop goes on with the next, or the object is done. */
  lemma FieldTurn(lib: Lib, b: seq<u8>, i: nat, v: Json, k: nat, j: nat, e: nat, c: u8)
    requires v.Obj? && k < |v.fields| && i <= |b| && j <= |b|
    requires ParseKey(b, i) == Good(GarbleText(v.fields[k].key), j)
    requires ParseValue(lib, b, j) == Good(Garble(v.fields[k].value), e)
    requires c == (if k + 1 == |v.fields| then 0x7D else COMMA) && At(b, e, c)
    requires i + |FieldText(lib, v, k)| == e + |WriteFields(lib, v, k + 1)|
    ensures |Garble(v).fields| == |v.fields|
    ensures var r := ParseFields(lib, b, i, Garble(v).fields[..k]);
            if k + 1 == |v.fields| then r == Good(Garble(v), i + |FieldText(lib, v, k)|)
            else i + |FieldText(lib, v, k)| == e + 1 + |FieldText(lib, v, k + 1)|
                 && r == ParseFields(lib, b, e + 1, Garble(v).fields[..k + 1])
  {
    var field := v.fields[k];
    FieldsGrow(v, k);
    FieldsLength(lib, v, k);
    FieldsStep(lib, b, i, Garble(v).fields[..k], GarbleText(field.key), j, Garble(field.value), e);
  }

  lemma FieldsGrow(v: Json, k: nat)
    requires v.Obj? && k < |v.fields|
    ensures |Garble(v).fields| == |v.fields|
    ensures Garble(v).fields[..k] + [Field(GarbleText(v.fields[k].key), Garble(v.fields[k].value))]
            == Garble(v).fields[..k + 1]
    ensures k + 1 == |v.fields| ==> Garble(v).fields[..k + 1] == Garble(v).fields
  {
  }

  lemma FieldsRest(lib: Lib, v: Json, k: nat)
    requires v.Obj? && 0 < k <= |v.fields|
    ensures var t := WriteFields(lib, v, k); t != [] && t[0] == if k == |v.fields| then 0x7D else COMMA
  {
  }

  /** Printing and parsing: a value comes back with each string's UTF-8 bytes as characters, so it
      comes back unchanged exactly when its strings and keys are ASCII. */
  lemma RoundTrip(lib: Lib, v: Json)
    requires Printable(lib, v)
    ensures Parse(lib, Write(lib, v)) == Ok(Garble(v))
    ensures Parse(lib, Write(lib, v)) == Ok(v) <==> Ascii(v)
  {
    var b := Write(lib, v);
    assert b[0..|b|] == b;
    ValueParses(lib, b, 0, v, b, COMMA);
    GarbleIff(v);
  }

  /** All the numbers of a value are integers below 10^15 in magnitude. */
  predicate SmallIntegers(v: Json)
    decreases v
  {
    match v
    case Num(n) => n.Whole? && n.Valid()
    case Arr(items) => forall i :: 0 <= i < |items| ==> SmallIntegers(items[i])
    case Obj(fields) => forall i :: 0 <= i < |fields| ==> SmallIntegers(fields[i].value)
    case _ => true
  }

  /** Such values are printable, whatever the library does with other numbers. */
  lemma {:induction false} SmallPrintable(lib: Lib, v: Json)
    requires SmallIntegers(v)
    ensures Printable(lib, v)
    decreases v
  {
    match v
    case Num(n) => WholeReadable(lib, n);
    case Arr(items) =>
      forall i | 0 <= i < |items|
        ensures Printable(lib, items[i])
      {
        SmallPrintable(lib, items[i]);
      }
    case Obj(fields) =>
      forall i | 0 <= i < |fields|
        ensures Printable(lib, fields[i].value)
      {
        SmallPrintable(lib, fields[i].value);
      }
    case _ =>
  }

  /** The promised round trip. */
  lemma AsciiRoundTrip(lib: Lib, v: Json)
    requires SmallIntegers(v)
    ensures Parse(lib, Write(lib, v)) == Ok(v) <==> Ascii(v)
  {
    SmallPrintable(lib, v);
    RoundTrip(lib, v);
  }
}
