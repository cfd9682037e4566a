/** The JSON writer and parser with the loops of the source.

    The writer appends to `out`; each parser starts at `start` and returns the position it has advanced to,
    together with the value or the error the source would return there. Both are proved against the
    functions of `Json`, error for error. */
module JsonCode {
  import opened Words
  import opened Json

  // ---- writing ----

  method WriteJsonString(s: string, out0: seq<u8>) returns (out: seq<u8>)
    ensures out == out0 + WriteString(s)
  {
    out := out0 + [QUOTE];
    for k := 0 to |s|
      invariant out + WriteChars(s[k..]) == out0 + WriteString(s)
    {
      assert s[k..][0] == s[k] && s[k..][1..] == s[k + 1..];
      assert out + WriteChars(s[k..]) == (out + WriteChar(s[k])) + WriteChars(s[k + 1..]);
      out := out + WriteChar(s[k]);
    }
    out := out + [QUOTE];
  }

  method WriteJson(lib: Lib, v: Json, out0: seq<u8>) returns (out: seq<u8>)
    ensures out == out0 + Write(lib, v)
    decreases v
  {
    match v
    case Null => out := out0 + NullText();
    case Bool(b) => out := out0 + if b then TrueText() else FalseText();
    case Num(n) => out := out0 + WriteNumber(lib, n);
    case Str(s) => out := WriteJsonString(s, out0);
    case Arr(items) =>
      out := out0 + [0x5B];
      for i := 0 to |items|
        invariant out + WriteItems(lib, v, i) == out0 + Write(lib, v)
      {
        ghost var rest := WriteItems(lib, v, i + 1);
        ghost var before := out;
        if i > 0 { out := out + [COMMA]; }
        assert out == before + Separator(i);
        out := WriteJson(lib, items[i], out);
        Joined(before, Separator(i), Write(lib, items[i]), rest);
      }
      out := out + [0x5D];
    case Obj(fields) =>
      out := out0 + [0x7B];
      for i := 0 to |fields|
        invariant out + WriteFields(lib, v, i) == out0 + Write(lib, v)
      {
        out := WriteField(lib, v, i, out);
      }
      out := out + [0x7D];
  }

  /** The body of the object loop. */
  method WriteField(lib: Lib, v: Json, i: nat, out0: seq<u8>) returns (out: seq<u8>)
    requires v.Obj? && i < |v.fields|
    ensures out + WriteFields(lib, v, i + 1) == out0 + WriteFields(lib, v, i)
    decreases v, 0
  {
    var field := v.fields[i];
    out := out0;
    if i > 0 { out := out + [COMMA]; }
    assert out == out0 + Separator(i);
    out := WriteJsonString(field.key, out);
    out := out + [COLON];
    out := WriteJson(lib, field.value, out);
    JoinedField(out0, Separator(i), WriteString(field.key), Write(lib, field.value), WriteFields(lib, v, i + 1));
  }

  lemma JoinedField(a: seq<u8>, s: seq<u8>, key: seq<u8>, t: seq<u8>, rest: seq<u8>)
    ensures ((((a + s) + key) + [COLON]) + t) + rest == a + (s + key + [COLON] + t + rest)
  {
  }

  lemma Joined(a: seq<u8>, s: seq<u8>, t: seq<u8>, rest: seq<u8>)
    ensures ((a + s) + t) + rest == a + (s + t + rest)
  {
  }

  // ---- parsing ----

  method SkipSpace(b: seq<u8>, start: nat) returns (i: nat)
    requires start <= |b|
    ensures i == SkipWs(b, start)
  {
    i := start;
    while i < |b|
      invariant start <= i <= |b| && SkipWs(b, i) == SkipWs(b, start)
    {
      if IsSpace(b[i]) { i := i + 1; } else { break; }
    }
  }

  method Expect(b: seq<u8>, start: nat, lit: seq<u8>) returns (r: Result<(), JsonError>, i: nat)
    ensures r == if Starts(b, start, lit) then Ok(()) else Err(Expected(lit))
    ensures i == if r.Ok? then start + |lit| else start
  {
    if |b| >= start + |lit| && b[start..start + |lit|] == lit {
      return Ok(()), start + |lit|;
    }
    return Err(Expected(lit)), start;
  }

  /** The result of a parser as the source returns it: a value and the advanced position, or an error. */
  predicate Yields<T(==)>(r: Result<T, JsonError>, i: nat, p: Parsed<T>) {
    match p
    case Good(v, next) => r == Ok(v) && i == next
    case Bad(e) => r == Err(e)
  }

  method ParseJsonString(b: seq<u8>, start: nat) returns (r: Result<string, JsonError>, i: nat)
    requires start < |b|
    ensures Yields(r, i, ParseChars(b, start + 1, []))
  {
    i := start + 1;
    var s: string := [];
    while i < |b|
      invariant start < i <= |b| && ParseChars(b, i, s) == ParseChars(b, start + 1, [])
    {
      var c := b[i];
      if c == QUOTE { return Ok(s), i + 1; }
      if c == BACKSLASH {
        var e := ParseEscape(b, i + 1);
        if e.Bad? { return Err(e.e), i; }
        s, i := s + [e.v], e.next;
        continue;
      }
      s, i := s + [b[i] as char], i + 1;
    }
    r := Err(UnterminatedString);
  }

  method SkipDigits(b: seq<u8>, start: nat) returns (i: nat)
    requires start <= |b|
    ensures i == DigitsEnd(b, start)
  {
    i := start;
    while i < |b| && IsDigit(b[i])
      invariant start <= i <= |b| && DigitsEnd(b, i) == DigitsEnd(b, start)
    {
      i := i + 1;
    }
  }

  method ParseJsonNumber(lib: Lib, b: seq<u8>, start: nat) returns (r: Result<Number, JsonError>, i: nat)
    requires start < |b| && (b[start] == MINUS || IsDigit(b[start]))
    ensures Yields(r, i, ParseNumber(lib, b, start))
  {
    i := SkipNumber(b, start);
    var n := ReadNumber(lib, b[start..i]);
    r := if n.Some? then Ok(n.value) else Err(InvalidNumber);
  }

  /** The scan of the number token. */
  method SkipNumber(b: seq<u8>, start: nat) returns (i: nat)
    requires start <= |b|
    ensures i == NumberEnd(b, start)
  {
    i := start;
    if i < |b| && b[i] == MINUS { i := i + 1; }
    ghost var i1 := i;
    assert i1 == AfterSign(b, start);
    i := SkipDigits(b, i);
    ghost var i2 := i;
    if i < |b| && b[i] == 0x2E {
      i := SkipDigits(b, i + 1);
    }
    ghost var i3 := i;
    assert i3 == AfterFraction(b, i2);
    if i < |b| && (b[i] == 0x65 || b[i] == 0x45) {
      i := SkipExponent(b, i);
    }
    assert i == AfterExponent(b, i3);
  }

  method SkipExponent(b: seq<u8>, start: nat) returns (i: nat)
    requires start < |b| && (b[start] == 0x65 || b[start] == 0x45)
    ensures i == AfterExponent(b, start)
  {
    i := start + 1;
    if i < |b| && (b[i] == 0x2B || b[i] == MINUS) { i := i + 1; }
    i := SkipDigits(b, i);
  }

  method ParseJsonValue(lib: Lib, b: seq<u8>, start: nat) returns (r: Result<Json, JsonError>, i: nat)
    requires start <= |b|
    ensures Yields(r, i, ParseValue(lib, b, start))
    decreases |b| - start, 0
  {
    i := SkipSpace(b, start);
    if i >= |b| { return Err(UnexpectedEnd), i; }
    var c := b[i];
    if c == QUOTE {
      var s;
      s, i := ParseJsonString(b, i);
      r := if s.Ok? then Ok(Str(s.value)) else Err(s.error);
    } else if c == 0x7B {
      r, i := ParseJsonObject(lib, b, i);
    } else if c == 0x5B {
      r, i := ParseJsonArray(lib, b, i);
    } else if c == 0x74 || c == 0x66 || c == 0x6E {
      r, i := ParseWord(b, i);
    } else if c == MINUS || IsDigit(c) {
      var n;
      n, i := ParseJsonNumber(lib, b, i);
      r := if n.Ok? then Ok(Num(n.value)) else Err(n.error);
    } else {
      r := Err(UnexpectedCharacter(c));
    }
  }

  /** `true`, `false` and `null`. */
  method ParseWord(b: seq<u8>, start: nat) returns (r: Result<Json, JsonError>, i: nat)
    requires start < |b| && (b[start] == 0x74 || b[start] == 0x66 || b[start] == 0x6E)
    ensures Yields(r, i, if b[start] == 0x74 then Literal(b, start, TrueText(), Bool(true))
                         else if b[start] == 0x66 then Literal(b, start, FalseText(), Bool(false))
                         else Literal(b, start, NullText(), Null))
  {
    var done;
    if b[start] == 0x74 {
      done, i := Expect(b, start, TrueText());
      r := if done.Ok? then Ok(Bool(true)) else Err(done.error);
    } else if b[start] == 0x66 {
      done, i := Expect(b, start, FalseText());
      r := if done.Ok? then Ok(Bool(false)) else Err(done.error);
    } else {
      done, i := Expect(b, start, NullText());
      r := if done.Ok? then Ok(Null) else Err(done.error);
    }
  }

  method ParseJsonArray(lib: Lib, b: seq<u8>, start: nat) returns (r: Result<Json, JsonError>, i: nat)
    requires start < |b|
    ensures Yields(r, i, ParseArray(lib, b, start))
    decreases |b| - start - 1, 1
  {
    i := start + 1;
    var items: seq<Json> := [];
    i := SkipSpace(b, i);
    if i < |b| && b[i] == 0x5D { return Ok(Arr(items)), i + 1; }
    ghost var want := ParseArray(lib, b, start);
    while true
      invariant start < i <= |b| && RestOfItems(lib, b, i, items) == want
      decreases |b| - i
    {
      var v, next := ParseJsonValue(lib, b, i);
      if v.Err? { return v, next; }
      ghost var head, had := i, items;
      i := SkipSpace(b, next);
      items := items + [v.value];
      ItemRead(lib, b, head, had, v.value, next, i, items);
      if i >= |b| { return Err(UnterminatedArray), i; }
      if b[i] == COMMA {
        i := i + 1;
      } else if b[i] == 0x5D {
        return Ok(Arr(items)), i + 1;
      } else {
        return Err(ArrayDelimiter), i;
      }
    }
  }

  /** What the array loop yields from `i` on. */
  ghost function RestOfItems(lib: Lib, b: seq<u8>, i: nat, items: seq<Json>): Parsed<Json>
    requires i <= |b|
  {
    ParseItems(lib, b, i, items)
  }

  /** An item is read: what stands at `j`, after it, decides the turn. */
  lemma ItemRead(lib: Lib, b: seq<u8>, i: nat, items: seq<Json>, v: Json, next: nat, j: nat, read: seq<Json>)
    requires i <= |b| && ParseValue(lib, b, i) == Good(v, next) && next <= |b| && j == SkipWs(b, next)
    requires read == items + [v]
    ensures RestOfItems(lib, b, i, items)
            == if j >= |b| then Bad(UnterminatedArray)
               else if b[j] == COMMA then RestOfItems(lib, b, j + 1, read)
               else if b[j] == 0x5D then Good(Arr(read), j + 1)
               else Bad(ArrayDelimiter)
  {
  }

  method ParseJsonObject(lib: Lib, b: seq<u8>, start: nat) returns (r: Result<Json, JsonError>, i: nat)
    requires start < |b|
    ensures Yields(r, i, ParseObject(lib, b, start))
    decreases |b| - start - 1, 1
  {
    i := start + 1;
    var fields: seq<Field> := [];
    i := SkipSpace(b, i);
    if i < |b| && b[i] == 0x7D { return Ok(Obj(fields)), i + 1; }
    ghost var want := ParseObject(lib, b, start);
    while true
      invariant start < i <= |b| && RestOfFields(lib, b, i, fields) == want
      decreases |b| - i
    {
      var key, at := ParseJsonKey(b, i);
      if key.Err? { return Err(key.error), at; }
      var v, next := ParseJsonValue(lib, b, at);
      if v.Err? { return v, next; }
      ghost var head, had := i, fields;
      i := SkipSpace(b, next);
      fields := fields + [Field(key.value, v.value)];
      FieldRead(lib, b, head, had, key.value, at, v.value, next, i, fields);
      if i >= |b| { return Err(UnterminatedObject), i; }
      if b[i] == COMMA {
        i := i + 1;
      } else if b[i] == 0x7D {
        return Ok(Obj(fields)), i + 1;
      } else {
        return Err(ObjectDelimiter), i;
      }
    }
  }

  /** What the object loop yields from `i` on. */
  ghost function RestOfFields(lib: Lib, b: seq<u8>, i: nat, fields: seq<Field>): Parsed<Json>
    requires i <= |b|
  {
    ParseFields(lib, b, i, fields)
  }

  /** A key and a value are read: what stands at `j`, after them, decides the turn. */
  lemma FieldRead(lib: Lib, b: seq<u8>, i: nat, fields: seq<Field>, key: string, at: nat, v: Json, next: nat,
                  j: nat, read: seq<Field>)
    requires i <= |b| && ParseKey(b, i) == Good(key, at) && at <= |b|
    requires ParseValue(lib, b, at) == Good(v, next) && next <= |b| && j == SkipWs(b, next)
    requires read == fields + [Field(key, v)]
    ensures RestOfFields(lib, b, i, fields)
            == if j >= |b| then Bad(UnterminatedObject)
               else if b[j] == COMMA then RestOfFields(lib, b, j + 1, read)
               else if b[j] == 0x7D then Good(Obj(read), j + 1)
               else Bad(ObjectDelimiter)
  {
  }

  /** The key part of the object loop. */
  method ParseJsonKey(b: seq<u8>, start: nat) returns (r: Result<string, JsonError>, i: nat)
    requires start <= |b|
    ensures Yields(r, i, ParseKey(b, start))
  {
    i := SkipSpace(b, start);
    if i >= |b| || b[i] != QUOTE { return Err(KeyExpected), i; }
    r, i := ParseJsonString(b, i);
    if r.Err? { return; }
    i := SkipSpace(b, i);
    if i >= |b| || b[i] != COLON { return Err(ColonExpected), i; }
    i := i + 1;
  }

  method ParseJson(lib: Lib, bytes: seq<u8>) returns (r: Result<Json, JsonError>)
    ensures r == Parse(lib, bytes)
  {
    var v, i := ParseJsonValue(lib, bytes, 0);
    if v.Err? { return v; }
    i := SkipSpace(bytes, i);
    if i != |bytes| { return Err(TrailingData); }
    r := v;
  }
}
