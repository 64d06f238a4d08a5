/** The JSON this project writes and reads: strings, null and objects, printed with two-space
    indentation and the minimal escapes of section 7 of RFC 8259, and read back by a strict reader. */
module Json {
  import opened Common

  datatype Field = Field(key: string, value: Value)

  datatype Value = Null | Str(s: string) | Obj(fields: seq<Field>) | Arr(items: seq<Value>)

  // ---------------------------------------------------------------- printing

  function HexDigit(n: int): char
    requires 0 <= n < 16
  {
    "0123456789abcdef"[n]
  }

  function EscapeChar(c: char): string {
    var n := c as int;
    if c == '"' then "\\\""
    else if c == '\\' then "\\\\"
    else if n == 0x08 then "\\b"
    else if n == 0x0C then "\\f"
    else if c == '\n' then "\\n"
    else if c == '\r' then "\\r"
    else if c == '\t' then "\\t"
    else if n < 0x20 then "\\u00" + [HexDigit(n / 16), HexDigit(n % 16)]
    else [c]
  }

  function Escape(s: string): string {
    if s == "" then "" else EscapeChar(s[0]) + Escape(s[1..])
  }

  function Quote(s: string): string {
    "\"" + Escape(s) + "\""
  }

  function Spaces(n: nat): string {
    if n == 0 then "" else " " + Spaces(n - 1)
  }

  function NewLine(depth: nat): string {
    "\n" + Spaces(2 * depth)
  }

  /** Objects only: the writer is never given an array. */
  predicate Printable(v: Value) {
    match v
    case Obj(fields) => forall f :: f in fields ==> Printable(f.value)
    case Arr(_) => false
    case _ => true
  }

  function Print(v: Value, depth: nat): string
    requires Printable(v)
    decreases v, 0
  {
    match v
    case Null => "null"
    case Str(s) => Quote(s)
    case Obj(fields) =>
      if fields == [] then "{}"
      else "{" + NewLine(depth + 1) + PrintFields(fields, depth + 1) + NewLine(depth) + "}"
  }

  function PrintFields(fields: seq<Field>, depth: nat): string
    requires forall f :: f in fields ==> Printable(f.value)
    decreases fields, 1
  {
    if fields == [] then ""
    else
      Quote(fields[0].key) + ": " + Print(fields[0].value, depth)
      + (if |fields| == 1 then "" else "," + NewLine(depth) + PrintFields(fields[1..], depth))
  }

  // ---------------------------------------------------------------- reading

  predicate IsBlank(c: char) {
    c == ' ' || c == '\n' || c == '\t' || c == '\r'
  }

  function SkipBlank(s: string): (r: string)
    ensures |r| <= |s|
    ensures r != "" ==> !IsBlank(r[0])
  {
    if s != "" && IsBlank(s[0]) then SkipBlank(s[1..]) else s
  }

  function HexValue(c: char): Option<int> {
    if '0' <= c <= '9' then Some(c as int - '0' as int)
    else if 'a' <= c <= 'f' then Some(c as int - 'a' as int + 10)
    else if 'A' <= c <= 'F' then Some(c as int - 'A' as int + 10)
    else None
  }

  function Hex4(s: string): (r: Option<int>)
    ensures r.Some? ==> |s| >= 4
  {
    if |s| < 4 then None
    else
      var a, b, c, d := HexValue(s[0]), HexValue(s[1]), HexValue(s[2]), HexValue(s[3]);
      if a.None? || b.None? || c.None? || d.None? then None
      else Some(((a.value * 16 + b.value) * 16 + c.value) * 16 + d.value)
  }

  predicate IsHigh(n: int) { 0xD800 <= n < 0xDC00 }

  predicate IsLow(n: int) { 0xDC00 <= n < 0xE000 }

  /** The character after a backslash, and how much text it took; a lone surrogate is refused. */
  function ReadEscape(s: string): (r: Option<(char, nat)>)
    ensures r.Some? ==> 1 <= r.value.1 <= |s|
  {
    if s == "" then None
    else if s[0] == '"' || s[0] == '\\' || s[0] == '/' then Some((s[0], 1))
    else if s[0] == 'b' then Some((0x08 as char, 1))
    else if s[0] == 'f' then Some((0x0C as char, 1))
    else if s[0] == 'n' then Some(('\n', 1))
    else if s[0] == 'r' then Some(('\r', 1))
    else if s[0] == 't' then Some(('\t', 1))
    else if s[0] != 'u' then None
    else
      var n := Hex4(s[1..]);
      if n.None? || n.value < 0 || n.value > 0xFFFF || IsLow(n.value) then None
      else if !IsHigh(n.value) then Some((n.value as char, 5))
      else if |s| < 11 || s[5] != '\\' || s[6] != 'u' then None
      else
        var low := Hex4(s[7..]);
        if low.None? || !IsLow(low.value) then None
        else Some(((0x1_0000 + (n.value - 0xD800) * 0x400 + (low.value - 0xDC00)) as char, 11))
  }

  /** The rest of a string after its opening quote; control characters must be escaped. */
  function ReadString(s: string): (r: Option<(string, string)>)
    ensures r.Some? ==> |r.value.1| < |s|
    decreases |s|
  {
    if s == "" then None
    else if s[0] == '"' then Some(("", s[1..]))
    else if s[0] == '\\' then
      match ReadEscape(s[1..])
      case None => None
      case Some((c, n)) =>
        match ReadString(s[1 + n..])
        case None => None
        case Some((rest, after)) => Some(([c] + rest, after))
    else if s[0] as int < 0x20 then None
    else
      match ReadString(s[1..])
      case None => None
      case Some((rest, after)) => Some(([s[0]] + rest, after))
  }

  function ReadValue(s: string): (r: Option<(Value, string)>)
    ensures r.Some? ==> |r.value.1| < |s|
    decreases |s|, 0
  {
    if s == "" then None
    else if s[0] == '"' then
      match ReadString(s[1..])
      case None => None
      case Some((str, after)) => Some((Str(str), after))
    else if StartsWith(s, "null") then Some((Null, s[4..]))
    else if s[0] != '{' then None
    else
      var inside := SkipBlank(s[1..]);
      if inside == "" then None
      else if inside[0] == '}' then Some((Obj([]), inside[1..]))
      else
        match ReadFields(inside)
        case None => None
        case Some((fields, after)) => Some((Obj(fields), after))
  }

  /** One or more members and the closing brace. */
  function ReadFields(s: string): (r: Option<(seq<Field>, string)>)
    ensures r.Some? ==> |r.value.1| < |s|
    decreases |s|, 1
  {
    if s == "" || s[0] != '"' then None
    else
      match ReadString(s[1..])
      case None => None
      case Some((key, afterKey)) =>
        var colon := SkipBlank(afterKey);
        if colon == "" || colon[0] != ':' then None
        else
          match ReadValue(SkipBlank(colon[1..]))
          case None => None
          case Some((value, afterValue)) =>
            var next := SkipBlank(afterValue);
            if next == "" then None
            else if next[0] == '}' then Some(([Field(key, value)], next[1..]))
            else if next[0] != ',' then None
            else
              match ReadFields(SkipBlank(next[1..]))
              case None => None
              case Some((rest, after)) => Some(([Field(key, value)] + rest, after))
  }

  /** One value and nothing but blanks around it. */
  function Loads(text: string): Option<Value> {
    match ReadValue(SkipBlank(text))
    case None => None
    case Some((v, after)) => if SkipBlank(after) == "" then Some(v) else None
  }

  // ---------------------------------------------------------------- reading undoes printing

  lemma HexOfDigit(n: int)
    requires 0 <= n < 16
    ensures HexValue(HexDigit(n)) == Some(n)
  {
  }

  lemma ReadEscaped(c: char, rest: string)
    requires |EscapeChar(c)| > 1
    ensures var e := EscapeChar(c);
            && e[0] == '\\'
            && ReadEscape(e[1..] + rest) == Some((c, |e| - 1))
  {
    var n := c as int;
    var e := EscapeChar(c);
    if |e| == 6 {
      HexOfDigit(n / 16);
      HexOfDigit(n % 16);
      assert HexValue('0') == Some(0);
      assert e == ['\\', 'u', '0', '0', HexDigit(n / 16), HexDigit(n % 16)];
      var s := e[1..] + rest;
      assert s[1] == '0' && s[2] == '0' && s[3] == HexDigit(n / 16) && s[4] == HexDigit(n % 16);
      assert s[1..][0] == s[1] && s[1..][1] == s[2] && s[1..][2] == s[3] && s[1..][3] == s[4];
      assert Hex4(s[1..]) == Some(n);
    }
  }

  /** Which characters are escaped and how long: seven have an escape of their own, the other control
      characters have the long one, in lowercase, and nothing else is touched. */
  lemma EscapedWhen(c: char)
    ensures var e := EscapeChar(c);
            var short := c == '"' || c == '\\' || c == '\n' || c == '\r' || c == '\t'
                         || c as int == 8 || c as int == 12;
            && (|e| == 2 <==> short)
            && (|e| == 6 <==> c as int < 32 && !short)
            && (|e| == 1 <==> c as int >= 32 && !short)
            && (|e| == 1 ==> e == [c])
            && forall k :: 0 <= k < |e| && |e| > 1 ==> !('A' <= e[k] <= 'Z')
  {
  }

  ghost function Blanks(n: nat): string {
    seq(n, i => ' ')
  }

  lemma {:induction false} SpacesAreBlanks(n: nat)
    ensures Spaces(n) == Blanks(n)
  {
    if n > 0 { SpacesAreBlanks(n - 1); }
  }

  /** The layout: a member a line, two blanks a level, one after each colon and none at a line's end. */
  lemma Layout(k: string, v: Value, l: string, w: Value, depth: nat)
    requires Printable(v) && Printable(w)
    ensures var inner, outer := "\n" + Blanks(2 * depth + 2), "\n" + Blanks(2 * depth);
            var first, second := Quote(k) + ": " + Print(v, depth + 1), Quote(l) + ": " + Print(w, depth + 1);
            Print(Obj([Field(k, v), Field(l, w)]), depth) ==
            "{" + inner + (first + ("," + inner + second)) + outer + "}"
    ensures Print(Obj([]), depth) == "{}"
  {
    hide Quote, Spaces, Print, PrintFields;
    SpacesAreBlanks(2 * depth + 2);
    SpacesAreBlanks(2 * depth);
    TwoMembers(k, v, l, w, depth + 1);
    ObjectText([Field(k, v), Field(l, w)], depth);
    NoMembers(depth);
  }

  lemma TwoMembers(k: string, v: Value, l: string, w: Value, depth: nat)
    requires Printable(v) && Printable(w)
    ensures PrintFields([Field(k, v), Field(l, w)], depth) ==
            (Quote(k) + ": " + Print(v, depth)) + ("," + NewLine(depth) + (Quote(l) + ": " + Print(w, depth)))
  {
    hide Quote, Spaces, Print, PrintFields, NewLine;
    var fields := [Field(k, v), Field(l, w)];
    assert fields[1..] == [Field(l, w)];
    FirstFieldText(fields, depth);
    FirstFieldText(fields[1..], depth);
    assert Print(w, depth) + "" == Print(w, depth);
  }

  lemma ObjectText(fields: seq<Field>, depth: nat)
    requires fields != [] && forall f :: f in fields ==> Printable(f.value)
    ensures Print(Obj(fields), depth) ==
            "{" + NewLine(depth + 1) + PrintFields(fields, depth + 1) + NewLine(depth) + "}"
  {
    hide PrintFields, NewLine;
  }

  lemma NoMembers(depth: nat)
    ensures Print(Obj([]), depth) == "{}"
  {
  }

  /** A text with nothing to escape stands between its quotes as it is. */
  lemma {:induction false} PlainIsItself(s: string)
    requires forall i :: 0 <= i < |s| ==> s[i] as int >= 32 && s[i] != '"' && s[i] != '\\'
    ensures Escape(s) == s
  {
    if s != "" {
      PlainIsItself(s[1..]);
      assert s == [s[0]] + s[1..] && EscapeChar(s[0]) == [s[0]];
    }
  }

  lemma ReadPrintedChar(c: char, tail: string, s: string, rest: string)
    requires ReadString(tail) == Some((s, rest))
    ensures ReadString(EscapeChar(c) + tail) == Some(([c] + s, rest))
  {
    var e := EscapeChar(c);
    if |e| > 1 {
      ReadEscaped(c, tail);
      assert (e + tail)[1..] == e[1..] + tail && (e + tail)[1 + (|e| - 1)..] == tail;
    } else {
      assert e == [c] && (e + tail)[1..] == tail;
    }
  }

  lemma {:induction false} ReadPrintedString(s: string, rest: string)
    ensures ReadString(Escape(s) + "\"" + rest) == Some((s, rest))
  {
    if s == "" {
      assert Escape(s) + "\"" + rest == "\"" + rest;
    } else {
      hide EscapeChar, ReadString;
      var tail := Escape(s[1..]) + "\"" + rest;
      assert Escape(s) + "\"" + rest == EscapeChar(s[0]) + tail;
      assert s == [s[0]] + s[1..];
      ReadPrintedString(s[1..], rest);
      ReadPrintedChar(s[0], tail, s[1..], rest);
    }
  }

  lemma {:induction false} SkipIndent(n: nat, rest: string)
    requires rest != "" ==> !IsBlank(rest[0])
    ensures SkipBlank(Spaces(n) + rest) == rest
    ensures SkipBlank("\n" + Spaces(n) + rest) == rest
    ensures SkipBlank(" " + rest) == rest
  {
    assert (" " + rest)[1..] == rest;
    assert ("\n" + Spaces(n) + rest)[1..] == Spaces(n) + rest;
    if n == 0 {
      assert "" + rest == rest;
    } else {
      SkipIndent(n - 1, rest);
      assert (Spaces(n) + rest)[1..] == Spaces(n - 1) + rest;
    }
  }

  lemma PrintStartsPlain(v: Value, depth: nat)
    requires Printable(v)
    ensures Print(v, depth) != "" && !IsBlank(Print(v, depth)[0])
  {
  }

  lemma ReadObject(s: string, inside: string, fields: seq<Field>, after: string)
    requires s != "" && s[0] == '{' && SkipBlank(s[1..]) == inside
    requires inside != "" && inside[0] != '}' && ReadFields(inside) == Some((fields, after))
    ensures ReadValue(s) == Some((Obj(fields), after))
  {
    hide SkipBlank, ReadFields, ReadString;
  }

  lemma ReadLastField(s: string, key: string, afterKey: string, value: Value, afterValue: string, rest: string)
    requires s != "" && s[0] == '"' && ReadString(s[1..]) == Some((key, afterKey))
    requires SkipBlank(afterKey) == afterKey && afterKey != "" && afterKey[0] == ':'
    requires ReadValue(SkipBlank(afterKey[1..])) == Some((value, afterValue))
    requires SkipBlank(afterValue) == "}" + rest
    ensures ReadFields(s) == Some(([Field(key, value)], rest))
  {
  }

  lemma ReadOneMoreField(s: string, key: string, afterKey: string, value: Value, afterValue: string, next: string,
                         rest: seq<Field>, after: string)
    requires s != "" && s[0] == '"' && ReadString(s[1..]) == Some((key, afterKey))
    requires SkipBlank(afterKey) == afterKey && afterKey != "" && afterKey[0] == ':'
    requires ReadValue(SkipBlank(afterKey[1..])) == Some((value, afterValue))
    requires SkipBlank(afterValue) == "," + next && ReadFields(SkipBlank(next)) == Some((rest, after))
    requires |SkipBlank(next)| < |s|
    ensures ReadFields(s) == Some(([Field(key, value)] + rest, after))
  {
    hide SkipBlank, ReadString, ReadValue;
    assert ("," + next)[1..] == next;
  }

  lemma NoBlank(s: string)
    requires s != "" ==> !IsBlank(s[0])
    ensures SkipBlank(s) == s
  {
  }

  lemma PrintedFieldsStart(fields: seq<Field>, depth: nat)
    requires fields != [] && forall f :: f in fields ==> Printable(f.value)
    ensures PrintFields(fields, depth) != "" && PrintFields(fields, depth)[0] == '"'
  {
  }

  lemma {:induction false} ReadPrinted(v: Value, depth: nat, rest: string)
    requires Printable(v)
    ensures ReadValue(Print(v, depth) + rest) == Some((v, rest))
    decreases v, 0
  {
    hide SkipBlank, ReadFields, PrintFields, Spaces, Escape;
    var text := Print(v, depth) + rest;
    match v
    case Null =>
      assert text[..4] == "null" && text[4..] == rest;
    case Str(s) =>
      ReadPrintedString(s, rest);
      assert text[1..] == Escape(s) + "\"" + rest;
    case Obj(fields) =>
      if fields == [] {
        assert text[1..] == "}" + rest && ("}" + rest)[1..] == rest;
        NoBlank("}" + rest);
      } else {
        PrintedFieldsStart(fields, depth + 1);
        var inside := PrintFields(fields, depth + 1) + NewLine(depth) + "}" + rest;
        assert text[1..] == "\n" + Spaces(2 * (depth + 1)) + inside;
        SkipIndent(2 * (depth + 1), inside);
        ReadPrintedFields(fields, depth + 1, depth, rest);
        ReadObject(text, inside, fields, rest);
      }
  }

  lemma FirstFieldText(fields: seq<Field>, depth: nat)
    requires fields != [] && forall f :: f in fields ==> Printable(f.value)
    ensures PrintFields(fields, depth) ==
            Quote(fields[0].key) + (": " + (Print(fields[0].value, depth)
            + (if |fields| == 1 then "" else "," + NewLine(depth) + PrintFields(fields[1..], depth))))
  {
  }

  /** The text after a key's opening quote. */
  lemma QuotedText(key: string, value: string, more: string, closing: string, text: string)
    requires text == Quote(key) + (": " + (value + more)) + closing
    ensures text != "" && text[0] == '"'
    ensures text[1..] == Escape(key) + "\"" + (": " + (value + (more + closing)))
  {
    hide Escape;
    assert text == "\"" + (Escape(key) + "\"" + (": " + (value + (more + closing))));
  }

  lemma {:induction false} ReadPrintedFields(fields: seq<Field>, depth: nat, outer: nat, rest: string)
    requires fields != [] && forall f :: f in fields ==> Printable(f.value)
    ensures ReadFields(PrintFields(fields, depth) + NewLine(outer) + "}" + rest) == Some((fields, rest))
    decreases fields, 1
  {
    hide SkipBlank, ReadFields, ReadValue, ReadString, Print, PrintFields, Spaces, Escape;
    var f := fields[0];
    assert f in fields;
    var value := Print(f.value, depth);
    var more := if |fields| == 1 then "" else "," + NewLine(depth) + PrintFields(fields[1..], depth);
    var closing := NewLine(outer) + ("}" + rest);
    var afterValue := more + closing;
    var afterKey := ": " + (value + afterValue);
    var text := PrintFields(fields, depth) + NewLine(outer) + "}" + rest;
    FirstFieldText(fields, depth);
    assert text == PrintFields(fields, depth) + closing;
    QuotedText(f.key, value, more, closing, text);
    ReadPrintedString(f.key, afterKey);
    assert afterKey[1..] == " " + (value + afterValue);
    PrintStartsPlain(f.value, depth);
    SkipIndent(0, value + afterValue);
    NoBlank(afterKey);
    ReadPrinted(f.value, depth, afterValue);
    if |fields| == 1 {
      assert afterValue == "\n" + Spaces(2 * outer) + ("}" + rest);
      SkipIndent(2 * outer, "}" + rest);
      ReadLastField(text, f.key, afterKey, f.value, afterValue, rest);
      assert fields == [f];
    } else {
      var tail := PrintFields(fields[1..], depth) + NewLine(outer) + "}" + rest;
      var next := "\n" + Spaces(2 * depth) + tail;
      assert afterValue == "," + next;
      NoBlank(afterValue);
      PrintedFieldsStart(fields[1..], depth);
      SkipIndent(2 * depth, tail);
      ReadPrintedFields(fields[1..], depth, outer, rest);
      ReadOneMoreField(text, f.key, afterKey, f.value, afterValue, next, fields[1..], rest);
      assert fields == [f] + fields[1..];
    }
  }

  /** Reading the printed text of any value gives the value back, trailing newline or not. */
  lemma LoadsPrinted(v: Value)
    requires Printable(v)
    ensures Loads(Print(v, 0) + "\n") == Some(v)
  {
    hide ReadValue, Print, Printable;
    PrintStartsPlain(v, 0);
    NoBlank(Print(v, 0) + "\n");
    ReadPrinted(v, 0, "\n");
    assert "\n"[1..] == "";
  }
}
