/**
  The compact JSON writer: a text and two flags that decide where the commas go.

  `Print` is the recursive comma-joining printer the writer is measured against.
 */
module JsonText {
  import opened Utf8Order
  import opened DecimalText

  const QUOTE: CodeUnit := 34
  const BACKSLASH: CodeUnit := 92
  const COMMA: CodeUnit := 44
  const COLON: CodeUnit := 58
  const OPEN_BRACKET: CodeUnit := 91
  const CLOSE_BRACKET: CodeUnit := 93
  const OPEN_BRACE: CodeUnit := 123
  const CLOSE_BRACE: CodeUnit := 125
  const TRUE: Text := [116, 114, 117, 101]
  const FALSE: Text := [102, 97, 108, 115, 101]
  const NULL: Text := [110, 117, 108, 108]

  /** The structural characters and the literal names of sections 2 and 3 of RFC 8259. */
  lemma CharactersOfJson()
    ensures [QUOTE, BACKSLASH, COMMA, COLON] == Literal("\"\\,:")
    ensures [OPEN_BRACKET, CLOSE_BRACKET, OPEN_BRACE, CLOSE_BRACE] == Literal("[]{}")
    ensures TRUE == Literal("true") && FALSE == Literal("false") && NULL == Literal("null")
  {
  }

  /** A number is kept as its text. */
  datatype Json =
    | Null
    | Boolean(flag: bool)
    | Num(token: Text)
    | Str(text: Text)
    | Arr(items: seq<Json>)
    | Obj(members: seq<Member>)

  datatype Member = Member(name: Text, value: Json)

  // ---------------------------------------------------------------- escaping

  /** The short escapes of section 7 of RFC 8259, `\u00xx` for other control characters, and nothing else. */
  function Escape(c: CodeUnit): Text {
    if c == QUOTE then [BACKSLASH, QUOTE]
    else if c == BACKSLASH then [BACKSLASH, BACKSLASH]
    else if c == 8 then [BACKSLASH, 98]
    else if c == 12 then [BACKSLASH, 102]
    else if c == 10 then [BACKSLASH, 110]
    else if c == 13 then [BACKSLASH, 114]
    else if c == 9 then [BACKSLASH, 116]
    else if c < 32 then [BACKSLASH, 117, ZERO, ZERO, HexDigit(c / 16), HexDigit(c % 16)]
    else [c]
  }

  /**
    Which characters are escaped and how long: two units for the quote, the backslash and the five named controls, six
    for the other controls with lowercase digits, and nothing else; what is left holds no control character.
   */
  lemma EscapesExactly(c: CodeUnit)
    ensures var e, named := Escape(c), {34, 92, 8, 9, 10, 12, 13};
            && |e| == (if c in named then 2 else if c <= 31 then 6 else 1)
            && (|e| == 1 ==> e[0] == c) && (forall u <- e :: u >= 32 && (c <= 31 ==> !(65 <= u <= 70)))
  {
  }

  function EscapeAll(s: Text): Text {
    if s == [] then [] else EscapeAll(s[..|s| - 1]) + Escape(s[|s| - 1])
  }

  function Quoted(s: Text): Text {
    [QUOTE] + EscapeAll(s) + [QUOTE]
  }

  // ---------------------------------------------------------------- the printer

  function Print(j: Json): Text
    decreases j, 0
  {
    match j
    case Null => NULL
    case Boolean(flag) => if flag then TRUE else FALSE
    case Num(token) => token
    case Str(text) => Quoted(text)
    case Arr(items) => [OPEN_BRACKET] + PrintItems(items) + [CLOSE_BRACKET]
    case Obj(members) => [OPEN_BRACE] + PrintMembers(members) + [CLOSE_BRACE]
  }

  /** A comma before every element but the first. */
  function Separator(before: nat): Text {
    if before == 0 then [] else [COMMA]
  }

  function PrintItems(items: seq<Json>): Text
    decreases items
  {
    if items == [] then []
    else PrintItems(items[..|items| - 1]) + Separator(|items| - 1) + Print(items[|items| - 1])
  }

  function PrintMember(m: Member): Text
    decreases m
  {
    Quoted(m.name) + [COLON] + Print(m.value)
  }

  function PrintMembers(members: seq<Member>): Text
    decreases members
  {
    if members == [] then []
    else PrintMembers(members[..|members| - 1]) + Separator(|members| - 1) + PrintMember(members[|members| - 1])
  }

  lemma PrintItemsNext(items: seq<Json>, i: nat)
    requires i < |items|
    ensures PrintItems(items[..i + 1]) == PrintItems(items[..i]) + Separator(i) + Print(items[i])
  {
    assert items[..i + 1][..i] == items[..i];
  }

  lemma PrintMembersNext(members: seq<Member>, i: nat)
    requires i < |members|
    ensures PrintMembers(members[..i + 1]) == PrintMembers(members[..i]) + Separator(i) + PrintMember(members[i])
  {
    assert members[..i + 1][..i] == members[..i];
  }

  // ---------------------------------------------------------------- the writer

  class Writer {
    var text: Text
    var needsComma: bool
    var afterProperty: bool

    constructor ()
      ensures text == [] && !needsComma && !afterProperty
    {
      text, needsComma, afterProperty := [], false, false;
    }

    /** What the next value is preceded by. */
    function Pending(): Text
      reads this
    {
      if !afterProperty && needsComma then [COMMA] else []
    }

    /** The state after a complete value. */
    ghost predicate Complete(written: Text)
      reads this
    {
      text == written && needsComma && !afterProperty
    }

    /** The state just inside an array or an object. */
    ghost predicate Opened(written: Text)
      reads this
    {
      text == written && !needsComma && !afterProperty
    }

    method BeforeValue()
      modifies this
      ensures text == old(text + Pending()) && !afterProperty && needsComma == old(needsComma)
    {
      if !afterProperty && needsComma {
        text := text + [COMMA];
      }
      afterProperty := false;
    }

    method WriteStartObject()
      modifies this
      ensures Opened(old(text + Pending()) + [OPEN_BRACE])
    {
      BeforeValue();
      text := text + [OPEN_BRACE];
      needsComma := false;
    }

    method WriteEndObject()
      requires !afterProperty
      modifies this
      ensures Complete(old(text) + [CLOSE_BRACE])
    {
      text := text + [CLOSE_BRACE];
      needsComma := true;
    }

    method WriteStartArray()
      modifies this
      ensures Opened(old(text + Pending()) + [OPEN_BRACKET])
    {
      BeforeValue();
      text := text + [OPEN_BRACKET];
      needsComma := false;
    }

    method WriteEndArray()
      requires !afterProperty
      modifies this
      ensures Complete(old(text) + [CLOSE_BRACKET])
    {
      text := text + [CLOSE_BRACKET];
      needsComma := true;
    }

    method WritePropertyName(name: Text)
      modifies this
      ensures text == old(text) + (if old(needsComma) then [COMMA] else []) + Quoted(name) + [COLON]
      ensures afterProperty && !needsComma
    {
      if needsComma {
        text := text + [COMMA];
      }
      AppendString(name);
      text := text + [COLON];
      afterProperty := true;
      needsComma := false;
    }

    method WriteStringValue(value: Text)
      modifies this
      ensures Complete(old(text + Pending()) + Quoted(value))
    {
      BeforeValue();
      AppendString(value);
      needsComma := true;
    }

    method WriteRawValue(raw: Text)
      modifies this
      ensures Complete(old(text + Pending()) + raw)
    {
      BeforeValue();
      text := text + raw;
      needsComma := true;
    }

    /** The character loop. */
    method AppendString(value: Text)
      modifies this`text
      ensures text == old(text) + Quoted(value)
    {
      hide Escape;
      text := text + [QUOTE];
      for i := 0 to |value|
        invariant text == old(text) + [QUOTE] + EscapeAll(value[..i])
      {
        assert value[..i + 1][..i] == value[..i];
        AppendEscaped(value[i]);
      }
      assert value[..|value|] == value;
      text := text + [QUOTE];
    }

    method AppendEscaped(c: CodeUnit)
      modifies this`text
      ensures text == old(text) + Escape(c)
    {
      if c == QUOTE {
        text := text + [BACKSLASH, QUOTE];
      } else if c == BACKSLASH {
        text := text + [BACKSLASH, BACKSLASH];
      } else if c == 8 {
        text := text + [BACKSLASH, 98];
      } else if c == 12 {
        text := text + [BACKSLASH, 102];
      } else if c == 10 {
        text := text + [BACKSLASH, 110];
      } else if c == 13 {
        text := text + [BACKSLASH, 114];
      } else if c == 9 {
        text := text + [BACKSLASH, 116];
      } else if c < 32 {
        text := text + [BACKSLASH, 117, ZERO, ZERO] + [HexDigit(c / 16), HexDigit(c % 16)];
      } else {
        text := text + [c];
      }
    }
  }
}
