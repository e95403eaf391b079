/**
  A reader of compact JSON, and the proof that it undoes the printer.
 */
module JsonReader {
  import opened Wrappers
  import opened Utf8Order
  import opened DecimalText
  import opened JsonText

  datatype Parsed<+T> = Failed | Parsed(value: T, rest: Text)

  // ---------------------------------------------------------------- strings

  function HexValue(c: CodeUnit): Option<nat> {
    if ZERO <= c <= ZERO + 9 then Some(c - ZERO)
    else if 97 <= c <= 102 then Some(c - 87)
    else if 65 <= c <= 70 then Some(c - 55)
    else None
  }

  /** One character of a string, escaped or not. */
  function ReadUnit(s: Text): (p: Parsed<CodeUnit>)
    ensures p.Parsed? ==> |p.rest| < |s|
  {
    if s == [] || s[0] < 32 || s[0] == QUOTE then Failed
    else if s[0] != BACKSLASH then Parsed(s[0], s[1..])
    else if |s| < 2 then Failed
    else if s[1] == QUOTE || s[1] == BACKSLASH || s[1] == 47 then Parsed(s[1], s[2..])
    else if s[1] == 98 then Parsed(8, s[2..])
    else if s[1] == 102 then Parsed(12, s[2..])
    else if s[1] == 110 then Parsed(10, s[2..])
    else if s[1] == 114 then Parsed(13, s[2..])
    else if s[1] == 116 then Parsed(9, s[2..])
    else if s[1] != 117 || |s| < 6 then Failed
    else
      var a, b, c, d := HexValue(s[2]), HexValue(s[3]), HexValue(s[4]), HexValue(s[5]);
      if a.None? || b.None? || c.None? || d.None? then Failed
      else Hex16(a.value, b.value, c.value, d.value, s[6..])
  }

  function Hex16(a: nat, b: nat, c: nat, d: nat, rest: Text): (p: Parsed<CodeUnit>)
    requires a < 16 && b < 16 && c < 16 && d < 16
    ensures p.Parsed? && p.rest == rest
  {
    Parsed(a * 4096 + b * 256 + c * 16 + d, rest)
  }

  /** The characters up to the closing quote. */
  function ReadString(s: Text): (p: Parsed<Text>)
    ensures p.Parsed? ==> |p.rest| < |s|
    decreases |s|
  {
    if s != [] && s[0] == QUOTE then Parsed([], s[1..])
    else
      var unit := ReadUnit(s);
      if unit.Failed? then Failed
      else
        var more := ReadString(unit.rest);
        if more.Failed? then Failed else Parsed([unit.value] + more.value, more.rest)
  }

  lemma ReadsEscape(c: CodeUnit, rest: Text)
    ensures ReadUnit(Escape(c) + rest) == Parsed(c, rest) && (Escape(c) + rest)[0] != QUOTE
  {
    var e := Escape(c);
    assert (e + rest)[|e|..] == rest;
    if c < 32 && |e| == 6 {
      ReadsControl(c, rest);
    }
  }

  lemma ReadsControl(c: CodeUnit, rest: Text)
    requires c < 32
    ensures ReadUnit([BACKSLASH, 117, ZERO, ZERO, HexDigit(c / 16), HexDigit(c % 16)] + rest) == Parsed(c, rest)
  {
    var s := [BACKSLASH, 117, ZERO, ZERO, HexDigit(c / 16), HexDigit(c % 16)] + rest;
    assert s[6..] == rest;
    assert && HexValue(s[4]) == Some(c / 16)
           && HexValue(s[5]) == Some(c % 16)
           && HexValue(s[2]) == HexValue(s[3]) == Some(0);
  }

  lemma {:induction false} EscapeAllConcat(a: Text, b: Text)
    ensures EscapeAll(a + b) == EscapeAll(a) + EscapeAll(b)
  {
    hide Escape;
    if b == [] {
      assert a + b == a;
    } else {
      assert (a + b)[..|a + b| - 1] == a + b[..|b| - 1];
      EscapeAllConcat(a, b[..|b| - 1]);
    }
  }

  lemma EscapeOne(c: CodeUnit)
    ensures EscapeAll([c]) == Escape(c)
  {
    hide Escape;
    assert [c][..0] == [];
  }

  lemma EscapeFirst(s: Text)
    requires s != []
    ensures EscapeAll(s) == Escape(s[0]) + EscapeAll(s[1..])
  {
    hide Escape, EscapeAll;
    assert s == [s[0]] + s[1..];
    EscapeAllConcat([s[0]], s[1..]);
    EscapeOne(s[0]);
  }

  lemma ReadsNext(s: Text)
    requires s != [] && s[0] != QUOTE && ReadUnit(s).Parsed? && ReadString(ReadUnit(s).rest).Parsed?
    ensures ReadString(s)
            == Parsed([ReadUnit(s).value] + ReadString(ReadUnit(s).rest).value, ReadString(ReadUnit(s).rest).rest)
  {
    hide ReadUnit;
  }

  lemma ReadsQuote(rest: Text)
    ensures ReadString(EscapeAll([]) + [QUOTE] + rest) == Parsed([], rest)
  {
    assert EscapeAll([]) + [QUOTE] + rest == [QUOTE] + rest;
  }

  lemma {:induction false} ReadsString(s: Text, rest: Text)
    ensures ReadString(EscapeAll(s) + [QUOTE] + rest) == Parsed(s, rest)
    decreases |s|
  {
    hide Escape, ReadUnit, EscapeAll, ReadString;
    if s == [] {
      ReadsQuote(rest);
    } else {
      EscapeFirst(s);
      var tail := EscapeAll(s[1..]) + [QUOTE] + rest;
      assert EscapeAll(s) + [QUOTE] + rest == Escape(s[0]) + tail;
      ReadsEscape(s[0], tail);
      assert s == [s[0]] + s[1..];
      ReadsString(s[1..], rest);
      ReadsNext(Escape(s[0]) + tail);
    }
  }

  // ---------------------------------------------------------------- values

  predicate NumberUnit(c: CodeUnit) {
    IsDigit(c) || c == MINUS || c == PLUS || c == POINT || c == SMALL_E || c == 69
  }

  /** The number characters a text starts with. */
  function TokenLength(s: Text): (n: nat)
    ensures n <= |s|
  {
    if s == [] || !NumberUnit(s[0]) then 0 else 1 + TokenLength(s[1..])
  }

  predicate Starts(s: Text, word: Text) { |word| <= |s| && s[..|word|] == word }

  function ReadJson(s: Text): (p: Parsed<Json>)
    ensures p.Parsed? ==> |p.rest| < |s|
    decreases |s|, 1
  {
    if s == [] then Failed
    else if s[0] == QUOTE then
      var text := ReadString(s[1..]);
      if text.Failed? then Failed else Parsed(Str(text.value), text.rest)
    else if s[0] == OPEN_BRACKET then
      if |s| > 1 && s[1] == CLOSE_BRACKET then Parsed(Arr([]), s[2..])
      else
        var items := ReadItems(s[1..]);
        if items.Failed? then Failed else Parsed(Arr(items.value), items.rest)
    else if s[0] == OPEN_BRACE then
      if |s| > 1 && s[1] == CLOSE_BRACE then Parsed(Obj([]), s[2..])
      else
        var members := ReadMembers(s[1..]);
        if members.Failed? then Failed else Parsed(Obj(members.value), members.rest)
    else ReadWord(s)
  }

  function ReadWord(s: Text): (p: Parsed<Json>)
    ensures p.Parsed? ==> |p.rest| < |s|
  {
    var n := TokenLength(s);
    if n > 0 then Parsed(Num(s[..n]), s[n..])
    else if Starts(s, TRUE) then Parsed(Boolean(true), s[4..])
    else if Starts(s, FALSE) then Parsed(Boolean(false), s[5..])
    else if Starts(s, NULL) then Parsed(Null, s[4..])
    else Failed
  }

  /** One element or more, up to the closing bracket. */
  function ReadItems(s: Text): (p: Parsed<seq<Json>>)
    ensures p.Parsed? ==> |p.rest| < |s|
    decreases |s|, 2
  {
    var item := ReadJson(s);
    if item.Failed? || item.rest == [] then Failed
    else if item.rest[0] == CLOSE_BRACKET then Parsed([item.value], item.rest[1..])
    else if item.rest[0] != COMMA then Failed
    else
      var more := ReadItems(item.rest[1..]);
      if more.Failed? then Failed else Parsed([item.value] + more.value, more.rest)
  }

  function ReadMember(s: Text): (p: Parsed<Member>)
    ensures p.Parsed? ==> |p.rest| < |s|
    decreases |s|, 2
  {
    if s == [] || s[0] != QUOTE then Failed
    else
      var name := ReadString(s[1..]);
      if name.Failed? || name.rest == [] || name.rest[0] != COLON then Failed
      else
        var value := ReadJson(name.rest[1..]);
        if value.Failed? then Failed else Parsed(Member(name.value, value.value), value.rest)
  }

  function ReadMembers(s: Text): (p: Parsed<seq<Member>>)
    ensures p.Parsed? ==> |p.rest| < |s|
    decreases |s|, 3
  {
    var member := ReadMember(s);
    if member.Failed? || member.rest == [] then Failed
    else if member.rest[0] == CLOSE_BRACE then Parsed([member.value], member.rest[1..])
    else if member.rest[0] != COMMA then Failed
    else
      var more := ReadMembers(member.rest[1..]);
      if more.Failed? then Failed else Parsed([member.value] + more.value, more.rest)
  }

  // ---------------------------------------------------------------- reading what was printed

  /** Every number is a nonempty run of number characters. */
  ghost predicate Clean(j: Json)
    decreases j
  {
    match j
    case Num(token) => token != [] && forall i | 0 <= i < |token| :: NumberUnit(token[i])
    case Arr(items) => forall i | 0 <= i < |items| :: Clean(items[i])
    case Obj(members) => forall i | 0 <= i < |members| :: Clean(members[i].value)
    case _ => true
  }

  /** What may follow a value without being taken for part of it. */
  ghost predicate Delimited(rest: Text) { rest == [] || !NumberUnit(rest[0]) }

  lemma PrintItemsLast(s: seq<Json>, last: Json)
    ensures PrintItems(s + [last]) == PrintItems(s) + Separator(|s|) + Print(last)
  {
    hide Print;
    assert (s + [last])[..|s|] == s;
  }

  lemma {:induction false} PrintItemsConcat(a: seq<Json>, b: seq<Json>)
    requires a != [] && b != []
    ensures PrintItems(a + b) == PrintItems(a) + [COMMA] + PrintItems(b)
    decreases |b|
  {
    hide Print, PrintItems;
    var init, last := b[..|b| - 1], b[|b| - 1];
    assert b == init + [last] && a + b == a + init + [last];
    PrintItemsLast(a + init, last);
    PrintItemsLast(init, last);
    if init == [] {
      assert a + init == a;
      PrintItemsNone();
    } else {
      PrintItemsConcat(a, init);
    }
  }

  lemma PrintItemsNone()
    ensures PrintItems([]) == []
  {
  }

  lemma PrintMembersLast(s: seq<Member>, last: Member)
    ensures PrintMembers(s + [last]) == PrintMembers(s) + Separator(|s|) + PrintMember(last)
  {
    hide PrintMember;
    assert (s + [last])[..|s|] == s;
  }

  lemma {:induction false} PrintMembersConcat(a: seq<Member>, b: seq<Member>)
    requires a != [] && b != []
    ensures PrintMembers(a + b) == PrintMembers(a) + [COMMA] + PrintMembers(b)
    decreases |b|
  {
    hide PrintMember, PrintMembers;
    var init, last := b[..|b| - 1], b[|b| - 1];
    assert b == init + [last] && a + b == a + init + [last];
    PrintMembersLast(a + init, last);
    PrintMembersLast(init, last);
    if init == [] {
      assert a + init == a;
      PrintMembersNone();
    } else {
      PrintMembersConcat(a, init);
    }
  }

  lemma PrintMembersNone()
    ensures PrintMembers([]) == []
  {
  }

  lemma {:induction false} ReadsToken(token: Text, rest: Text)
    requires (forall i | 0 <= i < |token| :: NumberUnit(token[i])) && Delimited(rest)
    ensures TokenLength(token + rest) == |token|
  {
    var s := token + rest;
    if token == [] {
      assert s == rest;
    } else {
      assert s[1..] == token[1..] + rest;
      ReadsToken(token[1..], rest);
    }
  }

  lemma ReadsWord(j: Json, rest: Text)
    requires (j.Null? || j.Boolean? || j.Num?) && Clean(j) && Delimited(rest)
    ensures ReadJson(Print(j) + rest) == Parsed(j, rest)
  {
    var s := Print(j) + rest;
    assert s[..|Print(j)|] == Print(j) && s[|Print(j)|..] == rest;
    if j.Num? {
      ReadsToken(j.token, rest);
      assert NumberUnit(s[0]);
    } else {
      assert !NumberUnit(s[0]) && TokenLength(s) == 0;
    }
  }

  lemma ReadsQuoted(text: Text, rest: Text)
    ensures ReadJson(Quoted(text) + rest) == Parsed(Str(text), rest)
  {
    hide EscapeAll, ReadString;
    ReadsString(text, rest);
    var after := EscapeAll(text) + [QUOTE] + rest;
    assert Quoted(text) + rest == [QUOTE] + after && ([QUOTE] + after)[1..] == after;
  }

  /** Reading undoes printing, whatever follows. */
  lemma {:induction false} ReadsJson(j: Json, rest: Text)
    requires Clean(j) && Delimited(rest)
    ensures ReadJson(Print(j) + rest) == Parsed(j, rest)
    decreases j, 1
  {
    hide ReadJson, Quoted, PrintItems, PrintMembers;
    match j {
      case Null => ReadsWord(j, rest);
      case Boolean(_) => ReadsWord(j, rest);
      case Num(_) => ReadsWord(j, rest);
      case Str(text) =>
        ReadsQuoted(text, rest);
      case Arr(_) => ReadsArray(j, rest);
      case Obj(_) => ReadsObject(j, rest);
    }
  }

  lemma OpensArray(after: Text)
    requires after != [] && after[0] != CLOSE_BRACKET && ReadItems(after).Parsed?
    ensures ReadJson([OPEN_BRACKET] + after) == Parsed(Arr(ReadItems(after).value), ReadItems(after).rest)
  {
    hide ReadItems;
    assert ([OPEN_BRACKET] + after)[1..] == after;
  }

  lemma EmptyArray(rest: Text)
    ensures ReadJson([OPEN_BRACKET, CLOSE_BRACKET] + rest) == Parsed(Arr([]), rest)
  {
    hide ReadItems;
    assert ([OPEN_BRACKET, CLOSE_BRACKET] + rest)[2..] == rest;
  }

  lemma {:induction false} ReadsArray(j: Json, rest: Text)
    requires j.Arr? && Clean(j)
    ensures ReadJson(Print(j) + rest) == Parsed(j, rest)
    decreases j, 0
  {
    hide ReadJson, ReadItems, PrintItems;
    var all := j.items;
    if all == [] {
      PrintItemsNone();
      assert Print(j) + rest == [OPEN_BRACKET, CLOSE_BRACKET] + rest;
      EmptyArray(rest);
    } else {
      var after := PrintItems(all) + [CLOSE_BRACKET] + rest;
      assert Print(j) + rest == [OPEN_BRACKET] + after && after == PrintItems(all) + ([CLOSE_BRACKET] + rest);
      ItemsStart(all, [CLOSE_BRACKET] + rest);
      ReadsItems(all, rest);
      OpensArray(after);
    }
  }

  lemma OpensObject(after: Text)
    requires after != [] && after[0] != CLOSE_BRACE && ReadMembers(after).Parsed?
    ensures ReadJson([OPEN_BRACE] + after) == Parsed(Obj(ReadMembers(after).value), ReadMembers(after).rest)
  {
    hide ReadMembers;
    assert ([OPEN_BRACE] + after)[1..] == after;
  }

  lemma EmptyObject(rest: Text)
    ensures ReadJson([OPEN_BRACE, CLOSE_BRACE] + rest) == Parsed(Obj([]), rest)
  {
    hide ReadMembers;
    assert ([OPEN_BRACE, CLOSE_BRACE] + rest)[2..] == rest;
  }

  lemma {:induction false} ReadsObject(j: Json, rest: Text)
    requires j.Obj? && Clean(j)
    ensures ReadJson(Print(j) + rest) == Parsed(j, rest)
    decreases j, 0
  {
    hide ReadJson, ReadMembers, PrintMembers;
    var all := j.members;
    if all == [] {
      PrintMembersNone();
      assert Print(j) + rest == [OPEN_BRACE, CLOSE_BRACE] + rest;
      EmptyObject(rest);
    } else {
      var after := PrintMembers(all) + [CLOSE_BRACE] + rest;
      assert Print(j) + rest == [OPEN_BRACE] + after && after == PrintMembers(all) + ([CLOSE_BRACE] + rest);
      MembersStart(all, [CLOSE_BRACE] + rest);
      ReadsMembers(all, rest);
      OpensObject(after);
    }
  }

  /** A printed value never starts with a closing bracket. */
  lemma PrintStart(j: Json)
    requires Clean(j)
    ensures Print(j) != [] && Print(j)[0] != CLOSE_BRACKET && Print(j)[0] != CLOSE_BRACE
  {
    if j.Num? {
      assert NumberUnit(j.token[0]);
    }
  }

  lemma ItemsStart(items: seq<Json>, rest: Text)
    requires items != [] && Clean(items[0])
    ensures var s := PrintItems(items) + rest; s != [] && s[0] != CLOSE_BRACKET
  {
    PrintStart(items[0]);
    FirstItem(items);
  }

  lemma FirstItem(items: seq<Json>)
    requires items != []
    ensures PrintItems(items) == Print(items[0]) + if |items| == 1 then [] else [COMMA] + PrintItems(items[1..])
  {
    hide Print, PrintItems;
    var head := [items[0]];
    PrintItemsNone();
    PrintItemsLast([], items[0]);
    assert [] + head == head;
    if |items| == 1 {
      assert items == head;
    } else {
      assert items == head + items[1..];
      PrintItemsConcat(head, items[1..]);
    }
  }

  lemma FirstMember(members: seq<Member>)
    requires members != []
    ensures PrintMembers(members)
            == PrintMember(members[0]) + if |members| == 1 then [] else [COMMA] + PrintMembers(members[1..])
  {
    hide PrintMember, PrintMembers;
    var head := [members[0]];
    PrintMembersNone();
    PrintMembersLast([], members[0]);
    assert [] + head == head;
    if |members| == 1 {
      assert members == head;
    } else {
      assert members == head + members[1..];
      PrintMembersConcat(head, members[1..]);
    }
  }

  lemma MembersStart(members: seq<Member>, rest: Text)
    requires members != []
    ensures var s := PrintMembers(members) + rest; s != [] && s[0] == QUOTE
  {
    FirstMember(members);
  }

  lemma {:induction false} ReadsItems(items: seq<Json>, rest: Text)
    requires items != [] && forall i | 0 <= i < |items| :: Clean(items[i])
    ensures ReadItems(PrintItems(items) + [CLOSE_BRACKET] + rest) == Parsed(items, rest)
    decreases items, 0
  {
    hide Print, PrintItems, ReadJson, Clean;
    FirstItem(items);
    var s, first := PrintItems(items) + [CLOSE_BRACKET] + rest, Print(items[0]);
    if |items| == 1 {
      assert s == first + ([CLOSE_BRACKET] + rest) && items == [items[0]];
      ReadsJson(items[0], [CLOSE_BRACKET] + rest);
    } else {
      var later := PrintItems(items[1..]) + [CLOSE_BRACKET] + rest;
      assert s == first + ([COMMA] + later) && items == [items[0]] + items[1..];
      ReadsJson(items[0], [COMMA] + later);
      ReadsItems(items[1..], rest);
      assert ([COMMA] + later)[1..] == later;
    }
  }

  lemma {:induction false} ReadsMember(m: Member, rest: Text)
    requires Clean(m.value) && Delimited(rest)
    ensures ReadMember(PrintMember(m) + rest) == Parsed(m, rest)
    decreases m, 0
  {
    hide Print, ReadJson, Clean, EscapeAll, ReadString;
    var after := [COLON] + (Print(m.value) + rest);
    var s := PrintMember(m) + rest;
    assert s == [QUOTE] + (EscapeAll(m.name) + [QUOTE] + after);
    assert s[1..] == EscapeAll(m.name) + [QUOTE] + after;
    ReadsString(m.name, after);
    assert after[1..] == Print(m.value) + rest;
    ReadsJson(m.value, rest);
  }

  lemma {:induction false} ReadsMembers(members: seq<Member>, rest: Text)
    requires members != [] && forall i | 0 <= i < |members| :: Clean(members[i].value)
    ensures ReadMembers(PrintMembers(members) + [CLOSE_BRACE] + rest) == Parsed(members, rest)
    decreases members, 0
  {
    hide PrintMember, PrintMembers, ReadMember, Clean;
    FirstMember(members);
    var s, first := PrintMembers(members) + [CLOSE_BRACE] + rest, PrintMember(members[0]);
    if |members| == 1 {
      assert s == first + ([CLOSE_BRACE] + rest) && members == [members[0]];
      ReadsMember(members[0], [CLOSE_BRACE] + rest);
    } else {
      var later := PrintMembers(members[1..]) + [CLOSE_BRACE] + rest;
      assert s == first + ([COMMA] + later) && members == [members[0]] + members[1..];
      ReadsMember(members[0], [COMMA] + later);
      ReadsMembers(members[1..], rest);
      assert ([COMMA] + later)[1..] == later;
    }
  }
}
