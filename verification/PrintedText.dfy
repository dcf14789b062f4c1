/** The printed list of identifiers: its text, the name table it is printed from, and
    when reading it gives the list back. */
module PrintedText {
  import opened Options
  import opened Bytes
  import opened Services
  import opened Config
  import opened CText
  import opened ConfigText

  // ---- Printing

  function Colons(h: string, n: string, l: string): string {
    h + ":" + n + ":" + l
  }

  /** The part of a printed line after the name: `0x%04X:%d:%d`. */
  function PrintedValue(d: Did): string {
    Colons("0x" + PrintHex4(d.address), Print(d.size, 10), Print(d.level, 10))
  }

  /** The format `%s = 0x%04X:%d:%d` with a line end. */
  function Format(name: string, address: nat, size: nat, level: nat): string {
    name + " = " + Colons("0x" + PrintHex4(address), Print(size, 10), Print(level, 10)) + "\n"
  }

  // ---- The name table

  /** `strncpy` into a slot: eight characters, with terminators only after a shorter name. */
  function NameSlot(name: string): (s: string)
    ensures |s| == NAME_SIZE
  {
    StoredName(name) + Nuls(NAME_SIZE - |StoredName(name)|)
  }

  function Nuls(n: nat): (s: string)
    ensures |s| == n && forall i :: 0 <= i < n ==> s[i] == NUL
  {
    seq(n, i => NUL)
  }

  function NameSlots(dids: seq<Did>): (s: string)
    ensures |s| == NAME_SIZE * |dids|
  {
    if dids == [] then [] else NameSlots(dids[..|dids| - 1]) + NameSlot(dids[|dids| - 1].name)
  }

  /** The 400 characters of the name table for a list: its slots, then cleared ones. */
  function NameTable(dids: seq<Did>): (s: string)
    requires |dids| <= MAX_DID_ENTRIES
    ensures |s| == NAMES_SIZE
  {
    NameSlots(dids) + Nuls(NAMES_SIZE - NAME_SIZE * |dids|)
  }

  /** The name has a slot's length and is a C string. */
  predicate Storable(d: Did) {
    |d.name| <= NAME_SIZE && NUL !in d.name
  }

  predicate AllStorable(dids: seq<Did>) {
    |dids| <= MAX_DID_ENTRIES && forall i :: 0 <= i < |dids| ==> Storable(dids[i])
  }

  /** What `%s` prints for slot `i`: the characters from there to the first terminator,
      running on into later slots, and past the table into whatever follows it. */
  function PrintedName(dids: seq<Did>, i: nat, after: string): string
    requires i < |dids| <= MAX_DID_ENTRIES
  {
    CString(NameTable(dids) + after, NAME_SIZE * i)
  }

  lemma {:induction false} SlotAt(dids: seq<Did>, i: nat)
    requires i < |dids|
    ensures NameSlots(dids)[NAME_SIZE * i..NAME_SIZE * i + NAME_SIZE] == NameSlot(dids[i].name)
  {
    var front := dids[..|dids| - 1];
    if i < |front| {
      SlotAt(front, i);
      var a, b := NameSlots(front), NameSlots(dids);
      assert b[NAME_SIZE * i..NAME_SIZE * i + NAME_SIZE] == a[NAME_SIZE * i..NAME_SIZE * i + NAME_SIZE];
    }
  }

  lemma TableSlot(dids: seq<Did>, i: nat, after: string)
    requires i < |dids| && AllStorable(dids)
    ensures (NameTable(dids) + after)[NAME_SIZE * i..NAME_SIZE * i + NAME_SIZE] ==
            dids[i].name + Nuls(NAME_SIZE - |dids[i].name|)
  {
    SlotAt(dids, i);
    var at, t := NAME_SIZE * i, NameTable(dids) + after;
    assert t[at..at + NAME_SIZE] == NameSlots(dids)[at..at + NAME_SIZE];
    assert Storable(dids[i]) && StoredName(dids[i].name) == dids[i].name;
  }

  /** A name shorter than its slot is printed as it is; one that fills it is printed with
      what reading from the next slot yields. */
  lemma PrintedNameRunsOn(dids: seq<Did>, i: nat, after: string)
    requires i < |dids| && AllStorable(dids)
    ensures PrintedName(dids, i, after) == dids[i].name +
      if |dids[i].name| < NAME_SIZE then [] else CString(NameTable(dids) + after, NAME_SIZE * (i + 1))
  {
    TableSlot(dids, i, after);
    assert Storable(dids[i]);
    SlotRunsOn(NameTable(dids) + after, NAME_SIZE * i, dids[i].name);
  }

  lemma SlotRunsOn(t: string, at: nat, name: string)
    requires at + NAME_SIZE <= |t| && |name| <= NAME_SIZE && NUL !in name
    requires t[at..at + NAME_SIZE] == name + Nuls(NAME_SIZE - |name|)
    ensures CString(t, at) == name + if |name| < NAME_SIZE then [] else CString(t, at + NAME_SIZE)
  {
    var slot := t[at..at + NAME_SIZE];
    assert forall k :: at <= k < at + NAME_SIZE ==> t[k] == slot[k - at];
    CStringRuns(t, at, at + |name|);
    assert t[at..at + |name|] == name;
  }

  // ---- Printed lines

  function PrintedLine(d: Did, name: string): string {
    Format(name, d.address, d.size, d.level)
  }

  /** One line per entry, in order. */
  function PrintedLines(dids: seq<Did>, after: string): seq<string>
    requires |dids| <= MAX_DID_ENTRIES
  {
    seq(|dids|, i requires 0 <= i < |dids| => PrintedLine(dids[i], PrintedName(dids, i, after)))
  }

  function Concat(lines: seq<string>): string {
    if lines == [] then "" else Concat(lines[..|lines| - 1]) + lines[|lines| - 1]
  }

  /** The text is the first `k` lines. */
  ghost predicate FirstLines(text: string, lines: seq<string>, k: nat)
    requires k <= |lines|
  {
    text == Concat(lines[..k])
  }

  lemma ConcatSnoc(text: string, lines: seq<string>, k: nat)
    requires k < |lines| && FirstLines(text, lines, k)
    ensures FirstLines(text + lines[k], lines, k + 1)
  {
    assert lines[..k + 1][..k] == lines[..k];
  }

  lemma ConcatAll(text: string, lines: seq<string>)
    requires FirstLines(text, lines, |lines|)
    ensures text == Concat(lines)
  {
    assert lines[..|lines|] == lines;
  }

  /** The name leaves room for a terminator in its slot and spells the identifier. */
  predicate WellNamed(d: Did) {
    |d.name| < NAME_SIZE && NUL !in d.name && Identifier(d.name) == d.udid
  }

  /** A field of digits, with or without 0x, is one field and has no space around it. */
  lemma DigitsArePlain(s: string, base: Base)
    requires s != [] && AllDigits(s, base)
    ensures ':' !in s && ':' !in "0x" + s
    ensures Strip(s) == s && Strip("0x" + s) == "0x" + s
  {
  }

  lemma PrintedAddress(a: uint32)
    ensures ':' !in "0x" + PrintHex4(a) && AddressField("0x" + PrintHex4(a)) == a
  {
    PrintHex4IsDigits(a);
    DigitsArePlain(PrintHex4(a), 16);
    HexRoundTrip(a);
  }

  lemma PrintedDecimal(v: uint16)
    ensures ':' !in Print(v, 10) && SizeField(Print(v, 10)) == v
    ensures v < 0x100 ==> LevelField(Print(v, 10)) == v
  {
    PrintIsDigits(v, 10);
    DigitsArePlain(Print(v, 10), 10);
    DecimalRoundTrip(v);
    DecimalField(Print(v, 10), v);
  }

  lemma DecimalField(s: string, v: uint16)
    requires Strip(s) == s && Atoi(s) == v
    ensures SizeField(s) == v && (v < 0x100 ==> LevelField(s) == v)
  {
  }

  /** A value of three plain fields stands for the numbers they read as. */
  lemma EntryOfFields(d: Did, name: string, h: string, n: string, l: string)
    requires StoredName(name) == d.name
    requires h != [] && n != [] && l != [] && ':' !in h && ':' !in n && ':' !in l
    requires AddressField(h) == d.address && SizeField(n) == d.size && LevelField(l) == d.level
    ensures 3 <= |Fields(Colons(h, n, l))| && Entry(name, Colons(h, n, l)) == d.(udid := Identifier(name))
  {
    EntryFields(name, Colons(h, n, l), h, n, l, []);
  }

  /** Reading one printed line gives back its entry, with the identifier the printed
      name spells. */
  lemma EntryReadBack(d: Did, name: string)
    requires StoredName(name) == d.name
    ensures 3 <= |Fields(PrintedValue(d))| && Entry(name, PrintedValue(d)) == d.(udid := Identifier(name))
  {
    PrintedAddress(d.address);
    PrintedDecimal(d.size);
    PrintedDecimal(d.level);
    EntryOfFields(d, name, "0x" + PrintHex4(d.address), Print(d.size, 10), Print(d.level, 10));
  }

  // ---- Reading printed text

  /** Characters after the last equals sign. */
  function ValueLength(s: string): (n: nat)
    ensures n <= |s|
  {
    if s == [] || s[|s| - 1] == '=' then 0 else 1 + ValueLength(s[..|s| - 1])
  }

  function WithoutEnd(s: string, end: char): string {
    if s != [] && s[|s| - 1] == end then s[..|s| - 1] else s
  }

  /** A line is cut at its last equals sign; the line end and one blank on each side of
      the sign belong to neither part. */
  function CutLine(section: string, line: string): Line {
    var s := WithoutEnd(line, '\n');
    var n := ValueLength(s);
    var name, value := s[..Max(|s| - n - 1, 0)], s[|s| - n..];
    Line(section, WithoutEnd(name, ' '), if value != [] && value[0] == ' ' then value[1..] else value)
  }

  function CutLines(section: string, lines: seq<string>): (r: seq<Line>)
    ensures |r| == |lines|
  {
    seq(|lines|, i requires 0 <= i < |lines| => CutLine(section, lines[i]))
  }

  /** Characters before the first line end. */
  function LineLength(text: string): (n: nat)
    ensures n <= |text|
  {
    if text == [] || text[0] == '\n' then 0 else 1 + LineLength(text[1..])
  }

  /** The lines of a text, each with its line end. */
  function LinesOf(text: string): seq<string> {
    var n := LineLength(text);
    if n == |text| then if n == 0 then [] else [text]
    else [text[..n + 1]] + LinesOf(text[n + 1..])
  }

  predicate IsLine(line: string) {
    line != [] && LineLength(line) == |line| - 1
  }

  lemma {:induction false} LineLengthOf(body: string, rest: string)
    requires '\n' !in body
    ensures LineLength(body + "\n" + rest) == |body|
  {
    var s := body + "\n" + rest;
    if body != [] {
      assert body[0] in body;
      assert s[1..] == body[1..] + "\n" + rest;
      LineLengthOf(body[1..], rest);
    }
  }

  lemma {:induction false} LineLengthFirst(line: string, rest: string)
    requires IsLine(line)
    ensures LineLength(line + rest) == |line| - 1
  {
    if |line| > 1 {
      assert (line + rest)[1..] == line[1..] + rest;
      LineLengthFirst(line[1..], rest);
    }
  }

  lemma LinesOfFirst(line: string, rest: string)
    requires IsLine(line)
    ensures LinesOf(line + rest) == [line] + LinesOf(rest)
  {
    LineLengthFirst(line, rest);
    assert (line + rest)[..|line|] == line && (line + rest)[|line|..] == rest;
  }

  lemma {:induction false} ConcatCons(line: string, lines: seq<string>)
    ensures Concat([line] + lines) == line + Concat(lines)
  {
    var all := [line] + lines;
    if lines == [] {
      assert all[..0] == [] && Concat(all[..0]) == "";
    } else {
      var n := |lines| - 1;
      ConcatCons(line, lines[..n]);
      assert all[..|lines|] == [line] + lines[..n];
      assert line + (Concat(lines[..n]) + lines[n]) == (line + Concat(lines[..n])) + lines[n];
    }
  }

  /** The lines of a text made of lines are those lines. */
  lemma {:induction false} LinesOfConcat(lines: seq<string>)
    requires forall i :: 0 <= i < |lines| ==> IsLine(lines[i])
    ensures LinesOf(Concat(lines)) == lines
  {
    if lines != [] {
      LinesOfConcat(lines[1..]);
      assert lines == [lines[0]] + lines[1..];
      ConcatCons(lines[0], lines[1..]);
      LinesOfFirst(lines[0], Concat(lines[1..]));
    }
  }

  lemma {:induction false} ValueLengthOf(front: string, value: string)
    requires '=' !in value
    ensures ValueLength(front + "=" + value) == |value|
  {
    var s := front + "=" + value;
    if value != [] {
      var n := |value| - 1;
      assert value[n] in value;
      assert s[..|s| - 1] == front + "=" + value[..n];
      ValueLengthOf(front, value[..n]);
    }
  }

  /** A line `name = value` is read as that name and value. */
  lemma CutLineOf(section: string, name: string, value: string)
    requires '=' !in value
    ensures CutLine(section, name + " = " + value + "\n") == Line(section, name, value)
  {
    var front, rest := name + " ", " " + value;
    var s := front + "=" + rest;
    assert name + " = " + value + "\n" == s + "\n";
    assert WithoutEnd(s + "\n", '\n') == s;
    ValueLengthOf(front, rest);
    assert s[..|front|] == front && s[|s| - |rest|..] == rest;
    assert WithoutEnd(front, ' ') == name && rest[1..] == value;
  }

  /** A printed value has no characters but digits, colons and an `x`. */
  lemma PrintedValueIsPlain(d: Did, c: char)
    requires !IsDigit(c, 16) && c != ':' && c != 'x'
    ensures c !in PrintedValue(d)
  {
    PrintHex4IsDigits(d.address);
    PrintIsDigits(d.size, 10);
    PrintIsDigits(d.level, 10);
    AbsentFromColons(c, "0x" + PrintHex4(d.address), Print(d.size, 10), Print(d.level, 10));
  }

  lemma AbsentFromColons(c: char, h: string, n: string, l: string)
    requires c != ':' && c !in h && c !in n && c !in l
    ensures c !in Colons(h, n, l)
  {
  }

  /** Every printed line is the printed name, the address in hexadecimal, and the size and
      the level in decimal. */
  lemma PrintedLineForm(dids: seq<Did>, i: nat, after: string)
    requires i < |dids| <= MAX_DID_ENTRIES
    ensures PrintedLines(dids, after)[i] ==
      PrintedName(dids, i, after) + " = 0x" + PrintHex4(dids[i].address) + ":" +
      Print(dids[i].size, 10) + ":" + Print(dids[i].level, 10) + "\n"
    ensures PrintedLines(dids, after)[i] == PrintedName(dids, i, after) + " = " + PrintedValue(dids[i]) + "\n"
  {
    var h, n, l := PrintHex4(dids[i].address), Print(dids[i].size, 10), Print(dids[i].level, 10);
    FormatPieces(PrintedName(dids, i, after), h, n, l);
  }

  lemma FormatPieces(name: string, h: string, n: string, l: string)
    ensures name + " = " + Colons("0x" + h, n, l) + "\n" == name + " = 0x" + h + ":" + n + ":" + l + "\n"
  {
    assert " = " + "0x" == " = 0x";
  }

  /** A printed line is read as the printed name and value. */
  lemma PrintedLineRead(section: string, dids: seq<Did>, i: nat, after: string)
    requires i < |dids| <= MAX_DID_ENTRIES
    ensures CutLines(section, PrintedLines(dids, after))[i] ==
            Line(section, PrintedName(dids, i, after), PrintedValue(dids[i]))
  {
    PrintedLineForm(dids, i, after);
    PrintedValueIsPlain(dids[i], '=');
    CutLineOf(section, PrintedName(dids, i, after), PrintedValue(dids[i]));
  }

  lemma {:induction false} AddAllOfPresent(dids: seq<Did>, ms: seq<Option<Did>>)
    requires |ms| == |dids| <= MAX_DID_ENTRIES && forall i :: 0 <= i < |ms| ==> ms[i] == Some(dids[i])
    ensures AddAll([], ms) == dids
  {
    if dids != [] {
      AddAllOfPresent(dids[..|dids| - 1], ms[..|ms| - 1]);
      assert dids == dids[..|dids| - 1] + [dids[|dids| - 1]];
    }
  }

  /** The list the printed lines are read back as: every name, address, size and level
      survives; the identifier is what the printed name spells. */
  lemma PrintedListReadBack(section: string, dids: seq<Did>, after: string) returns (back: seq<Did>)
    requires SameIgnoringCase(section, "data_identifiers") && AllStorable(dids)
    ensures HandleAll([], CutLines(section, PrintedLines(dids, after))) == back && |back| == |dids|
    ensures forall i :: 0 <= i < |dids| ==>
      back[i] == dids[i].(udid := Identifier(PrintedName(dids, i, after)))
  {
    var lines := CutLines(section, PrintedLines(dids, after));
    back := seq(|dids|, i requires 0 <= i < |dids| => dids[i].(udid := Identifier(PrintedName(dids, i, after))));
    forall i | 0 <= i < |dids| ensures Meaning(lines[i]) == Some(back[i]) {
      PrintedLineRead(section, dids, i, after);
      PrintedNameRunsOn(dids, i, after);
      assert Storable(dids[i]);
      assert StoredName(PrintedName(dids, i, after)) == dids[i].name;
      EntryReadBack(dids[i], PrintedName(dids, i, after));
    }
    AddAllOfPresent(back, Meanings(lines));
  }

  /** Reading the printed lines of a list rebuilds it if and only if every printed name,
      with what it runs on into, still spells the entry's identifier. */
  lemma ListRoundTripIff(section: string, dids: seq<Did>, after: string)
    requires SameIgnoringCase(section, "data_identifiers") && AllStorable(dids)
    ensures HandleAll([], CutLines(section, PrintedLines(dids, after))) == dids <==>
      forall i :: 0 <= i < |dids| ==> Identifier(PrintedName(dids, i, after)) == dids[i].udid
  {
    var back := PrintedListReadBack(section, dids, after);
    if forall i :: 0 <= i < |dids| ==> Identifier(PrintedName(dids, i, after)) == dids[i].udid {
      assert forall i :: 0 <= i < |dids| ==> back[i] == dids[i];
    }
    if back == dids {
      assert forall i :: 0 <= i < |dids| ==> back[i] == dids[i];
    }
  }

  /** No printed name has a line end in it. */
  predicate OnOneLine(dids: seq<Did>, after: string)
    requires |dids| <= MAX_DID_ENTRIES
  {
    forall i :: 0 <= i < |dids| ==> '\n' !in PrintedName(dids, i, after)
  }

  /** The same for the whole printed text, split at its line ends. */
  lemma TextRoundTripIff(section: string, dids: seq<Did>, after: string)
    requires SameIgnoringCase(section, "data_identifiers") && AllStorable(dids) && OnOneLine(dids, after)
    ensures HandleAll([], CutLines(section, LinesOf(Concat(PrintedLines(dids, after))))) == dids <==>
      forall i :: 0 <= i < |dids| ==> Identifier(PrintedName(dids, i, after)) == dids[i].udid
  {
    forall i | 0 <= i < |dids| ensures IsLine(PrintedLines(dids, after)[i]) {
      PrintedLineForm(dids, i, after);
      PrintedValueIsPlain(dids[i], '\n');
      OneLine(PrintedName(dids, i, after), PrintedValue(dids[i]));
    }
    LinesOfConcat(PrintedLines(dids, after));
    ListRoundTripIff(section, dids, after);
  }

  /** Reading a text gives the list if and only if the list's printed names spell its
      identifiers. */
  ghost predicate ReadBackIff(text: string, dids: seq<Did>, after: string)
    requires |dids| <= MAX_DID_ENTRIES
  {
    HandleAll([], CutLines("data_identifiers", LinesOf(text))) == dids <==>
    forall i :: 0 <= i < |dids| ==> Identifier(PrintedName(dids, i, after)) == dids[i].udid
  }

  lemma PrintedTextRead(text: string, dids: seq<Did>, after: string)
    requires AllStorable(dids) && text == Concat(PrintedLines(dids, after))
    ensures OnOneLine(dids, after) ==> ReadBackIff(text, dids, after)
  {
    if OnOneLine(dids, after) {
      SameAsItself("data_identifiers");
      TextRoundTripIff("data_identifiers", dids, after);
    }
  }

  lemma OneLine(name: string, value: string)
    requires '\n' !in name && '\n' !in value
    ensures IsLine(name + " = " + value + "\n")
  {
    LineLengthOf(name + " = " + value, []);
    assert name + " = " + value + "\n" + [] == name + " = " + value + "\n";
  }

  /** Round trip: printing any list of at most 50 well-named entries and reading the
      lines back into an empty configuration rebuilds exactly that list. */
  lemma ListRoundTrip(section: string, dids: seq<Did>, after: string)
    requires SameIgnoringCase(section, "data_identifiers")
    requires |dids| <= MAX_DID_ENTRIES && forall i :: 0 <= i < |dids| ==> WellNamed(dids[i])
    ensures HandleAll([], CutLines(section, PrintedLines(dids, after))) == dids
    ensures forall i :: 0 <= i < |dids| ==> NUL !in PrintedLines(dids, after)[i]
  {
    assert AllStorable(dids);
    forall i | 0 <= i < |dids|
      ensures Identifier(PrintedName(dids, i, after)) == dids[i].udid && NUL !in PrintedLines(dids, after)[i]
    {
      assert WellNamed(dids[i]);
      PrintedNameRunsOn(dids, i, after);
      assert dids[i].name + [] == dids[i].name;
      PrintedValueIsPlain(dids[i], NUL);
      PrintedLineForm(dids, i, after);
    }
    ListRoundTripIff(section, dids, after);
  }

  /** An eight-character name before a used slot breaks the round trip: the name
      0000F100 is printed as 0000F1001 and read back as identifier 0x1001. */
  lemma RunOnNameIsMisread(section: string, after: string)
    requires SameIgnoringCase(section, "data_identifiers")
    ensures var dids := [Did("0000F100", 0xF100, 0x1000, 4, 1), Did("1", 0x0001, 0x2000, 2, 1)];
      Identifier("0000F100") == 0xF100 && PrintedName(dids, 0, after) == "0000F100" + "1" &&
      HandleAll([], CutLines(section, PrintedLines(dids, after))) != dids
  {
    var dids := [Did("0000F100", 0xF100, 0x1000, 4, 1), Did("1", 0x0001, 0x2000, 2, 1)];
    RunOnIdentifier(dids[0].name);
    RunOnName(dids, after);
    ListRoundTripIff(section, dids, after);
    assert Identifier(PrintedName(dids, 0, after)) != dids[0].udid;
  }

  lemma RunOnName(dids: seq<Did>, after: string)
    requires |dids| == 2 && dids[0].name == "0000F100" && dids[1].name == "1"
    ensures AllStorable(dids) && PrintedName(dids, 0, after) == dids[0].name + "1"
  {
    PrintedNameRunsOn(dids, 0, after);
    PrintedNameRunsOn(dids, 1, after);
  }

  lemma RunOnIdentifier(name: string)
    requires name == "0000F100"
    ensures Identifier(name) == 0xF100 && Identifier(name + "1") == 0x1001
  {
    AccumulateF100(name);
    AppendOne(name);
    HexIdentifier(name, 0xF100);
    HexIdentifier(name + "1", 0xF1001);
  }

  lemma AccumulateF100(name: string)
    requires name == "0000F100"
    ensures AllDigits(name, 16) && Accumulate(name, 16, 0) == 0xF100
  {
    assert name == seq(4, i => '0') + "F100";
    LeadingZeros(4, "F100");
    assert "F100"[1..] == "100" && "100"[1..] == "00" && "00"[1..] == "0" && "0"[1..] == "";
    assert Accumulate("00", 16, 0xF1) == 0xF100;
  }

  lemma AppendOne(s: string)
    requires AllDigits(s, 16)
    ensures AllDigits(s + "1", 16) && Accumulate(s + "1", 16, 0) == 16 * Accumulate(s, 16, 0) + 1
  {
    var v := Accumulate(s, 16, 0);
    AccumulateAppend(s, "1", 16, 0);
    assert "1"[1..] == "" && Accumulate("", 16, 16 * v + 1) == 16 * v + 1;
  }

  lemma HexIdentifier(s: string, v: uint32)
    requires |s| >= 2 && AllDigits(s, 16) && Accumulate(s, 16, 0) == v
    ensures Identifier(s) == v % U16
  {
    DigitsAreNotSpecial(s, 16);
    assert s[1] != 'x' && s[1] != 'X';
  }

  lemma {:induction false} AddAllStorable(ms: seq<Option<Did>>)
    requires forall i :: 0 <= i < |ms| && ms[i].Some? ==> Storable(ms[i].value)
    ensures AllStorable(AddAll([], ms))
  {
    if ms != [] {
      AddAllStorable(ms[..|ms| - 1]);
    }
  }

  /** A list read from any lines can be stored in the name table. */
  lemma ReadListIsStorable(lines: seq<Line>)
    requires forall i :: 0 <= i < |lines| ==> NUL !in lines[i].name
    ensures AllStorable(HandleAll([], lines))
  {
    forall i | 0 <= i < |lines| && Meaning(lines[i]).Some? ensures Storable(Meaning(lines[i]).value) {
      assert forall c :: c in StoredName(lines[i].name) ==> c in lines[i].name;
    }
    AddAllStorable(Meanings(lines));
  }

  /** Printing a list read from any lines and reading it again changes nothing if and only
      if every printed name still spells the identifier the line's name spelled. */
  lemma ReadingIsStableIff(section: string, lines: seq<Line>, after: string)
    requires SameIgnoringCase(section, "data_identifiers")
    requires forall i :: 0 <= i < |lines| ==> NUL !in lines[i].name
    ensures var dids := HandleAll([], lines);
      |dids| <= MAX_DID_ENTRIES &&
      (HandleAll([], CutLines(section, PrintedLines(dids, after))) == dids <==>
       forall i :: 0 <= i < |dids| ==> Identifier(PrintedName(dids, i, after)) == dids[i].udid)
  {
    ReadListIsStorable(lines);
    ListRoundTripIff(section, HandleAll([], lines), after);
  }
}
