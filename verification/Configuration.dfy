/** The configuration object the INI reader fills line by line. */
module Configuration {
  import opened Bytes
  import opened Services
  import opened Config
  import opened CText
  import opened ConfigText
  import opened PrintedText
  import opened StrTok

  /** One element of the `data_identifiers` array. */
  datatype Record = Record(udid: uint16, address: uint32, size: uint16, level: byte)

  class EcuConfig {
    var startAddr: uint32
    var endAddr: uint32
    const identifiers: array<Record>
    const names: array<char>
    var didCount: nat
    ghost var list: seq<Did>

    /** The arrays hold the list: a record per entry, and the 400-character name table. */
    ghost predicate Valid()
      reads this, identifiers, names
    {
      identifiers.Length == MAX_DID_ENTRIES && names.Length == NAMES_SIZE &&
      didCount == |list| && AllStorable(list) && names[..] == NameTable(list) &&
      forall i :: 0 <= i < didCount ==> identifiers[i] == RecordOf(list[i])
    }

    /** A cleared configuration. */
    constructor ()
      ensures Valid() && list == [] && startAddr == 0 && endAddr == 0
      ensures fresh(identifiers) && fresh(names)
    {
      startAddr, endAddr, didCount, list := 0, 0, 0, [];
      identifiers := new Record[MAX_DID_ENTRIES](_ => Record(0, 0, 0, 0));
      names := new char[NAMES_SIZE](_ => NUL);
    }

    /** One line of the file. The list grows as `Handle` says; the window's ends
        are set by the memory section. Other settings are not part of this model. */
    method Handler(l: Line)
      requires Valid() && NUL !in l.name && NUL !in l.value
      modifies this, identifiers, names
      ensures Valid()
      ensures list == Handle(old(list), l)
      ensures startAddr == Setting(l, "start_addr", old(startAddr))
      ensures endAddr == Setting(l, "end_addr", old(endAddr))
    {
      if SameIgnoringCase(l.section, "memory") {
        KeysDiffer(l.section, l.name);
        if SameIgnoringCase(l.name, "start_addr") {
          startAddr := ParseHex(l.value);
        } else if SameIgnoringCase(l.name, "end_addr") {
          endAddr := ParseHex(l.value);
        }
      } else if SameIgnoringCase(l.section, "data_identifiers") {
        AddDid(l.name, l.value);
      }
    }

    /** A line of the DID section: three tokens make an entry while there is room. */
    method AddDid(name: string, value: string)
      requires Valid() && NUL !in name && NUL !in value
      modifies this`didCount, this`list, identifiers, names
      ensures Valid()
      ensures list == if 3 <= |Fields(value)| && |old(list)| < MAX_DID_ENTRIES
                      then old(list) + [Entry(name, value)] else old(list)
    {
      if didCount < MAX_DID_ENTRIES {
        var i, tokens, buf := Tokens(value);
        if i == 3 {
          var address, size, level :=
            CString(buf[..], tokens[0]), CString(buf[..], tokens[1]), CString(buf[..], tokens[2]);
          var r := Record(ParseHex(name) % U16, ParseHex(address), Atoi(size) % U16, Atoi(level) % 0x100);
          Append(name, r);
        }
      }
    }

    method Append(name: string, r: Record)
      requires Valid() && didCount < MAX_DID_ENTRIES && NUL !in name
      modifies this`didCount, this`list, identifiers, names
      ensures Valid()
      ensures list == old(list) + [Did(StoredName(name), r.udid, r.address, r.size, r.level)]
    {
      ghost var d := Did(StoredName(name), r.udid, r.address, r.size, r.level);
      identifiers[didCount] := r;
      CopyName(names, NAME_SIZE * didCount, name);
      TableAppend(list, d);
      assert names[..] == NameTable(list + [d]);
      didCount := didCount + 1;
      list := list + [d];
    }

    /** The name in a slot, read no further than the slot. */
    method NameAt(i: nat) returns (name: string)
      requires Valid() && i < didCount
      ensures name == list[i].name
    {
      name := CString(names[NAME_SIZE * i..NAME_SIZE * i + NAME_SIZE], 0);
      TableSlot(list, i, []);
      assert Storable(list[i]) && NameTable(list) + [] == names[..];
      SlotReads(names[NAME_SIZE * i..NAME_SIZE * i + NAME_SIZE], list[i].name);
    }

    /** The list by value, as the handlers pass it on. */
    method Snapshot() returns (dids: seq<Did>)
      requires Valid()
      ensures dids == list
    {
      dids := [];
      for i := 0 to didCount
        invariant dids == list[..i]
      {
        var r := identifiers[i];
        var name := NameAt(i);
        dids := dids + [Did(name, r.udid, r.address, r.size, r.level)];
      }
    }

    /** What `%s` prints for a slot: the characters up to the first terminator from there. */
    method PrintedNameAt(i: nat, after: string) returns (name: string)
      requires Valid() && i < didCount
      ensures name == PrintedName(list, i, after)
    {
      name := CString(names[..] + after, NAME_SIZE * i);
    }

    method PrintDid(i: nat, after: string) returns (line: string)
      requires Valid() && i < didCount
      ensures line == PrintedLines(list, after)[i]
    {
      var r := identifiers[i];
      var name := PrintedNameAt(i, after);
      line := Format(name, r.address, r.size, r.level);
    }

    /** The data-identifier part of `print_config`. Each name is printed up to the first
        terminator from its slot on, wherever that is; `after` is what follows the table. */
    method PrintDids(after: string) returns (out: string)
      requires Valid()
      ensures out == Concat(PrintedLines(list, after))
      ensures OnOneLine(list, after) ==> ReadBackIff(out, list, after)
    {
      out := "";
      ghost var lines := PrintedLines(list, after);
      for i := 0 to didCount
        invariant FirstLines(out, lines, i)
      {
        var line := PrintDid(i, after);
        ConcatSnoc(out, lines, i);
        out := out + line;
      }
      ConcatAll(out, lines);
      PrintedTextRead(out, list, after);
    }
  }

  function RecordOf(d: Did): Record {
    Record(d.udid, d.address, d.size, d.level)
  }

  /** `strncpy(slot, name, 8)`. */
  method CopyName(names: array<char>, at: nat, name: string)
    requires at + NAME_SIZE <= names.Length
    modifies names
    ensures names[..] == old(names[..at]) + NameSlot(name) + old(names[at + NAME_SIZE..])
  {
    for k := 0 to NAME_SIZE
      invariant forall i :: 0 <= i < names.Length && !(at <= i < at + k) ==> names[i] == old(names[i])
      invariant forall i :: at <= i < at + k ==> names[i] == NameSlot(name)[i - at]
    {
      names[at + k] := if k < |name| then name[k] else NUL;
    }
  }

  lemma TableAppend(dids: seq<Did>, d: Did)
    requires |dids| < MAX_DID_ENTRIES && |d.name| <= NAME_SIZE
    ensures var t, at := NameTable(dids), NAME_SIZE * |dids|;
      NameTable(dids + [d]) == t[..at] + NameSlot(d.name) + t[at + NAME_SIZE..]
  {
    assert (dids + [d])[..|dids|] == dids;
  }

  lemma SlotReads(slot: string, name: string)
    requires |name| <= NAME_SIZE && NUL !in name && slot == name + Nuls(NAME_SIZE - |name|)
    ensures CString(slot, 0) == name
  {
    CStringRuns(slot, 0, |name|);
    assert slot[0..|name|] == name;
  }

  /** The value of a memory key after a line. */
  function Setting(l: Line, key: string, before: uint32): uint32 {
    if Sets(l, key) then ParseHex(l.value) else before
  }

  /** The value the last line setting a memory key gives it, zero if there is none. */
  function LastSetting(lines: seq<Line>, key: string): uint32 {
    if lines == [] then 0
    else Setting(lines[|lines| - 1], key, LastSetting(lines[..|lines| - 1], key))
  }

  lemma LastSettingSnoc(lines: seq<Line>, l: Line, key: string)
    ensures LastSetting(lines + [l], key) == Setting(l, key, LastSetting(lines, key))
  {
    assert (lines + [l])[..|lines|] == lines;
  }

  /** The configuration read from the lines. */
  ghost predicate HasRead(config: EcuConfig, lines: seq<Line>)
    reads config
  {
    config.list == HandleAll([], lines) &&
    config.startAddr == LastSetting(lines, "start_addr") &&
    config.endAddr == LastSetting(lines, "end_addr")
  }

  method ReadLine(config: EcuConfig, ghost before: seq<Line>, l: Line)
    requires config.Valid() && NUL !in l.name && NUL !in l.value && HasRead(config, before)
    modifies config, config.identifiers, config.names
    ensures config.Valid() && HasRead(config, before + [l])
  {
    config.Handler(l);
    HandleAllSnoc([], before, l);
    LastSettingSnoc(before, l, "start_addr");
    LastSettingSnoc(before, l, "end_addr");
  }

  /** `parse_config` over the triples the INI reader delivers. */
  method ParseConfig(lines: seq<Line>) returns (config: EcuConfig)
    requires forall i :: 0 <= i < |lines| ==> NUL !in lines[i].name && NUL !in lines[i].value
    ensures fresh(config) && config.Valid()
    ensures HasRead(config, lines)
  {
    config := new EcuConfig();
    for i := 0 to |lines|
      invariant fresh(config) && fresh(config.identifiers) && fresh(config.names) && config.Valid()
      invariant HasRead(config, lines[..i])
    {
      ReadLine(config, lines[..i], lines[i]);
      assert lines[..i + 1] == lines[..i] + [lines[i]];
    }
    assert lines[..|lines|] == lines;
  }

  /** A section or key name matches at most one of the spellings tried in turn. */
  lemma KeysDiffer(section: string, name: string)
    ensures SameIgnoringCase(section, "memory") ==> !SameIgnoringCase(section, "data_identifiers")
    ensures SameIgnoringCase(name, "start_addr") ==> !SameIgnoringCase(name, "end_addr")
  {
  }

  /** The line sets this key of the memory section. */
  predicate Sets(l: Line, key: string) {
    SameIgnoringCase(l.section, "memory") && SameIgnoringCase(l.name, key)
  }
}
