/** The configuration text of the DID section: what its lines mean. */
module ConfigText {
  import opened Options
  import opened Bytes
  import opened Services
  import opened Config
  import opened CText

  const NAME_SIZE := 8
  const NAMES_SIZE := MAX_DID_ENTRIES * NAME_SIZE

  /** A (section, name, value) triple as the INI reader delivers it. */
  datatype Line = Line(section: string, name: string, value: string)

  function Lower(c: char): char {
    if 'A' <= c <= 'Z' then c - 'A' + 'a' else c
  }

  /** `strcasecmp(s, t) == 0`. */
  predicate SameIgnoringCase(s: string, t: string) {
    if s == [] || t == [] then s == t
    else Lower(s[0]) == Lower(t[0]) && SameIgnoringCase(s[1..], t[1..])
  }

  /** The two letters of the alphabet, or the same character. */
  predicate SameLetter(c: char, d: char) {
    c == d || ('a' <= c <= 'z' && d as int == c as int - 32) || ('a' <= d <= 'z' && c as int == d as int - 32)
  }

  /** Two names are the same when they have one length and agree letter by letter. */
  lemma {:induction false} SameIgnoringCaseIff(s: string, t: string)
    ensures SameIgnoringCase(s, t) <==> |s| == |t| && forall i :: 0 <= i < |s| ==> SameLetter(s[i], t[i])
  {
    if s != [] && t != [] {
      SameIgnoringCaseIff(s[1..], t[1..]);
      assert forall i :: 1 <= i < |s| ==> s[i] == s[1..][i - 1];
      assert forall i :: 1 <= i < |t| ==> t[i] == t[1..][i - 1];
    }
  }

  lemma SameAsItself(s: string)
    ensures SameIgnoringCase(s, s)
  {
    SameIgnoringCaseIff(s, s);
  }

  predicate IsDidLine(l: Line) {
    SameIgnoringCase(l.section, "data_identifiers") && 3 <= |Fields(l.value)|
  }

  function Identifier(name: string): uint16 {
    ParseHex(name) % U16
  }

  function AddressField(f: string): uint32 {
    ParseHex(Strip(f))
  }

  function SizeField(f: string): uint16 {
    Atoi(Strip(f)) % U16
  }

  function LevelField(f: string): byte {
    Atoi(Strip(f)) % 0x100
  }

  /** What of a name fits its eight-byte slot. */
  function StoredName(name: string): string {
    name[..Min(|name|, NAME_SIZE)]
  }

  /** The entry a line with at least three fields stands for; further fields are ignored. */
  function Entry(name: string, value: string): Did
    requires 3 <= |Fields(value)|
  {
    var f := Fields(value);
    Did(StoredName(name), Identifier(name), AddressField(f[0]), SizeField(f[1]), LevelField(f[2]))
  }

  /** What one line contributes to the list. */
  function Meaning(l: Line): Option<Did> {
    if IsDidLine(l) then Some(Entry(l.name, l.value)) else None
  }

  function Add(dids: seq<Did>, m: Option<Did>): seq<Did> {
    if m.Some? && |dids| < MAX_DID_ENTRIES then dids + [m.value] else dids
  }

  function AddAll(dids: seq<Did>, ms: seq<Option<Did>>): seq<Did> {
    if ms == [] then dids else Add(AddAll(dids, ms[..|ms| - 1]), ms[|ms| - 1])
  }

  function Meanings(lines: seq<Line>): (ms: seq<Option<Did>>)
    ensures |ms| == |lines| && forall i :: 0 <= i < |ms| ==> ms[i] == Meaning(lines[i])
  {
    seq(|lines|, i requires 0 <= i < |lines| => Meaning(lines[i]))
  }

  /** The list after one more line, and after any sequence of lines. */
  function Handle(dids: seq<Did>, l: Line): seq<Did> {
    Add(dids, Meaning(l))
  }

  function HandleAll(dids: seq<Did>, lines: seq<Line>): seq<Did> {
    AddAll(dids, Meanings(lines))
  }

  lemma HandleAllSnoc(dids: seq<Did>, lines: seq<Line>, l: Line)
    ensures HandleAll(dids, lines + [l]) == Handle(HandleAll(dids, lines), l)
  {
    assert Meanings(lines + [l])[..|lines|] == Meanings(lines);
  }

  function Present(m: Option<Did>): seq<Did> {
    if m.Some? then [m.value] else []
  }

  /** The entries present in a sequence, in order and without limit. */
  function Somes(ms: seq<Option<Did>>): seq<Did> {
    if ms == [] then [] else Present(ms[0]) + Somes(ms[1..])
  }

  lemma {:induction false} SomesSnoc(ms: seq<Option<Did>>, m: Option<Did>)
    ensures Somes(ms + [m]) == Somes(ms) + Present(m)
  {
    if ms == [] {
      assert ms + [m] == [m];
      assert [m][1..] == [];
    } else {
      var rest := ms[1..];
      SomesSnoc(rest, m);
      assert (ms + [m])[1..] == rest + [m];
      assert (Present(ms[0]) + Somes(rest)) + Present(m) == Present(ms[0]) + (Somes(rest) + Present(m));
    }
  }

  lemma {:induction false} AddAllIsFirstFifty(ms: seq<Option<Did>>)
    ensures AddAll([], ms) == Somes(ms)[..Min(MAX_DID_ENTRIES, |Somes(ms)|)]
  {
    if ms != [] {
      var front, last := ms[..|ms| - 1], ms[|ms| - 1];
      assert ms == front + [last];
      AddAllIsFirstFifty(front);
      SomesSnoc(front, last);
    }
  }

  /** Any sequence of lines leaves the first 50 entries of the section, in order. */
  lemma ListIsFirstFifty(lines: seq<Line>)
    ensures var all := Somes(Meanings(lines));
      HandleAll([], lines) == if |all| <= 50 then all else all[..50]
  {
    AddAllIsFirstFifty(Meanings(lines));
  }

  lemma {:induction false} AddAllGrows(dids: seq<Did>, ms: seq<Option<Did>>, k: nat)
    requires k <= |ms|
    ensures AddAll(dids, ms[..k]) <= AddAll(dids, ms)
    decreases |ms|
  {
    if k < |ms| {
      var front := ms[..|ms| - 1];
      AddAllGrows(dids, front, k);
      assert front[..k] == ms[..k];
    } else {
      assert ms[..k] == ms;
    }
  }

  /** Later lines never alter an entry already in the list. */
  lemma EntriesAreStable(dids: seq<Did>, lines: seq<Line>, k: nat)
    requires k <= |lines|
    ensures HandleAll(dids, lines[..k]) <= HandleAll(dids, lines)
  {
    assert Meanings(lines[..k]) == Meanings(lines)[..k];
    AddAllGrows(dids, Meanings(lines), k);
  }

  lemma FieldsOfFirst(f: string, rest: string)
    requires f != [] && ':' !in f
    ensures Fields(f + ":" + rest) == [f] + Fields(rest)
  {
    var s, tail := f + ":" + rest, ":" + rest;
    assert s == f + tail && f[0] in f;
    FieldLengthOf(f, tail);
    assert s[..|f|] == f && s[|f| + 1..] == rest;
  }

  lemma FieldsOfLast(f: string)
    requires f != [] && ':' !in f
    ensures Fields(f) == [f]
  {
    FieldLengthOf(f, []);
    assert f[0] in f && f + [] == f;
    assert f[..|f|] == f;
  }

  lemma ThreeFields(h: string, n: string, l: string, more: string)
    requires h != [] && n != [] && l != [] && ':' !in h && ':' !in n && ':' !in l
    requires more == [] || more[0] == ':'
    ensures Fields(h + ":" + (n + ":" + (l + more))) == [h, n, l] + Fields(more)
  {
    FieldsOfFirst(h, n + ":" + (l + more));
    FieldsOfFirst(n, l + more);
    if more == [] {
      assert l + more == l;
      FieldsOfLast(l);
    } else {
      assert l + more == l + ":" + more[1..];
      FieldsOfFirst(l, more[1..]);
    }
  }

  lemma PartsRegrouped(h: string, n: string, l: string, more: string)
    ensures h + ":" + n + ":" + l + more == h + ":" + (n + ":" + (l + more))
  {
  }

  /** A value of three or more nonempty parts between single colons gives the entry its
      address, size and level in this order; what follows the third is ignored. */
  lemma EntryFields(name: string, value: string, h: string, n: string, l: string, more: string)
    requires h != [] && n != [] && l != [] && ':' !in h && ':' !in n && ':' !in l
    requires more == [] || more[0] == ':'
    requires value == h + ":" + n + ":" + l + more
    ensures 3 <= |Fields(value)|
    ensures Entry(name, value) ==
      Did(if |name| <= 8 then name else name[..8], ParseHex(name) % 0x1_0000,
          ParseHex(Strip(h)), Atoi(Strip(n)) % 0x1_0000, Atoi(Strip(l)) % 0x100)
  {
    FieldsOfParts(value, h, n, l, more);
    EntryOf(name, value, [h, n, l] + Fields(more));
  }

  lemma FieldsOfParts(value: string, h: string, n: string, l: string, more: string)
    requires h != [] && n != [] && l != [] && ':' !in h && ':' !in n && ':' !in l
    requires more == [] || more[0] == ':'
    requires value == h + ":" + n + ":" + l + more
    ensures Fields(value) == [h, n, l] + Fields(more)
  {
    ThreeFields(h, n, l, more);
    PartsRegrouped(h, n, l, more);
  }

  lemma EntryOf(name: string, value: string, f: seq<string>)
    requires Fields(value) == f && 3 <= |f|
    ensures Entry(name, value) ==
      Did(if |name| <= 8 then name else name[..8], ParseHex(name) % 0x1_0000,
          ParseHex(Strip(f[0])), Atoi(Strip(f[1])) % 0x1_0000, Atoi(Strip(f[2])) % 0x100)
  {
  }
}
