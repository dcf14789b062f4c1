/** In-place tokenising: `strtok` on ':' and `trim`, which cut the buffer they share
    by writing terminators into it. */
module StrTok {
  import opened CText

  /** A stretch of a C string: no terminator in [p, q). */
  ghost predicate NoNul(b: seq<char>, p: int, q: int) {
    0 <= p <= q <= |b| && forall k :: p <= k < q ==> b[k] != NUL
  }

  /** A C string of the buffer: `text` at [p, q), ended by the NUL at q. */
  ghost predicate TokenAt(b: seq<char>, p: int, q: int, text: string) {
    NoNul(b, p, q) && q < |b| && b[q] == NUL && b[p..q] == text
  }

  lemma TokenReads(b: seq<char>, p: nat, q: int, text: string)
    requires TokenAt(b, p, q, text)
    ensures CString(b, p) == text
  {
    CStringRuns(b, p, q);
  }

  /** `strspn(s, ":")`: the first position that is no separator. */
  method SkipSeparators(buf: array<char>, from: nat, n: nat) returns (i: nat)
    requires from <= n == buf.Length - 1 && buf[n] == NUL
    ensures from <= i <= n && buf[i] != ':'
    ensures Fields(buf[i..n]) == Fields(buf[from..n])
  {
    i := from;
    while buf[i] == ':'
      invariant from <= i <= n
      invariant Fields(buf[i..n]) == Fields(buf[from..n])
      decreases n - i
    {
      assert buf[i..n][1..] == buf[i + 1..n];
      i := i + 1;
    }
  }

  /** `strcspn(s, ":")`: the first position that is a separator or the end. */
  method FieldEnd(buf: array<char>, i: nat, n: nat) returns (j: nat)
    requires i < n == buf.Length - 1 && buf[n] == NUL && NoNul(buf[..], i, n) && buf[i] != ':'
    ensures i < j <= n && (j < n ==> buf[j] == ':')
    ensures forall k :: i <= k < j ==> buf[k] != ':'
  {
    j := i;
    while buf[j] != ':' && buf[j] != NUL
      invariant i <= j <= n
      invariant forall k :: i <= k < j ==> buf[k] != ':'
      decreases n - j
    {
      j := j + 1;
    }
    assert buf[..][j] == buf[j];
  }

  /** The first field ends at the first separator. */
  lemma FieldAt(b: seq<char>, i: nat, j: nat, n: nat)
    requires i < j <= n <= |b| && (j < n ==> b[j] == ':')
    requires forall k :: i <= k < j ==> b[k] != ':'
    ensures Fields(b[i..n]) == [b[i..j]] + if j < n then Fields(b[j + 1..n]) else []
  {
    var text := b[i..n];
    FieldLengthOf(b[i..j], b[j..n]);
    assert text == b[i..j] + b[j..n];
    assert text[..j - i] == b[i..j];
    if j < n {
      assert text[j - i + 1..] == b[j + 1..n];
    }
  }

  /** One call of `strtok`, scanning from `from`; `save` is where the next one starts.
      It returns the first field of the text left to scan, terminated in place, and
      leaves the text after `save` as it was, with exactly the other fields in it. */
  method NextToken(buf: array<char>, from: nat, n: nat) returns (tok: int, save: nat)
    requires from <= n == buf.Length - 1 && buf[n] == NUL && NoNul(buf[..], from, n)
    modifies buf
    ensures from <= save <= n && buf[n] == NUL && NoNul(buf[..], save, n)
    ensures tok == -1 || from <= tok
    ensures tok == -1 ==> Fields(old(buf[from..n])) == [] && buf[..] == old(buf[..])
    ensures tok != -1 ==>
      var fields := Fields(old(buf[from..n]));
      fields != [] && fields[0] != [] &&
      TokenAt(buf[..], tok, tok + |fields[0]|, fields[0]) &&
      save == (if tok + |fields[0]| < n then tok + |fields[0]| + 1 else n) &&
      Fields(buf[save..n]) == fields[1..] &&
      forall k :: 0 <= k <= n && k != tok + |fields[0]| ==> buf[k] == old(buf[k])
  {
    var i := SkipSeparators(buf, from, n);
    assert buf[..][i] == buf[i];
    if buf[i] == NUL {
      assert buf[i..n] == [];
      return -1, i;
    }
    tok := i;
    save := CutField(buf, i, n);
  }

  /** Finds the end of the field at `i` and ends the token there. */
  method CutField(buf: array<char>, i: nat, n: nat) returns (save: nat)
    requires i < n == buf.Length - 1 && buf[n] == NUL && NoNul(buf[..], i, n) && buf[i] != ':'
    modifies buf
    ensures i < save <= n && buf[n] == NUL && NoNul(buf[..], save, n)
    ensures var fields := Fields(old(buf[i..n]));
      fields != [] && fields[0] != [] &&
      TokenAt(buf[..], i, i + |fields[0]|, fields[0]) &&
      save == (if i + |fields[0]| < n then i + |fields[0]| + 1 else n) &&
      Fields(buf[save..n]) == fields[1..] &&
      forall k :: 0 <= k <= n && k != i + |fields[0]| ==> buf[k] == old(buf[k])
  {
    var j := FieldEnd(buf, i, n);
    ghost var field, rest := buf[i..j], if j < n then Fields(buf[j + 1..n]) else [];
    assert Fields(buf[i..n]) == [field] + rest by {
      FieldAt(buf[..], i, j, n);
    }
    assert ([field] + rest)[1..] == rest;
    save := Cut(buf, i, j, n);
  }

  /** Ends the token at `j` and returns where scanning goes on. */
  method Cut(buf: array<char>, i: nat, j: nat, n: nat) returns (save: nat)
    requires i < j <= n == buf.Length - 1 && buf[n] == NUL && NoNul(buf[..], i, n)
    modifies buf
    ensures save == if j < n then j + 1 else n
    ensures forall k :: 0 <= k <= n && k != j ==> buf[k] == old(buf[k])
    ensures buf[n] == NUL && NoNul(buf[..], save, n)
    ensures TokenAt(buf[..], i, j, old(buf[i..j]))
    ensures buf[save..n] == if j < n then old(buf[j + 1..n]) else []
  {
    if j < n {
      buf[j] := NUL;
      save := j + 1;
    } else {
      save := j;
    }
  }

  /** `strlen`. */
  method StringLength(buf: array<char>, p: nat, ghost q: int) returns (len: nat)
    requires p <= q < buf.Length && buf[q] == NUL && NoNul(buf[..], p, q)
    ensures len == q - p
  {
    len := 0;
    while buf[p + len] != NUL
      invariant p + len <= q
      decreases q - p - len
    {
      len := len + 1;
    }
    assert buf[..][p + len] == NUL;
  }

  /** `trim`: skips leading white space, then ends the string after its last other
      character. Nothing outside the given string is written. */
  method Trim(buf: array<char>, p: nat, ghost q: int, ghost text: string) returns (r: nat)
    requires TokenAt(buf[..], p, q, text)
    modifies buf
    ensures p <= r && r + |Strip(text)| <= q
    ensures TokenAt(buf[..], r, r + |Strip(text)|, Strip(text))
    ensures forall k :: 0 <= k < buf.Length && k != r + |Strip(text)| ==> buf[k] == old(buf[k])
  {
    r := p;
    while IsSpace(buf[r])
      invariant p <= r <= q
      invariant StripLeft(text) == StripLeft(buf[r..q])
      decreases q - r
    {
      assert buf[r..q][1..] == buf[r + 1..q];
      r := r + 1;
    }
    ghost var left := buf[r..q];
    assert StripLeft(text) == left;
    assert buf[..][r] == buf[r];
    if buf[r] == NUL {
      assert left == [];
      return;
    }
    var len := StringLength(buf, r, q);
    var end := r + len - 1;
    while end > r && IsSpace(buf[end])
      invariant r <= end < q
      invariant StripRight(left) == StripRight(buf[r..end + 1])
    {
      assert buf[r..end + 1][..end - r] == buf[r..end];
      end := end - 1;
    }
    ghost var kept := buf[r..end + 1];
    assert StripRight(kept) == kept;
    buf[end + 1] := NUL;
    assert buf[r..end + 1] == kept;
  }

  /** All tokens taken so far are intact strings that end before `limit`. */
  ghost predicate Taken(b: seq<char>, tokens: seq<nat>, ends: seq<int>, fields: seq<string>, count: nat, limit: int) {
    count <= |fields| && count <= |tokens| && count <= |ends| &&
    forall k :: 0 <= k < count ==> ends[k] < limit && TokenAt(b, tokens[k], ends[k], Strip(fields[k]))
  }

  lemma TakenKept(b: seq<char>, c: seq<char>, tokens: seq<nat>, ends: seq<int>, fields: seq<string>, count: nat, limit: int)
    requires Taken(b, tokens, ends, fields, count, limit) && |c| == |b|
    requires forall k :: 0 <= k < limit && k < |b| ==> c[k] == b[k]
    ensures Taken(c, tokens, ends, fields, count, limit)
  {
  }

  lemma TakenReads(b: seq<char>, tokens: seq<nat>, ends: seq<int>, fields: seq<string>, count: nat, limit: int)
    requires Taken(b, tokens, ends, fields, count, limit)
    ensures forall k :: 0 <= k < count ==> tokens[k] <= |b| && CString(b, tokens[k]) == Strip(fields[k])
  {
    forall k | 0 <= k < count ensures tokens[k] <= |b| && CString(b, tokens[k]) == Strip(fields[k]) {
      TokenReads(b, tokens[k], ends[k], Strip(fields[k]));
    }
  }

  /** `tok` is the field numbered `count`, not yet trimmed, and the text from `save`
      holds the fields after it; without a token there are no more fields. */
  ghost predicate Scanning(b: seq<char>, tok: int, save: nat, fields: seq<string>, count: nat) {
    save < |b| && b[|b| - 1] == NUL && NoNul(b, save, |b| - 1) &&
    if tok == -1 then count == |fields|
    else
      count < |fields| && 0 <= tok && TokenAt(b, tok, tok + |fields[count]|, fields[count]) &&
      save == (if tok + |fields[count]| < |b| - 1 then tok + |fields[count]| + 1 else |b| - 1) &&
      Fields(b[save..|b| - 1]) == fields[count + 1..]
  }

  ghost function Limit(b: seq<char>, tok: int): int {
    if tok == -1 then |b| else tok
  }

  /** One turn of the tokenising loop: trim the token, keep it, ask for the next. */
  method TakeToken(buf: array<char>, tokens: array<nat>, count: nat, tok: nat, save: nat,
                   ghost ends: seq<int>, ghost fields: seq<string>)
    returns (tok': int, save': nat, ghost ends': seq<int>)
    requires count < 3 == tokens.Length == |ends|
    requires Scanning(buf[..], tok, save, fields, count)
    requires Taken(buf[..], tokens[..], ends, fields, count, tok)
    modifies buf, tokens
    ensures |ends'| == 3
    ensures Scanning(buf[..], tok', save', fields, count + 1)
    ensures Taken(buf[..], tokens[..], ends', fields, count + 1, Limit(buf[..], tok'))
  {
    var n := buf.Length - 1;
    ghost var q := tok + |fields[count]|;
    ends' := KeepToken(buf, tokens, count, tok, save, ends, fields);
    ghost var cut := buf[..];
    tok', save' := NextToken(buf, save, n);
    TakenKept(cut, buf[..], tokens[..], ends', fields, count + 1, q + 1);
  }

  /** `tokens[i++] = trim(token)`. */
  method KeepToken(buf: array<char>, tokens: array<nat>, count: nat, tok: nat, save: nat,
                   ghost ends: seq<int>, ghost fields: seq<string>)
    returns (ghost ends': seq<int>)
    requires count < 3 == tokens.Length == |ends|
    requires Scanning(buf[..], tok, save, fields, count)
    requires Taken(buf[..], tokens[..], ends, fields, count, tok)
    modifies buf, tokens
    ensures |ends'| == 3
    ensures Taken(buf[..], tokens[..], ends', fields, count + 1, tok + |fields[count]| + 1)
    ensures buf[buf.Length - 1] == NUL && NoNul(buf[..], save, buf.Length - 1)
    ensures buf[save..buf.Length - 1] == old(buf[save..buf.Length - 1])
  {
    ghost var text, before := fields[count], buf[..];
    var start := Trim(buf, tok, tok + |text|, text);
    TakenKept(before, buf[..], tokens[..], ends, fields, count, tok);
    tokens[count] := start;
    ends' := ends[count := start + |Strip(text)|];
  }

  /** `strdup`. */
  method Duplicate(value: string) returns (buf: array<char>)
    requires NUL !in value
    ensures fresh(buf) && buf.Length == |value| + 1 && buf[|value|] == NUL
    ensures buf[0..|value|] == value && NoNul(buf[..], 0, |value|)
  {
    buf := new char[|value| + 1](i => if 0 <= i < |value| then value[i] else NUL);
    assert buf[0..|value|] == value;
    assert forall k :: 0 <= k < |value| ==> buf[k] in value;
  }

  /** `strtok` on a fresh copy of the value. */
  method FirstToken(value: string) returns (buf: array<char>, tok: int, save: nat)
    requires NUL !in value
    ensures fresh(buf) && Scanning(buf[..], tok, save, Fields(value), 0)
  {
    buf := Duplicate(value);
    tok, save := NextToken(buf, 0, |value|);
  }

  /** The tokenising loop: at most three trimmed tokens of a copy of the value.
      The cuts `strtok` and `trim` make in the shared copy never disturb a token
      already taken or the text still to scan: read at the end, the tokens are the
      stripped fields of the value. */
  method Tokens(value: string) returns (count: nat, tokens: array<nat>, buf: array<char>)
    requires NUL !in value
    ensures fresh(tokens) && fresh(buf) && tokens.Length == 3
    ensures count == if |Fields(value)| < 3 then |Fields(value)| else 3
    ensures forall k :: 0 <= k < count ==>
      tokens[k] <= buf.Length && CString(buf[..], tokens[k]) == Strip(Fields(value)[k])
  {
    var tok, save;
    buf, tok, save := FirstToken(value);
    tokens := new nat[3](_ => 0);
    ghost var fields, ends := Fields(value), [0, 0, 0];
    count := 0;
    while tok != -1 && count < 3
      invariant count <= 3 && tokens.Length == 3 && |ends| == 3
      invariant Scanning(buf[..], tok, save, fields, count)
      invariant Taken(buf[..], tokens[..], ends, fields, count, Limit(buf[..], tok))
      decreases 3 - count
    {
      tok, save, ends := TakeToken(buf, tokens, count, tok, save, ends, fields);
      count := count + 1;
    }
    TakenReads(buf[..], tokens[..], ends, fields, count, Limit(buf[..], tok));
  }
}
