/** The tokenizer: a remembered pointer into a zero-terminated string, and zeros written behind the
    tokens it hands out. */
module Tokenizer {
  import opened MachineWords

  const SPACE: byte := 32

  // ---------------------------------------------------------------- runs of a text

  /** The first position from p on that does not hold a delimiter. */
  function TokenStart(text: seq<byte>, delim: seq<byte>, p: nat): (q: nat)
    requires p <= |text|
    ensures p <= q <= |text|
    ensures forall i :: p <= i < q ==> text[i] in delim
    ensures q < |text| ==> text[q] !in delim
    decreases |text| - p
  {
    if p < |text| && text[p] in delim then TokenStart(text, delim, p + 1) else p
  }

  /** The first position from p on that holds a delimiter. */
  function TokenEnd(text: seq<byte>, delim: seq<byte>, p: nat): (q: nat)
    requires p <= |text|
    ensures p <= q <= |text|
    ensures forall i :: p <= i < q ==> text[i] !in delim
    ensures q < |text| ==> text[q] in delim
    decreases |text| - p
  {
    if p < |text| && text[p] !in delim then TokenEnd(text, delim, p + 1) else p
  }

  /** A token by its bounds. */
  datatype Run = Run(start: nat, end: nat)

  /** A longest stretch without delimiters. */
  ghost predicate IsMaximalRun(text: seq<byte>, delim: seq<byte>, r: Run) {
    && r.start < r.end <= |text|
    && (forall i :: r.start <= i < r.end ==> text[i] !in delim)
    && (r.start == 0 || text[r.start - 1] in delim)
    && (r.end == |text| || text[r.end] in delim)
  }

  /** The runs from p on, in order. */
  function Runs(text: seq<byte>, delim: seq<byte>, p: nat): seq<Run>
    requires p <= |text|
    decreases |text| - p
  {
    var q := TokenStart(text, delim, p);
    if q == |text| then []
    else
      var e := TokenEnd(text, delim, q);
      if e == |text| then [Run(q, e)] else [Run(q, e)] + Runs(text, delim, e + 1)
  }

  /** A maximal run from p on that is not the first one starts behind the first one's delimiter. */
  lemma OtherRunLater(text: seq<byte>, delim: seq<byte>, p: nat, r: Run)
    requires p <= r.start && IsMaximalRun(text, delim, r) && TokenStart(text, delim, p) < |text|
    requires r != Run(TokenStart(text, delim, p), TokenEnd(text, delim, TokenStart(text, delim, p)))
    ensures TokenEnd(text, delim, TokenStart(text, delim, p)) < r.start
  {
    var q := TokenStart(text, delim, p);
    var e := TokenEnd(text, delim, q);
    assert text[r.start] !in delim;
    assert q <= r.start;
    assert r.start == q ==> r.end == e;
  }

  lemma FirstRunIsMaximal(text: seq<byte>, delim: seq<byte>, p: nat)
    requires p <= |text| && (p == 0 || text[p - 1] in delim) && TokenStart(text, delim, p) < |text|
    ensures
      var q := TokenStart(text, delim, p);
      IsMaximalRun(text, delim, Run(q, TokenEnd(text, delim, q)))
  {
    hide TokenStart;
    hide TokenEnd;
  }

  lemma {:induction false} RunsSound(text: seq<byte>, delim: seq<byte>, p: nat, r: Run)
    requires p <= |text| && (p == 0 || text[p - 1] in delim) && r in Runs(text, delim, p)
    ensures p <= r.start && IsMaximalRun(text, delim, r)
    decreases |text| - p
  {
    hide TokenStart;
    hide TokenEnd;
    hide IsMaximalRun;
    var q := TokenStart(text, delim, p);
    var e := TokenEnd(text, delim, q);
    FirstRunIsMaximal(text, delim, p);
    if r != Run(q, e) {
      RunsSound(text, delim, e + 1, r);
    }
  }

  lemma {:induction false} RunsComplete(text: seq<byte>, delim: seq<byte>, p: nat, r: Run)
    requires p <= |text| && p <= r.start && IsMaximalRun(text, delim, r)
    ensures r in Runs(text, delim, p)
    decreases |text| - p
  {
    hide TokenStart;
    hide TokenEnd;
    var q := TokenStart(text, delim, p);
    assert text[r.start] !in delim;
    var e := TokenEnd(text, delim, q);
    if r != Run(q, e) {
      OtherRunLater(text, delim, p, r);
      RunsComplete(text, delim, e + 1, r);
    }
  }

  /** The runs from p on are exactly the maximal runs there. */
  lemma RunsExact(text: seq<byte>, delim: seq<byte>, p: nat, r: Run)
    requires p <= |text| && (p == 0 || text[p - 1] in delim)
    ensures r in Runs(text, delim, p) <==> p <= r.start && IsMaximalRun(text, delim, r)
  {
    hide Runs;
    hide IsMaximalRun;
    if r in Runs(text, delim, p) {
      RunsSound(text, delim, p, r);
    }
    if p <= r.start && IsMaximalRun(text, delim, r) {
      RunsComplete(text, delim, p, r);
    }
  }

  lemma {:induction false} StartsLater(text: seq<byte>, delim: seq<byte>, p: nat, j: nat)
    requires p <= |text| && j < |Runs(text, delim, p)|
    ensures p <= Runs(text, delim, p)[j].start < Runs(text, delim, p)[j].end
    decreases j
  {
    var e := TokenEnd(text, delim, TokenStart(text, delim, p));
    if 0 < j {
      StartsLater(text, delim, e + 1, j - 1);
    }
  }

  /** Later runs start behind the delimiter of earlier ones. */
  lemma {:induction false} RunsIncrease(text: seq<byte>, delim: seq<byte>, p: nat, i: nat, j: nat)
    requires p <= |text| && i < j < |Runs(text, delim, p)|
    ensures Runs(text, delim, p)[i].end < Runs(text, delim, p)[j].start
    decreases i
  {
    var e := TokenEnd(text, delim, TokenStart(text, delim, p));
    if 0 < i {
      RunsIncrease(text, delim, e + 1, i - 1, j - 1);
    } else {
      StartsLater(text, delim, e + 1, j - 1);
    }
  }

  // ---------------------------------------------------------------- the code

  /** `strchr`; the terminator itself is found at the end, -1 stands for NULL. */
  method StrChr(str: seq<byte>, ch: byte) returns (r: int)
    ensures r == -1 <==> ch !in str && ch != 0
    ensures r != -1 ==> 0 <= r <= |str| && ch !in str[..r] && (if r < |str| then str[r] == ch else ch == 0)
  {
    var i := 0;
    while i < |str|
      invariant 0 <= i <= |str|
      invariant ch !in str[..i]
    {
      if str[i] == ch {
        return i;
      }
      i := i + 1;
    }
    if ch == 0 {
      return |str|;
    }
    return -1;
  }

  /** From index p on the buffer still holds the text, then its terminator. */
  ghost predicate HoldsRest(buf: array<byte>, text: seq<byte>, p: nat)
    reads buf
  {
    && 0 !in text && p <= |text| < buf.Length
    && buf[p..|text|] == text[p..] && buf[|text|] == 0
  }

  /** The loop over leading delimiters. */
  method SkipDelimiters(s: array<byte>, p: nat, delim: seq<byte>, ghost text: seq<byte>) returns (next: nat)
    requires HoldsRest(s, text, p)
    ensures next == TokenStart(text, delim, p) <= |text| && HoldsRest(s, text, next)
  {
    next := p;
    TextAt(s, text, p, next);
    while s[next] != 0
      invariant p <= next <= |text| < s.Length && HoldsRest(s, text, next)
      invariant TokenStart(text, delim, p) == TokenStart(text, delim, next)
      invariant s[next] == 0 <==> next == |text|
      decreases |text| - next
    {
      TextAt(s, text, p, next);
      var c := StrChr(delim, s[next]);
      if c == -1 {
        break;
      }
      next := next + 1;
      TextAt(s, text, p, next);
    }
  }

  /** The loop over a token. */
  method SkipToken(s: array<byte>, p: nat, delim: seq<byte>, ghost text: seq<byte>) returns (next: nat)
    requires HoldsRest(s, text, p)
    ensures next == TokenEnd(text, delim, p) <= |text| && HoldsRest(s, text, next)
  {
    next := p;
    TextAt(s, text, p, next);
    while s[next] != 0
      invariant p <= next <= |text| < s.Length && HoldsRest(s, text, next)
      invariant TokenEnd(text, delim, p) == TokenEnd(text, delim, next)
      invariant s[next] == 0 <==> next == |text|
      decreases |text| - next
    {
      TextAt(s, text, p, next);
      var c := StrChr(delim, s[next]);
      if c != -1 {
        break;
      }
      next := next + 1;
      TextAt(s, text, p, next);
    }
  }

  /** The tokenizer's static pointer: a string and an index into it, or NULL. */
  class StrTok {
    var str: array?<byte>
    var next: nat

    constructor ()
      ensures str == null
    {
      str, next := null, 0;
    }

    /** `strtok(NULL, delim)`: the index of the next token in the remembered string, -1 for NULL. */
    method Continue(delim: seq<byte>, ghost text: seq<byte>) returns (token: int)
      requires str != null ==> HoldsRest(str, text, next)
      modifies this, if str == null then {} else {str}
      ensures old(str) == null ==> token == -1 && str == null
      ensures old(str) != null ==>
        var q := TokenStart(text, delim, old(next));
        var e := TokenEnd(text, delim, q);
        if q == |text| then
          token == -1 && str == old(str) && next == |text| && old(str)[..] == old(str[..])
        else
          && token == q
          && old(str)[..] == (if e < |text| then old(str[..])[e := 0] else old(str[..]))
          && (if e < |text| then str == old(str) && next == e + 1 else str == null)
      ensures str != null ==> HoldsRest(str, text, next)
    {
      if str == null {
        return -1;
      }
      hide HoldsRest;
      hide TokenStart;
      hide TokenEnd;
      var s: array<byte> := str;
      next := SkipDelimiters(s, next, delim, text);
      TextAt(s, text, next, next);
      if s[next] == 0 {
        return -1;
      }
      var start := next;
      next := SkipToken(s, next, delim, text);
      TextAt(s, text, next, next);
      if s[next] != 0 {
        CutAt(s, text, next);
        next := next + 1;
      } else {
        str := null;
      }
      return start;
    }

    /** `strtok(s, delim)` on a fresh string. */
    method Start(s: array<byte>, delim: seq<byte>, ghost text: seq<byte>) returns (token: int)
      requires HoldsRest(s, text, 0)
      modifies this, s
      ensures
        var q := TokenStart(text, delim, 0);
        var e := TokenEnd(text, delim, q);
        if q == |text| then
          token == -1 && str == s && next == |text| && s[..] == old(s[..])
        else
          && token == q
          && s[..] == (if e < |text| then old(s[..])[e := 0] else old(s[..]))
          && (if e < |text| then str == s && next == e + 1 else str == null)
      ensures str != null ==> HoldsRest(str, text, next)
    {
      str, next := s, 0;
      token := Continue(delim, text);
    }
  }

  /** The terminator written behind a token leaves the rest of the text in place. */
  method CutAt(s: array<byte>, ghost text: seq<byte>, p: nat)
    requires HoldsRest(s, text, p) && p < |text|
    modifies s
    ensures s[..] == old(s[..])[p := 0] && HoldsRest(s, text, p + 1)
  {
    TextAt(s, text, p, p + 1);
    ghost var rest := s[p + 1..|text|];
    s[p] := 0;
    assert s[p + 1..|text|] == rest;
  }

  /** Reading the buffer where it still holds the text. */
  lemma TextAt(buf: array<byte>, text: seq<byte>, p: nat, i: nat)
    requires HoldsRest(buf, text, p) && p <= i <= |text|
    ensures |text| < buf.Length
    ensures i < |text| ==> buf[i] == text[i] != 0
    ensures i == |text| ==> buf[i] == 0
    ensures HoldsRest(buf, text, i)
  {
    if i < |text| {
      assert buf[p..|text|][i - p] == text[p..][i - p];
    }
    assert buf[i..|text|] == buf[p..|text|][i - p..] && text[i..] == text[p..][i - p..];
  }

  // ---------------------------------------------------------------- a whole run

  const CRLF: seq<byte> := [13, 10]

  /** The buffer with a zero directly behind every run that a delimiter follows. */
  function Cut(buf: seq<byte>, length: nat, runs: seq<Run>): (r: seq<byte>)
    ensures |r| == |buf|
    decreases |runs|
  {
    if runs == [] then buf
    else
      var e := runs[0].end;
      Cut(if e < length && e < |buf| then buf[e := 0] else buf, length, runs[1..])
  }

  /** Cutting changes only the bytes directly behind the runs, to zero. */
  lemma {:induction false} CutExact(buf: seq<byte>, length: nat, runs: seq<Run>, x: nat)
    requires x < |buf|
    ensures Cut(buf, length, runs)[x] ==
      if x < length && exists i :: 0 <= i < |runs| && runs[i].end == x then 0 else buf[x]
    decreases |runs|
  {
    if runs != [] {
      var e := runs[0].end;
      var next := if e < length && e < |buf| then buf[e := 0] else buf;
      CutExact(next, length, runs[1..], x);
      if i :| 0 <= i < |runs| - 1 && runs[1..][i].end == x {
        assert runs[i + 1].end == x;
      }
      if i :| 0 <= i < |runs| && runs[i].end == x {
        assert i == 0 || runs[1..][i - 1].end == x;
      }
    }
  }

  function SkipSpaces(line: seq<byte>): seq<byte> {
    if line != [] && line[0] == SPACE then SkipSpaces(line[1..]) else line
  }

  /** Exactly the leading spaces go. */
  lemma {:induction false} SkipSpacesExact(line: seq<byte>, n: nat)
    requires n <= |line| && (forall i :: 0 <= i < n ==> line[i] == 32) && (n < |line| ==> line[n] != 32)
    ensures SkipSpaces(line) == line[n..]
  {
    if n != 0 {
      SkipSpacesExact(line[1..], n - 1);
    }
  }

  /** The commands of a script: its lines without leading spaces, empty ones left out. */
  function Commands(text: seq<byte>, runs: seq<Run>): seq<seq<byte>>
    decreases |runs|
  {
    if runs == [] then []
    else
      var line := if runs[0].start <= runs[0].end <= |text| then SkipSpaces(text[runs[0].start..runs[0].end]) else [];
      (if line == [] then [] else [line]) + Commands(text, runs[1..])
  }

  /** The lines among the first n that hold more than spaces. */
  ghost function Spoken(text: seq<byte>, runs: seq<Run>, n: nat): set<nat>
    requires n <= |runs|
  {
    set i: nat | i < n && HasLetter(text, runs[i])
  }

  ghost predicate HasLetter(text: seq<byte>, r: Run) {
    r.start <= r.end <= |text| && exists k :: r.start <= k < r.end && text[k] != 32
  }

  /** Each line that holds more than spaces, and no other, is a command, in order: the line from its first
      byte that is not a space. */
  lemma CommandsExact(text: seq<byte>, runs: seq<Run>)
    ensures |Commands(text, runs)| == |Spoken(text, runs, |runs|)|
    ensures forall i, k :: 0 <= i < |runs| && IsFirstLetter(text, runs[i], k) ==>
      && |Spoken(text, runs, i)| < |Commands(text, runs)|
      && Commands(text, runs)[|Spoken(text, runs, i)|] == text[k..runs[i].end]
  {
    hide Spoken, Commands;
    assert runs[..|runs|] == runs;
    CommandsOf(text, runs, |runs|);
    forall i, k | 0 <= i < |runs| && IsFirstLetter(text, runs[i], k)
      ensures |Spoken(text, runs, i)| < |Commands(text, runs)|
      ensures Commands(text, runs)[|Spoken(text, runs, i)|] == text[k..runs[i].end]
    {
      CommandAt(text, runs, i, k, |runs|);
    }
  }

  /** Position k of the text holds the first byte of a line that is not a space. */
  ghost predicate IsFirstLetter(text: seq<byte>, r: Run, k: int) {
    r.start <= k < r.end <= |text| && text[k] != 32 && forall j :: r.start <= j < k ==> text[j] == 32
  }

  lemma {:induction false} CommandsOf(text: seq<byte>, runs: seq<Run>, n: nat)
    requires n <= |runs|
    ensures |Commands(text, runs[..n])| == |Spoken(text, runs, n)|
  {
    hide *;
    if n == 0 {
      NoneSpoken(text, runs);
    } else {
      CommandsOf(text, runs, n - 1);
      LastCommand(text, runs, n - 1);
      SpokenStep(text, runs, n - 1);
    }
  }

  lemma NoneSpoken(text: seq<byte>, runs: seq<Run>)
    ensures Commands(text, runs[..0]) == [] && Spoken(text, runs, 0) == {}
  {
  }

  lemma {:induction false} CommandAt(text: seq<byte>, runs: seq<Run>, i: nat, k: nat, n: nat)
    requires i < n <= |runs| && IsFirstLetter(text, runs[i], k)
    ensures |Spoken(text, runs, i)| < |Commands(text, runs[..n])|
    ensures Commands(text, runs[..n])[|Spoken(text, runs, i)|] == text[k..runs[i].end]
  {
    hide Spoken, Commands;
    LastCommand(text, runs, n - 1);
    CommandsOf(text, runs, n - 1);
    if i == n - 1 {
      LineFrom(text, runs[i], k);
    } else {
      CommandAt(text, runs, i, k, n - 1);
    }
  }

  /** A line's command, if it is one. */
  lemma LineFrom(text: seq<byte>, r: Run, k: nat)
    requires IsFirstLetter(text, r, k)
    ensures Commands(text, [r]) == [text[k..r.end]]
  {
    var line := text[r.start..r.end];
    SkipSpacesExact(line, k - r.start);
    hide SkipSpaces;
    assert line[k - r.start..] == text[k..r.end];
    assert Commands(text, [r][1..]) == [];
  }

  lemma NoLine(text: seq<byte>, r: Run)
    requires !HasLetter(text, r)
    ensures Commands(text, [r]) == []
  {
    if r.start <= r.end <= |text| {
      var line := text[r.start..r.end];
      SkipSpacesExact(line, |line|);
    }
    hide SkipSpaces;
    assert Commands(text, [r][1..]) == [];
  }

  lemma {:induction false} LastCommand(text: seq<byte>, runs: seq<Run>, n: nat)
    requires n < |runs|
    ensures Commands(text, runs[..n + 1]) == Commands(text, runs[..n]) + Commands(text, [runs[n]])
  {
    CommandsAppend(text, runs[..n], [runs[n]]);
    assert runs[..n] + [runs[n]] == runs[..n + 1];
  }

  lemma {:induction false} CommandsAppend(text: seq<byte>, a: seq<Run>, b: seq<Run>)
    ensures Commands(text, a + b) == Commands(text, a) + Commands(text, b)
    decreases |a|
  {
    hide SkipSpaces;
    if a == [] {
      assert a + b == b;
    } else {
      assert (a + b)[1..] == a[1..] + b;
      CommandsAppend(text, a[1..], b);
    }
  }

  lemma SpokenStep(text: seq<byte>, runs: seq<Run>, n: nat)
    requires n < |runs|
    ensures |Spoken(text, runs, n + 1)| == |Spoken(text, runs, n)| + |Commands(text, [runs[n]])|
  {
    hide Commands, Spoken;
    SpokenMembers(text, runs, n);
    if HasLetter(text, runs[n]) {
      var k: nat := FirstLetter(text, runs[n], runs[n].start);
      LineFrom(text, runs[n], k);
    } else {
      NoLine(text, runs[n]);
    }
  }

  lemma SpokenMembers(text: seq<byte>, runs: seq<Run>, n: nat)
    requires n < |runs|
    ensures n !in Spoken(text, runs, n)
    ensures Spoken(text, runs, n + 1) == Spoken(text, runs, n) + if HasLetter(text, runs[n]) then {n} else {}
  {
    hide HasLetter;
  }

  lemma FirstLetter(text: seq<byte>, r: Run, from: nat) returns (k: nat)
    requires r.start <= from <= r.end <= |text| && forall j :: r.start <= j < from ==> text[j] == 32
    requires exists k :: from <= k < r.end && text[k] != 32
    ensures IsFirstLetter(text, r, k)
    decreases r.end - from
  {
    if text[from] != 32 {
      k := from;
    } else {
      k := FirstLetter(text, r, from + 1);
    }
  }

  /** The loop over leading spaces of a zero-terminated line that starts at `from` and ends at `to`. */
  method SkipLeading(data: array<byte>, from: nat, ghost to: nat) returns (line: nat)
    requires from <= to < data.Length && data[to] == 0
    ensures from <= line <= to && data[line..to] == SkipSpaces(data[from..to])
  {
    line := from;
    while data[line] == SPACE
      invariant from <= line <= to
      invariant SkipSpaces(data[line..to]) == SkipSpaces(data[from..to])
      decreases data.Length - line
    {
      assert data[line..to][1..] == data[line + 1..to];
      line := line + 1;
    }
    assert line < to ==> data[line..to][0] == data[line];
  }

  /** The zero-terminated string at an index. */
  method StringAt(data: array<byte>, from: nat, ghost to: nat) returns (s: seq<byte>)
    requires from <= to < data.Length && data[to] == 0
    requires forall i :: from <= i < to ==> data[i] != 0
    ensures s == data[from..to]
  {
    s := [];
    var i := from;
    while data[i] != 0
      invariant from <= i <= to && s == data[from..i]
      decreases data.Length - i
    {
      s := s + [data[i]];
      i := i + 1;
    }
  }

  /** The buffer holds a run of the text as a zero-terminated string. */
  ghost predicate Readable(buf: seq<byte>, text: seq<byte>, r: Run) {
    r.start <= r.end <= |text| < |buf| && buf[r.start..r.end] == text[r.start..r.end] && buf[r.end] == 0
  }

  /** Between two calls: `token` is the first of the runs still to be used, -1 when there is none. */
  ghost predicate Pending(tok: StrTok, data: array<byte>, text: seq<byte>, delim: seq<byte>, token: int, rest: seq<Run>)
    reads tok, data
  {
    && 0 !in text && |text| < data.Length
    && (tok.str != null ==> tok.str == data && HoldsRest(data, text, tok.next))
    && (token == -1 ==> rest == [] && (tok.str != null ==> tok.next == |text|))
    && (token != -1 ==>
          && rest != [] && token == rest[0].start && Readable(data[..], text, rest[0])
          && (tok.str != null ==> rest[0].end < tok.next && rest[1..] == Runs(text, delim, tok.next))
          && (tok.str == null ==> rest[1..] == []))
  }

  /** A call at index p of the remembered string gives the first of the runs from p on. */
  method NextToken(tok: StrTok, data: array<byte>, delim: seq<byte>, ghost text: seq<byte>) returns (token: int)
    requires tok.str == data && HoldsRest(data, text, tok.next)
    modifies tok, data
    ensures Pending(tok, data, text, delim, token, Runs(text, delim, old(tok.next)))
    ensures token == -1 ==> data[..] == old(data[..])
    ensures token != -1 ==>
      var e := Runs(text, delim, old(tok.next))[0].end;
      data[..] == if e < |text| then old(data[..])[e := 0] else old(data[..])
  {
    ghost var p := tok.next;
    ghost var q := TokenStart(text, delim, p);
    ghost var e := TokenEnd(text, delim, q);
    ghost var stretch := data[q..e];
    TextStretch(data, text, p, q, e);
    token := tok.Continue(delim, text);
    if token != -1 {
      assert data[q..e] == stretch;
    }
  }

  lemma TextStretch(buf: array<byte>, text: seq<byte>, p: nat, q: nat, e: nat)
    requires HoldsRest(buf, text, p) && p <= q <= e <= |text|
    ensures |text| < buf.Length && 0 !in text && buf[|text|] == 0 && buf[q..e] == text[q..e]
  {
    forall i | q <= i < e
      ensures buf[i] == text[i]
    {
      TextAt(buf, text, p, i);
    }
  }

  lemma TokenByte(buf: seq<byte>, text: seq<byte>, r: Run, i: nat)
    requires Readable(buf, text, r) && r.start <= i < r.end && 0 !in text
    ensures buf[i] != 0
  {
    assert buf[r.start..r.end][i - r.start] == text[r.start..r.end][i - r.start];
    assert text[i] in text;
  }

  /** A zero written behind a later run does not disturb an earlier one. */
  lemma StaysReadable(buf: seq<byte>, text: seq<byte>, r: Run, e: nat)
    requires Readable(buf, text, r) && r.end < e < |buf|
    ensures Readable(buf[e := 0], text, r)
  {
    assert buf[e := 0][r.start..r.end] == buf[r.start..r.end];
  }

  /** The token whose string starts at an index. */
  method TokenAt(data: array<byte>, start: nat, ghost text: seq<byte>, ghost r: Run) returns (token: Run)
    requires Readable(data[..], text, r) && start == r.start && 0 !in text
    ensures token == r
  {
    var end := start;
    while data[end] != 0
      invariant start <= end <= r.end
      decreases data.Length - end
    {
      end := end + 1;
      if end < r.end {
        TokenByte(data[..], text, r, end);
      }
    }
    if end < r.end {
      TokenByte(data[..], text, r, end);
      assert false;
    }
    token := Run(start, end);
  }

  /** The call for the next token, with the tokens before it. */
  method NextAfter(tok: StrTok, data: array<byte>, delim: seq<byte>, ghost text: seq<byte>, ghost used: seq<Run>,
                   ghost rest: seq<Run>) returns (token: int)
    requires tok.str == data && HoldsRest(data, text, tok.next) && rest == Runs(text, delim, tok.next)
    requires used + rest == Runs(text, delim, 0)
    requires forall i :: 0 <= i < |used| ==> Readable(data[..], text, used[i])
    modifies tok, data
    ensures Pending(tok, data, text, delim, token, rest)
    ensures forall i :: 0 <= i < |used| ==> Readable(data[..], text, used[i])
    ensures Cut(data[..], |text|, rest) == Cut(old(data[..]), |text|, rest)
  {
    hide Cut, Runs, HoldsRest, Readable;
    ghost var buf := data[..];
    token := NextToken(tok, data, delim, text);
    if token != -1 {
      CutStep(buf, data[..], |text|, rest);
      forall i | 0 <= i < |used|
        ensures Readable(data[..], text, used[i])
      {
        EarlierEnd(text, delim, used, rest, i);
        if rest[0].end < |text| {
          ReadableInside(buf, text, used[i]);
          StaysReadable(buf, text, used[i], rest[0].end);
        }
      }
    }
  }

  lemma ReadableInside(buf: seq<byte>, text: seq<byte>, r: Run)
    requires Readable(buf, text, r)
    ensures |text| < |buf|
  {
  }

  lemma EarlierEnd(text: seq<byte>, delim: seq<byte>, used: seq<Run>, rest: seq<Run>, i: nat)
    requires i < |used| && rest != [] && used + rest == Runs(text, delim, 0)
    ensures used[i].end < rest[0].end
  {
    hide Runs;
    var runs := used + rest;
    assert runs[i] == used[i] && runs[|used|] == rest[0];
    RunsIncrease(text, delim, 0, i, |used|);
    StartsLater(text, delim, 0, |used|);
  }

  /** Repeated calls with one delimiter set: the tokens are exactly the runs of the text, in order; the only
      bytes changed are the zeros directly behind them, and every token stays readable. */
  method AllTokens(tok: StrTok, data: array<byte>, delim: seq<byte>, ghost text: seq<byte>) returns (tokens: seq<Run>)
    requires HoldsRest(data, text, 0)
    modifies tok, data
    ensures tokens == Runs(text, delim, 0)
    ensures data[..] == Cut(old(data[..]), |text|, Runs(text, delim, 0))
    ensures forall i :: 0 <= i < |tokens| ==> Readable(data[..], text, tokens[i])
    ensures Pending(tok, data, text, delim, -1, [])
  {
    hide Cut, Runs, HoldsRest, Readable;
    NoRuns(text, data[..]);
    tokens := [];
    tok.str, tok.next := data, 0;
    ghost var rest := Runs(text, delim, 0);
    var token := NextAfter(tok, data, delim, text, tokens, rest);
    while token != -1
      invariant Pending(tok, data, text, delim, token, rest)
      invariant tokens + rest == Runs(text, delim, 0)
      invariant Cut(data[..], |text|, rest) == Cut(old(data[..]), |text|, Runs(text, delim, 0))
      invariant forall i :: 0 <= i < |tokens| ==> Readable(data[..], text, tokens[i])
      decreases |rest|
    {
      var next := TokenAt(data, token, text, rest[0]);
      tokens := tokens + [next];
      CutAgain(data[..], text, rest);
      rest := rest[1..];
      token := -1;
      if tok.str != null {
        token := NextAfter(tok, data, delim, text, tokens, rest);
      }
    }
    NoRuns(text, data[..]);
  }

  /** Executes one line: nothing, or the line without its leading spaces. */
  method ExecLine(data: array<byte>, ghost text: seq<byte>, token: Run) returns (executed: seq<seq<byte>>)
    requires Readable(data[..], text, token) && 0 !in text
    ensures executed == Commands(text, [token])
  {
    forall i | token.start <= i < token.end
      ensures data[i] != 0
    {
      TokenByte(data[..], text, token, i);
    }
    var line := SkipLeading(data, token.start, token.end);
    executed := [];
    if data[line] != 0 {
      var s := StringAt(data, line, token.end);
      executed := [s];
    }
  }

  lemma CommandsStep(text: seq<byte>, runs: seq<Run>, done: seq<seq<byte>>)
    requires runs != []
    ensures done + Commands(text, runs) == done + Commands(text, [runs[0]]) + Commands(text, runs[1..])
  {
    hide Commands;
    assert [runs[0]] + runs[1..] == runs;
    CommandsAppend(text, [runs[0]], runs[1..]);
  }

  /** The zero behind a run is the first cut. */
  lemma CutStep(buf: seq<byte>, next: seq<byte>, length: nat, runs: seq<Run>)
    requires runs != [] && length <= |buf|
    requires next == if runs[0].end < length then buf[runs[0].end := 0] else buf
    ensures Cut(buf, length, runs) == Cut(next, length, runs[1..]) == Cut(next, length, runs)
  {
    var e := runs[0].end;
    assert (if e < length && e < |next| then next[e := 0] else next) == next;
  }

  /** The zero behind a run that is readable is already there. */
  lemma CutAgain(buf: seq<byte>, text: seq<byte>, runs: seq<Run>)
    requires runs != [] && Readable(buf, text, runs[0])
    ensures Cut(buf, |text|, runs) == Cut(buf, |text|, runs[1..])
  {
    hide Cut;
    assert buf[runs[0].end := 0] == buf;
    CutStep(buf, buf, |text|, runs);
  }

  lemma NoRuns(text: seq<byte>, buf: seq<byte>)
    ensures Commands(text, []) == [] && Cut(buf, |text|, []) == buf
  {
  }

  /** Executes the lines of a script. */
  method ExecLines(data: array<byte>, ghost text: seq<byte>, tokens: seq<Run>) returns (executed: seq<seq<byte>>)
    requires 0 !in text && forall i :: 0 <= i < |tokens| ==> Readable(data[..], text, tokens[i])
    ensures executed == Commands(text, tokens)
  {
    hide Readable, Commands;
    NoRuns(text, []);
    executed := [];
    var i := 0;
    assert tokens[0..] == tokens;
    while i < |tokens|
      invariant 0 <= i <= |tokens|
      invariant executed + Commands(text, tokens[i..]) == Commands(text, tokens)
    {
      var line := ExecLine(data, text, tokens[i]);
      CommandsStep(text, tokens[i..], executed);
      assert tokens[i..][1..] == tokens[i + 1..];
      executed := executed + line;
      i := i + 1;
    }
    assert tokens[i..] == [];
  }

  /** The loop of `LdrExecBat`: the lines of a script, with the executed ones collected. The code executes a
      line before it asks for the next token; since tokens stay readable, the order does not matter. */
  method ExecBatch(tok: StrTok, data: array<byte>, ghost text: seq<byte>) returns (executed: seq<seq<byte>>)
    requires HoldsRest(data, text, 0)
    modifies tok, data
    ensures executed == Commands(text, Runs(text, CRLF, 0))
    ensures data[..] == Cut(old(data[..]), |text|, Runs(text, CRLF, 0))
    ensures Pending(tok, data, text, CRLF, -1, [])
  {
    var tokens := AllTokens(tok, data, CRLF, text);
    executed := ExecLines(data, text, tokens);
  }

  /** Once there is no token left, further calls answer NULL and change nothing. */
  method NullForEver(tok: StrTok, data: array<byte>, delim: seq<byte>, times: nat, ghost text: seq<byte>)
    returns (answers: seq<int>)
    requires Pending(tok, data, text, delim, -1, [])
    modifies tok, data
    ensures Pending(tok, data, text, delim, -1, []) && data[..] == old(data[..])
    ensures |answers| == times && forall i :: 0 <= i < times ==> answers[i] == -1
  {
    answers := [];
    while |answers| < times
      invariant Pending(tok, data, text, delim, -1, []) && data[..] == old(data[..])
      invariant |answers| <= times && forall i :: 0 <= i < |answers| ==> answers[i] == -1
    {
      var token := tok.Continue(delim, text);
      answers := answers + [token];
    }
  }
}
