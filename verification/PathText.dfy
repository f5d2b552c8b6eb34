/** Paths as text: `<digit>:/<part>/<part>...`, their components, and joining. */
module PathText {
  import opened KernelConfig
  import opened MachineWords

  const SLASH: byte := 47
  const COLON: byte := 58
  const PERCENT: byte := 37
  const LETTER_S: byte := 115
  const DIGIT_0: byte := 48

  /** The content of a C string: no terminator inside. */
  ghost predicate IsText(s: seq<byte>) {
    0 !in s
  }

  // ---------------------------------------------------------------- components

  /** Where the component that starts at p ends: at the next slash or at the end. */
  function ComponentEnd(s: seq<byte>, p: nat): (q: nat)
    requires p <= |s|
    ensures p <= q <= |s|
    ensures forall i :: p <= i < q ==> s[i] != SLASH
    ensures q < |s| ==> s[q] == SLASH
    decreases |s| - p
  {
    if p < |s| && s[p] != SLASH then ComponentEnd(s, p + 1) else p
  }

  /** What the parser takes from position p on: component after component, up to the first empty one. */
  function PartsFrom(s: seq<byte>, p: nat): seq<seq<byte>>
    requires p <= |s|
    decreases |s| - p
  {
    var q := ComponentEnd(s, p);
    if q == p then [] else [s[p..q]] + PartsFrom(s, if q < |s| then q + 1 else q)
  }

  /** A text cut at its slashes. */
  function Split(s: seq<byte>): (r: seq<seq<byte>>)
    ensures r != []
  {
    if s == [] then [[]]
    else
      var rest := Split(s[1..]);
      if s[0] == SLASH then [[]] + rest else [[s[0]] + rest[0]] + rest[1..]
  }

  function BeforeEmpty(parts: seq<seq<byte>>): seq<seq<byte>> {
    if parts == [] || parts[0] == [] then [] else [parts[0]] + BeforeEmpty(parts[1..])
  }

  lemma {:induction false} SplitAtEnd(s: seq<byte>, p: nat)
    requires p <= |s|
    ensures
      var q := ComponentEnd(s, p);
      Split(s[p..]) == if q == |s| then [s[p..]] else [s[p..q]] + Split(s[q + 1..])
    decreases |s| - p
  {
    if p < |s| {
      assert s[p..][1..] == s[p + 1..];
      if s[p] != SLASH {
        SplitAtEnd(s, p + 1);
        hide Split;
        SplitPlain(s[p..]);
        var q := ComponentEnd(s, p);
        assert [s[p]] + s[p + 1..q] == s[p..q];
        assert [s[p]] + s[p + 1..] == s[p..];
      }
    }
  }

  lemma SplitPlain(s: seq<byte>)
    requires s != [] && s[0] != SLASH
    ensures var rest := Split(s[1..]); Split(s) == [[s[0]] + rest[0]] + rest[1..]
  {
  }

  /** The parser takes exactly the components before the first empty one. */
  lemma {:induction false} PartsAreComponents(s: seq<byte>, p: nat)
    requires p <= |s|
    ensures PartsFrom(s, p) == BeforeEmpty(Split(s[p..]))
    decreases |s| - p
  {
    SplitAtEnd(s, p);
    var q := ComponentEnd(s, p);
    if p < q < |s| {
      PartsAreComponents(s, q + 1);
    } else if p < q {
      assert s[q..] == [] && PartsFrom(s, q) == [];
      assert s[p..] == s[p..q];
    }
  }

  /** Parts joined by single slashes. */
  function Join(parts: seq<seq<byte>>): seq<byte> {
    if parts == [] then []
    else if |parts| == 1 then parts[0]
    else parts[0] + [SLASH] + Join(parts[1..])
  }

  lemma {:induction false} ComponentEndAt(s: seq<byte>, p: nat, q: nat)
    requires p <= q <= |s| && (q == |s| || s[q] == SLASH)
    requires forall i :: p <= i < q ==> s[i] != SLASH
    ensures ComponentEnd(s, p) == q
    decreases q - p
  {
    if p < q {
      ComponentEndAt(s, p + 1, q);
    }
  }

  /** Non-empty slash-free parts come back from their joined text. */
  lemma {:induction false} JoinedParts(before: seq<byte>, parts: seq<seq<byte>>)
    requires forall i :: 0 <= i < |parts| ==> parts[i] != [] && SLASH !in parts[i]
    ensures PartsFrom(before + Join(parts), |before|) == parts
    decreases |parts|
  {
    var s, p := before + Join(parts), |before|;
    if parts != [] {
      var q := p + |parts[0]|;
      assert s[p..q] == parts[0];
      forall i | p <= i < q
        ensures s[i] != SLASH
      {
        assert s[i] == parts[0][i - p];
      }
      ComponentEndAt(s, p, q);
      if |parts| == 1 {
        assert PartsFrom(s, q) == [];
      } else {
        var longer := before + parts[0] + [SLASH];
        assert s == longer + Join(parts[1..]);
        JoinedParts(longer, parts[1..]);
      }
    }
  }

  // ---------------------------------------------------------------- whole paths

  /** The paths the parser accepts. */
  predicate Accepted(path: seq<byte>) {
    && 3 <= |path| <= MAX_PATH
    && DIGIT_0 <= path[0] <= DIGIT_0 + 9
    && path[1] == COLON && path[2] == SLASH
  }

  /** A path is rejected exactly when it is longer than 108 bytes, or is not a digit, a colon, a slash and
      whatever follows. */
  lemma AcceptedExact(path: seq<byte>)
    ensures Accepted(path) <==>
      |path| <= 108 && exists digit: byte, rest :: 48 <= digit <= 57 && path == [digit, 58, 47] + rest
  {
    if Accepted(path) {
      assert path == [path[0], 58, 47] + path[3..];
    }
  }

  function Drive(path: seq<byte>): int
    requires Accepted(path)
  {
    path[0] - DIGIT_0
  }

  function Parts(path: seq<byte>): seq<seq<byte>>
    requires Accepted(path)
  {
    PartsFrom(path, 3)
  }

  function Printed(drive: nat, parts: seq<seq<byte>>): seq<byte>
    requires drive <= 9
  {
    [DIGIT_0 + drive, COLON, SLASH] + Join(parts)
  }

  /** Printing a drive and proper parts within the length limit and parsing gives them back. */
  lemma PathRoundTrip(drive: nat, parts: seq<seq<byte>>)
    requires drive <= 9 && |Printed(drive, parts)| <= MAX_PATH
    requires forall i :: 0 <= i < |parts| ==> parts[i] != [] && SLASH !in parts[i]
    ensures Accepted(Printed(drive, parts))
    ensures Drive(Printed(drive, parts)) == drive && Parts(Printed(drive, parts)) == parts
  {
    JoinedParts([DIGIT_0 + drive, COLON, SLASH], parts);
  }

  /** An accepted path's parts are its components before the first empty one; each is non-empty, has no
      slash and leaves room for a terminator in a buffer of the maximal length. */
  lemma PartsOfPath(path: seq<byte>)
    requires Accepted(path)
    ensures Parts(path) == BeforeEmpty(Split(path[3..]))
    ensures forall i :: 0 <= i < |Parts(path)| ==>
      0 < |Parts(path)[i]| < MAX_PATH && SLASH !in Parts(path)[i]
  {
    PartsAreComponents(path, 3);
    forall i | 0 <= i < |Parts(path)|
      ensures 0 < |Parts(path)[i]| < MAX_PATH && SLASH !in Parts(path)[i]
    {
      PartFits(path, 3, i);
    }
  }

  lemma {:induction false} PartFits(s: seq<byte>, p: nat, i: nat)
    requires p <= |s| && i < |PartsFrom(s, p)|
    ensures 0 < |PartsFrom(s, p)[i]| <= |s| - p && SLASH !in PartsFrom(s, p)[i]
    decreases i
  {
    var q := ComponentEnd(s, p);
    if 0 < i {
      PartFits(s, if q < |s| then q + 1 else q, i - 1);
    }
  }

  // ---------------------------------------------------------------- formatted printing

  /** How many arguments a format consumes. */
  function Consumes(format: seq<byte>): nat {
    if format == [] then 0
    else if format[0] == PERCENT && 2 <= |format| && format[1] == LETTER_S then 1 + Consumes(format[2..])
    else Consumes(format[1..])
  }

  /** The format with every `%s` replaced by its argument. */
  function Expand(format: seq<byte>, args: seq<seq<byte>>): seq<byte>
    requires Consumes(format) <= |args|
    decreases |format|
  {
    if format == [] then []
    else if format[0] == PERCENT && 2 <= |format| && format[1] == LETTER_S then
      args[0] + Expand(format[2..], args[1..])
    else [format[0]] + Expand(format[1..], args)
  }

  /** `%s` does not occur in the text. */
  ghost predicate Plain(s: seq<byte>) {
    forall i :: 0 <= i < |s| - 1 ==> !(s[i] == 37 && s[i + 1] == 115)
  }

  /** The pieces with `%s` between each two. */
  function FormatOf(pieces: seq<seq<byte>>): seq<byte>
    requires pieces != []
  {
    if |pieces| == 1 then pieces[0] else pieces[0] + [37, 115] + FormatOf(pieces[1..])
  }

  /** The pieces with one argument between each two. */
  function Interleaved(pieces: seq<seq<byte>>, args: seq<seq<byte>>): seq<byte>
    requires pieces != [] && |pieces| - 1 <= |args|
    decreases |pieces|
  {
    if |pieces| == 1 then pieces[0] else pieces[0] + args[0] + Interleaved(pieces[1..], args[1..])
  }

  /** A format of plain pieces takes one argument for each `%s`, and puts it there. */
  lemma {:induction false} FormatFilled(pieces: seq<seq<byte>>, args: seq<seq<byte>>)
    requires pieces != [] && |pieces| - 1 <= |args| && forall i :: 0 <= i < |pieces| ==> Plain(pieces[i])
    ensures Consumes(FormatOf(pieces)) == |pieces| - 1
    ensures Expand(FormatOf(pieces), args) == Interleaved(pieces, args)
    decreases |pieces|, |pieces[0]|
  {
    hide Plain, Interleaved;
    var f, piece := FormatOf(pieces), pieces[0];
    FormatStarts(pieces, args);
    if piece != [] {
      var shorter := [piece[1..]] + pieces[1..];
      FormatFilled(shorter, args);
    } else if 1 < |pieces| {
      assert f[2..] == FormatOf(pieces[1..]);
      FormatFilled(pieces[1..], args[1..]);
    }
  }

  /** The first byte of a format, or its first `%s`. */
  lemma FormatStarts(pieces: seq<seq<byte>>, args: seq<seq<byte>>)
    requires pieces != [] && |pieces| - 1 <= |args| && forall i :: 0 <= i < |pieces| ==> Plain(pieces[i])
    ensures pieces[0] != [] ==>
      var shorter, f := [pieces[0][1..]] + pieces[1..], FormatOf(pieces);
      && (forall i :: 0 <= i < |shorter| ==> Plain(shorter[i]))
      && f != [] && f[1..] == FormatOf(shorter) && f[0] == pieces[0][0]
      && !(f[0] == PERCENT && 2 <= |f| && f[1] == LETTER_S)
      && Interleaved(pieces, args) == [f[0]] + Interleaved(shorter, args)
    ensures pieces[0] == [] && 1 < |pieces| ==>
      && FormatOf(pieces) == [PERCENT, LETTER_S] + FormatOf(pieces[1..])
      && Interleaved(pieces, args) == args[0] + Interleaved(pieces[1..], args[1..])
    ensures pieces == [[]] ==> FormatOf(pieces) == [] == Interleaved(pieces, args)
  {
    var piece := pieces[0];
    if piece != [] {
      var shorter := [piece[1..]] + pieces[1..];
      assert shorter[1..] == pieces[1..] && piece == [piece[0]] + piece[1..];
      assert Plain(piece);
    }
  }

  /** What is written so far, given what is still to be expanded: all of it in order while there is
      room, a prefix of the whole once the buffer is full. */
  ghost predicate Progress(done: seq<byte>, rest: seq<byte>, whole: seq<byte>, room: nat) {
    && |done| <= room && done <= whole
    && (|done| < room ==> done + rest == whole)
  }

  lemma ProgressStep(done: seq<byte>, arg: seq<byte>, rest: seq<byte>, whole: seq<byte>, room: nat, n: nat)
    requires |done| < room && Progress(done, arg + rest, whole, room)
    requires n == if |done| + |arg| <= room then |arg| else room - |done|
    ensures Progress(done + arg[..n], rest, whole, room)
  {
    assert done + (arg + rest) == done + arg[..n] + (arg[n..] + rest);
    if |done| + |arg| <= room {
      assert arg[..n] == arg && done + arg[..n] + rest == done + (arg + rest);
    }
  }

  /** The copying loop of one argument, or of one plain character. */
  method CopyText(buffer: array<byte>, index: nat, limit: nat, arg: seq<byte>, ghost rest: seq<byte>, ghost whole: seq<byte>)
    returns (next: nat)
    requires index < limit && (limit < buffer.Length || |whole| < buffer.Length) && index < buffer.Length
    requires Progress(buffer[..index], arg + rest, whole, limit)
    modifies buffer
    ensures index <= next <= limit && next < buffer.Length && Progress(buffer[..next], rest, whole, limit)
    ensures forall x :: next <= x < buffer.Length ==> buffer[x] == old(buffer[x])
  {
    ghost var before := buffer[..index];
    assert before + (arg + rest) == whole;
    assert |whole| == index + |arg| + |rest|;
    next := index;
    while next - index < |arg| && next < limit
      invariant index <= next <= limit && next - index <= |arg| && next < buffer.Length
      invariant buffer[..next] == before + arg[..next - index]
      invariant forall x :: next <= x < buffer.Length ==> buffer[x] == old(buffer[x])
    {
      ghost var done := buffer[..next];
      buffer[next] := arg[next - index];
      assert buffer[..next + 1] == done + [arg[next - index]];
      next := next + 1;
    }
    ProgressStep(before, arg, rest, whole, limit, next - index);
  }

  lemma ExpandStep(f: seq<byte>, a: seq<seq<byte>>)
    requires f != [] && Consumes(f) <= |a|
    ensures f[0] == PERCENT && 2 <= |f| && f[1] == LETTER_S ==>
      a != [] && Consumes(f[2..]) <= |a| - 1 && Expand(f, a) == a[0] + Expand(f[2..], a[1..])
    ensures !(f[0] == PERCENT && 2 <= |f| && f[1] == LETTER_S) ==>
      Consumes(f[1..]) <= |a| && Expand(f, a) == [f[0]] + Expand(f[1..], a)
  {
  }

  /** How many bytes fit before the terminator; for a size of zero the difference wraps. */
  function Room(size: word): word {
    ToWord(size - 1)
  }

  method SnPrintf(buffer: array<byte>, size: word, format: seq<byte>, args: seq<seq<byte>>) returns (ghost length: nat)
    requires Consumes(format) <= |args|
    requires Room(size) < buffer.Length || |Expand(format, args)| < buffer.Length
    modifies buffer
    ensures length < buffer.Length
    ensures length == if |Expand(format, args)| < Room(size) then |Expand(format, args)| else Room(size)
    ensures buffer[..length] == Expand(format, args)[..length] && buffer[length] == 0
    ensures buffer[length + 1..] == old(buffer[length + 1..])
  {
    ghost var whole := Expand(format, args);
    var limit := Room(size);
    hide Room;
    var index := 0;
    var f, a := format, args;
    while f != [] && index < limit
      invariant 0 <= index <= limit && index < buffer.Length && Consumes(f) <= |a|
      invariant Progress(buffer[..index], Expand(f, a), whole, limit)
      invariant forall x :: index <= x < buffer.Length ==> buffer[x] == old(buffer[x])
      decreases |f|
    {
      hide Progress;
      hide Expand;
      hide Consumes;
      ExpandStep(f, a);
      if f[0] == PERCENT && 2 <= |f| && f[1] == LETTER_S {
        index := CopyText(buffer, index, limit, a[0], Expand(f[2..], a[1..]), whole);
        f, a := f[2..], a[1..];
      } else {
        index := CopyText(buffer, index, limit, [f[0]], Expand(f[1..], a), whole);
        f := f[1..];
      }
    }
    assert Progress(buffer[..index], Expand(f, a), whole, limit);
    length := index;
    buffer[index] := 0;
  }

  // ---------------------------------------------------------------- joining

  const TWO_STRINGS: seq<byte> := [PERCENT, LETTER_S, PERCENT, LETTER_S]
  const SLASH_BETWEEN: seq<byte> := [PERCENT, LETTER_S, SLASH, PERCENT, LETTER_S]

  /** The two texts with exactly one slash where they meet, if each brings at most one. */
  function Joined(a: seq<byte>, b: seq<byte>): seq<byte>
    requires a != []
  {
    JoinedAfter(a[|a| - 1], a, b)
  }

  /** The two texts joined as the code does it, which looks at the byte before the first one's terminator. */
  function JoinedAfter(last: byte, a: seq<byte>, b: seq<byte>): seq<byte> {
    if last == SLASH && b != [] && b[0] == SLASH then a + b[1..]
    else if last != SLASH && (b == [] || b[0] != SLASH) then a + [SLASH] + b
    else a + b
  }

  /** However many slashes, up to one each, the two texts bring to where they meet, there is one. */
  lemma OneSlash(a: seq<byte>, b: seq<byte>)
    ensures Joined(a + [47], [47] + b) == a + [47] + b
    ensures b == [] || b[0] != 47 ==> Joined(a + [47], b) == a + [47] + b
    ensures a != [] && a[|a| - 1] != 47 ==> Joined(a, [47] + b) == a + [47] + b
    ensures a != [] && a[|a| - 1] != 47 && (b == [] || b[0] != 47) ==> Joined(a, b) == a + [47] + b
  {
    assert ([47] + b)[1..] == b;
    assert a + ([47] + b) == a + [47] + b;
  }

  lemma JoinFormats(a: seq<byte>, b: seq<byte>)
    ensures Consumes(TWO_STRINGS) == 2 && Consumes(SLASH_BETWEEN) == 2
    ensures Expand(TWO_STRINGS, [a, b]) == a + b
    ensures Expand(SLASH_BETWEEN, [a, b]) == a + [SLASH] + b
  {
    var last: seq<byte> := [PERCENT, LETTER_S];
    assert Consumes(last) == 1 && Expand(last, [b]) == b + [] == b;
    assert TWO_STRINGS[2..] == last && SLASH_BETWEEN[2..] == [SLASH] + last;
    assert ([SLASH] + last)[1..] == last;
    assert Consumes([SLASH] + last) == 1 && Expand([SLASH] + last, [b]) == [SLASH] + b;
    assert [a, b][1..] == [b];
    assert a + ([SLASH] + b) == a + [SLASH] + b;
  }

  /** Either the buffer is called too small and stays as it was, or it holds the whole joined text and a
      terminator: the formatted print never cuts it. `before` is the byte in memory before the first
      string, which is read when that one is empty. */
  method JoinPaths(str1: seq<byte>, str2: seq<byte>, result: array<byte>, resultSize: word, before: byte)
    requires resultSize <= result.Length
    modifies result
    ensures resultSize < |str1| + |str2| + 2 ==> result[..] == old(result[..])
    ensures |str1| + |str2| + 2 <= resultSize ==>
      var text := if str1 == [] then JoinedAfter(before, str1, str2) else Joined(str1, str2);
      |text| < resultSize && result[..|text|] == text && result[|text|] == 0
  {
    var len1, len2 := |str1|, |str2|;
    if resultSize < len1 + len2 + 2 {
      return;
    }
    JoinFormats(str1, str2);
    hide Expand, Consumes;
    var last := if len1 == 0 then before else str1[len1 - 1];
    if last == SLASH && 0 < len2 && str2[0] == SLASH {
      JoinFormats(str1, str2[1..]);
      PrintWhole(result, resultSize, TWO_STRINGS, [str1, str2[1..]], str1 + str2[1..]);
    } else if last != SLASH && (len2 == 0 || str2[0] != SLASH) {
      PrintWhole(result, resultSize, SLASH_BETWEEN, [str1, str2], str1 + [SLASH] + str2);
    } else {
      PrintWhole(result, resultSize, TWO_STRINGS, [str1, str2], str1 + str2);
    }
  }

  /** A formatted print into a buffer that is large enough. */
  method PrintWhole(result: array<byte>, size: word, format: seq<byte>, args: seq<seq<byte>>, ghost text: seq<byte>)
    requires size <= result.Length && Consumes(format) <= |args| && Expand(format, args) == text && |text| < size
    modifies result
    ensures result[..|text|] == text && result[|text|] == 0
  {
    assert Room(size) == size - 1;
    hide Room, Expand, Consumes;
    ghost var n := SnPrintf(result, size, format, args);
  }

  /** The loader's prefix: drive 0. */
  const DRIVE_0: seq<byte> := [DIGIT_0, COLON, SLASH]

  /** A path joined to drive 0 is accepted when it is not too long, and parses to drive 0 and to the
      path's own parts less one leading slash. */
  lemma JoinedToDrive(p: seq<byte>)
    requires |Joined(DRIVE_0, p)| <= MAX_PATH
    ensures Accepted(Joined(DRIVE_0, p)) && Drive(Joined(DRIVE_0, p)) == 0
    ensures Parts(Joined(DRIVE_0, p)) == PartsFrom(p, if p != [] && p[0] == SLASH then 1 else 0)
  {
    var from := if p != [] && p[0] == SLASH then 1 else 0;
    assert Joined(DRIVE_0, p) == DRIVE_0 + p[from..];
    PartsShift(DRIVE_0, p[from..], 0);
    PartsShift(p[..from], p[from..], 0);
    assert p[..from] + p[from..] == p;
  }

  /** From index n on one text goes on like another. */
  ghost predicate GoesOn(all: seq<byte>, n: nat, s: seq<byte>) {
    |all| == n + |s| && forall i :: 0 <= i < |s| ==> all[n + i] == s[i]
  }

  /** Parts only depend on the text from the position on. */
  lemma PartsShift(before: seq<byte>, s: seq<byte>, p: nat)
    requires p <= |s|
    ensures PartsFrom(before + s, |before| + p) == PartsFrom(s, p)
  {
    PartsGoOn(before + s, |before|, s, p);
  }

  lemma {:induction false} PartsGoOn(all: seq<byte>, n: nat, s: seq<byte>, p: nat)
    requires p <= |s| && GoesOn(all, n, s)
    ensures PartsFrom(all, n + p) == PartsFrom(s, p)
    decreases |s| - p
  {
    hide *;
    var q := ComponentEnd(s, p);
    var next := if q < |s| then q + 1 else q;
    ComponentGoesOn(all, n, s, p, q);
    NextComponent(s, p, q, next);
    NextComponent(all, n + p, n + q, n + next);
    if p < q {
      PartsGoOn(all, n, s, next);
    }
  }

  lemma ComponentGoesOn(all: seq<byte>, n: nat, s: seq<byte>, p: nat, q: nat)
    requires p <= |s| && GoesOn(all, n, s) && q == ComponentEnd(s, p)
    ensures |all| == n + |s| && ComponentEnd(all, n + p) == n + q
    ensures all[n + p..n + q] == s[p..q]
  {
    forall i | n + p <= i < n + q
      ensures all[i] != SLASH
    {
      assert all[n + (i - n)] == s[i - n];
    }
    assert q < |s| ==> all[n + q] == s[q];
    ComponentEndAt(all, n + p, n + q);
  }

  lemma NextComponent(s: seq<byte>, p: nat, q: nat, next: nat)
    requires p <= |s| && q == ComponentEnd(s, p) && next == if q < |s| then q + 1 else q
    ensures PartsFrom(s, p) == if q == p then [] else [s[p..q]] + PartsFrom(s, next)
  {
  }
}
