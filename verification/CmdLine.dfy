/** The tokenizer of lib/cmdline/cmdline.c: it cuts a line into arguments in place, and is shown to
    agree with a recursive description of what an argument is. */
module CmdLine {

  const NUL := '\0'
  const BLANK_CHARS := " \t\r\n"
  const QUOTE_CHARS := "\"'"
  const MAX_ARGS := 10

  // ----- C strings -----

  /** Where the string at `from` ends: the first NUL, or the end of the memory if there is none. */
  function Terminator(mem: seq<char>, from: nat): (end: nat)
    requires from <= |mem|
    ensures from <= end <= |mem|
    ensures forall k :: from <= k < end ==> mem[k] != NUL
    ensures end < |mem| ==> mem[end] == NUL
    decreases |mem| - from
  {
    if from == |mem| || mem[from] == NUL then from else Terminator(mem, from + 1)
  }

  function CString(mem: seq<char>, from: nat): seq<char>
    requires from <= |mem|
  {
    mem[from..Terminator(mem, from)]
  }

  /** `s` stands at `from`, free of NUL and followed by one. */
  ghost predicate Stands(mem: seq<char>, from: int, s: seq<char>) {
    && 0 <= from && from + |s| < |mem| && mem[from + |s|] == NUL
    && forall k :: 0 <= k < |s| ==> mem[from + k] == s[k] != NUL
  }

  /** Then it is the string there. */
  lemma StandsIsCString(mem: seq<char>, from: nat, s: seq<char>)
    requires Stands(mem, from, s)
    ensures Terminator(mem, from) == from + |s| && CString(mem, from) == s
  {
    forall k | from <= k < from + |s| ensures mem[k] != NUL {
      assert mem[from + (k - from)] == s[k - from];
    }
  }

  lemma CStringStands(mem: seq<char>, from: nat)
    requires from <= |mem| && Terminator(mem, from) < |mem|
    ensures Stands(mem, from, CString(mem, from))
  {
  }

  // ----- What an argument is -----

  predicate IsBlank(c: char) {
    c == ' ' || c == '\t' || c == '\r' || c == '\n'
  }

  predicate IsQuote(c: char) {
    c == '"' || c == '\''
  }

  /** The first `c` in `s` from `from` on, or the end of `s`. */
  function Find(c: char, s: seq<char>, from: nat): (i: nat)
    requires from <= |s|
    ensures from <= i <= |s|
    ensures forall k :: from <= k < i ==> s[k] != c
    ensures i < |s| ==> s[i] == c
    decreases |s| - from
  {
    if from == |s| || s[from] == c then from else Find(c, s, from + 1)
  }

  /** `_is_blank_char` and `_is_quote_char` search a constant string. */
  lemma BlanksAndQuotes(c: char)
    ensures Find(c, BLANK_CHARS, 0) < |BLANK_CHARS| <==> IsBlank(c)
    ensures Find(c, QUOTE_CHARS, 0) < |QUOTE_CHARS| <==> IsQuote(c)
  {
    assert forall k :: 0 <= k < |BLANK_CHARS| ==> IsBlank(BLANK_CHARS[k]);
    assert BLANK_CHARS[0] == ' ' && BLANK_CHARS[1] == '\t' && BLANK_CHARS[2] == '\r' && BLANK_CHARS[3] == '\n';
    assert QUOTE_CHARS[0] == '"' && QUOTE_CHARS[1] == '\'';
  }

  /** The first blank in `s` from `from` on, or the end of `s`. */
  function FindBlank(s: seq<char>, from: nat): (i: nat)
    requires from <= |s|
    ensures from <= i <= |s|
    ensures forall k :: from <= k < i ==> !IsBlank(s[k])
    ensures i < |s| ==> IsBlank(s[i])
    decreases |s| - from
  {
    if from == |s| || IsBlank(s[from]) then from else FindBlank(s, from + 1)
  }

  /** Where the argument that begins at `pos` starts and ends: after a quote, up to the same quote or the
      end of the line; otherwise a bare word, up to a blank or the end, with any quotes inside it. */
  function ArgAt(text: seq<char>, pos: nat): (arg: (nat, nat))
    requires pos < |text| && !IsBlank(text[pos])
    ensures pos <= arg.0 <= arg.1 <= |text| && pos < arg.1
  {
    if IsQuote(text[pos]) then (pos + 1, Find(text[pos], text, pos + 1)) else (pos, FindBlank(text, pos))
  }

  /** The arguments of a line from `pos` on. What ends an argument, quote or blank, is passed over. */
  function TokensFrom(text: seq<char>, pos: nat): seq<seq<char>>
    decreases if pos < |text| then |text| - pos else 0
  {
    if pos >= |text| then []
    else if IsBlank(text[pos]) then TokensFrom(text, pos + 1)
    else
      var (start, end) := ArgAt(text, pos);
      [text[start..end]] + TokensFrom(text, end + 1)
  }

  function Tokens(text: seq<char>): seq<seq<char>> {
    TokensFrom(text, 0)
  }

  /** The first `n` elements, or all there are. */
  function Take<T>(s: seq<T>, n: nat): (t: seq<T>)
    ensures t <= s && |t| == if |s| <= n then |s| else n
  {
    if |s| <= n then s else s[..n]
  }

  // ----- The tokenizer -----

  /** `strlen` */
  method StrLen(mem: array<char>, from: nat) returns (n: nat)
    requires from <= mem.Length && Terminator(mem[..], from) < mem.Length
    ensures from + n == Terminator(mem[..], from)
  {
    n := 0;
    while mem[from + n] != NUL
      invariant from + n <= Terminator(mem[..], from)
      decreases mem.Length - n
    {
      n := n + 1;
    }
  }

  /** `_search_char_in_string`, on a string that starts at `from`: the first `c` in it, or -1 */
  method SearchChar(c: char, mem: array<char>, from: nat) returns (r: int)
    requires from <= mem.Length && Terminator(mem[..], from) < mem.Length
    ensures r >= 0 ==> from + r < Terminator(mem[..], from) && mem[from + r] == c
    ensures r >= 0 ==> forall k :: from <= k < from + r ==> mem[k] != c
    ensures r < 0 ==> r == -1 && forall k :: from <= k < Terminator(mem[..], from) ==> mem[k] != c
  {
    var i := 0;
    while mem[from + i] != NUL
      invariant from + i <= Terminator(mem[..], from)
      invariant forall k :: from <= k < from + i ==> mem[k] != c
      decreases mem.Length - i
    {
      if c == mem[from + i] {
        return i;
      }
      i := i + 1;
    }
    return -1;
  }

  /** The rest of the line, from `pos` on, still reads as the text does. */
  ghost predicate Rest(text: seq<char>, line: seq<char>, pos: nat) {
    && |text| < |line| && pos <= |text| + 1 && (pos <= |text| ==> line[|text|] == NUL)
    && forall k :: pos <= k < |text| ==> line[k] == text[k] != NUL
  }

  lemma RestEnds(text: seq<char>, line: seq<char>, pos: nat)
    requires Rest(text, line, pos) && pos <= |text|
    ensures Terminator(line, pos) == |text|
  {
  }

  /** Where the quoted argument starting at `start` ends */
  method QuotedEnd(quote: char, ghost text: seq<char>, line: array<char>, start: nat) returns (end: nat)
    requires Rest(text, line[..], start) && start <= |text|
    ensures end == Find(quote, text, start)
  {
    RestEnds(text, line[..], start);
    var i := SearchChar(quote, line, start);
    end := start;
    if i >= 0 {
      end := end + i;
    } else {
      while line[end] != NUL
        invariant start <= end <= |text|
        decreases |text| - end
      {
        end := end + 1;
      }
    }
  }

  /** Where the bare word starting at `pos` ends */
  method WordEnd(ghost text: seq<char>, line: array<char>, pos: nat, len: nat) returns (end: nat)
    requires Rest(text, line[..], pos) && pos < |text| == len && !IsBlank(line[pos])
    ensures end == FindBlank(text, pos)
  {
    end := pos + 1;
    while end < len && !IsBlank(line[end])
      invariant pos < end <= len && FindBlank(text, pos) == FindBlank(text, end)
    {
      end := end + 1;
    }
  }

  /** The two ways `_make_args` finds an argument */
  method FindToken(ghost text: seq<char>, line: array<char>, pos: nat, len: nat) returns (start: nat, end: nat)
    requires Rest(text, line[..], pos) && pos < |text| == len && !IsBlank(text[pos])
    ensures (start, end) == ArgAt(text, pos)
  {
    assert line[pos] == text[pos];
    if IsQuote(line[pos]) {
      start := pos + 1;
      end := QuotedEnd(line[pos], text, line, start);
    } else {
      start := pos;
      end := WordEnd(text, line, pos, len);
    }
  }

  /** The arguments found so far: each stands where `argv` says, before what is still to be cut. */
  ghost predicate Cut(line: seq<char>, argv: seq<int>, found: seq<seq<char>>, pos: nat) {
    && |found| <= |argv|
    && (forall i :: 0 <= i < |found| ==> Stands(line, argv[i], found[i]) && argv[i] + |found[i]| < pos)
    && (forall i, j :: 0 <= i < j < |found| ==> argv[i] < argv[j])
  }

  /** From `pos` on the line is as it was; before, it is but for terminators. */
  ghost predicate Untouched(text: seq<char>, was: seq<char>, line: seq<char>, pos: nat) {
    && |text| < |line| == |was| && pos <= |text| + 1
    && (forall k :: pos <= k < |line| ==> line[k] == was[k])
    && (forall k :: 0 <= k < |line| ==> line[k] == was[k] || (k <= |text| && line[k] == NUL))
  }

  /** The arrays when the tokenizer is at `pos`. */
  ghost predicate State(text: seq<char>, was: seq<char>, line: seq<char>, argv: seq<int>, found: seq<seq<char>>, pos: nat) {
    Stands(was, 0, text) && Untouched(text, was, line, pos) && Cut(line, argv, found, pos)
  }

  lemma StateRest(text: seq<char>, was: seq<char>, line: seq<char>, argv: seq<int>, found: seq<seq<char>>, pos: nat)
    requires State(text, was, line, argv, found, pos)
    ensures Rest(text, line, pos)
  {
    assert forall k :: 0 <= k < |text| ==> was[0 + k] == text[k] != NUL;
  }

  /** A terminator written past the end of a string does not change it. */
  lemma KeepsStanding(line: seq<char>, from: int, s: seq<char>, end: nat)
    requires Stands(line, from, s) && from + |s| < end < |line|
    ensures Stands(line[end := NUL], from, s)
  {
  }

  /** One more argument, cut out of the rest of the line. */
  lemma CutOne(text: seq<char>, line: seq<char>, argv: seq<int>, found: seq<seq<char>>, pos: nat, start: nat, end: nat)
    requires Cut(line, argv, found, pos) && |found| < |argv| && Rest(text, line, pos) && pos <= start <= end <= |text|
    ensures Cut(line[end := NUL], argv[|found| := start], found + [text[start..end]], end + 1)
  {
    forall i | 0 <= i < |found| ensures Stands(line[end := NUL], argv[i], found[i]) && argv[i] + |found[i]| < start {
      KeepsStanding(line, argv[i], found[i], end);
    }
    var arg := text[start..end];
    assert Stands(line[end := NUL], start, arg) by {
      assert forall k :: 0 <= k < |arg| ==> line[start + k] == text[start + k] == arg[k];
    }
  }

  lemma TakeToken(text: seq<char>, was: seq<char>, line: seq<char>, argv: seq<int>, found: seq<seq<char>>, pos: nat,
                  start: nat, end: nat)
    requires State(text, was, line, argv, found, pos) && |found| < |argv| && pos <= start <= end <= |text|
    ensures State(text, was, line[end := NUL], argv[|found| := start], found + [text[start..end]], end + 1)
  {
    StateRest(text, was, line, argv, found, pos);
    CutOne(text, line, argv, found, pos, start, end);
  }

  /** What `found` leaves is what the rest of the line holds. */
  ghost predicate Accounted(text: seq<char>, found: seq<seq<char>>, pos: nat) {
    Tokens(text) == found + TokensFrom(text, pos)
  }

  lemma PassBlank(text: seq<char>, found: seq<seq<char>>, pos: nat)
    requires Accounted(text, found, pos) && pos < |text| && IsBlank(text[pos])
    ensures Accounted(text, found, pos + 1)
  {
  }

  lemma PassToken(text: seq<char>, found: seq<seq<char>>, pos: nat, start: nat, end: nat)
    requires Accounted(text, found, pos) && pos < |text| && !IsBlank(text[pos]) && (start, end) == ArgAt(text, pos)
    ensures Accounted(text, found + [text[start..end]], end + 1)
  {
    Regroup(found, [text[start..end]], TokensFrom(text, end + 1));
  }

  lemma Regroup<T>(a: seq<T>, b: seq<T>, c: seq<T>)
    ensures a + (b + c) == (a + b) + c
  {
  }

  /** What `_make_args` promises of the line and of the arguments it leaves. */
  ghost predicate ArgsOf(text: seq<char>, was: seq<char>, line: seq<char>, argv: seq<int>, argc: int) {
    && |line| == |was| && 0 <= argc == (if |Tokens(text)| <= 10 then |Tokens(text)| else 10) <= |argv|
    && (forall i :: 0 <= i < argc ==> 0 <= argv[i] <= |line| && CString(line, argv[i]) == Tokens(text)[i])
    && (forall i, j :: 0 <= i < j < argc ==> argv[i] < argv[j])
    && (forall k :: 0 <= k < |line| ==> line[k] == was[k] || (k <= |text| && line[k] == NUL))
  }

  lemma Finish(text: seq<char>, was: seq<char>, line: seq<char>, argv: seq<int>, found: seq<seq<char>>, pos: nat)
    requires State(text, was, line, argv, found, pos) && Accounted(text, found, pos)
    requires |found| <= MAX_ARGS && (|found| < MAX_ARGS ==> pos >= |text| || line[pos] == NUL)
    ensures ArgsOf(text, was, line, argv, |found|)
  {
    StateRest(text, was, line, argv, found, pos);
    assert pos >= |text| ==> TokensFrom(text, pos) == [];
    forall i | 0 <= i < |found| ensures 0 <= argv[i] <= |line| && CString(line, argv[i]) == Tokens(text)[i] {
      StandsIsCString(line, argv[i], found[i]);
    }
  }

  /** The next argument is found, terminated and put into `argv`. */
  method CutToken(ghost text: seq<char>, ghost was: seq<char>, line: array<char>, argv: array<int>,
                  ghost found: seq<seq<char>>, pos: nat, len: nat, argc: nat)
    returns (start: nat, end: nat)
    requires State(text, was, line[..], argv[..], found, pos) && pos < |text| == len && !IsBlank(text[pos])
    requires argc == |found| < argv.Length
    modifies line, argv
    ensures (start, end) == ArgAt(text, pos)
    ensures State(text, was, line[..], argv[..], found + [text[start..end]], end + 1)
  {
    ghost var now, args := line[..], argv[..];
    StateRest(text, was, now, args, found, pos);
    start, end := FindToken(text, line, pos, len);
    TakeToken(text, was, now, args, found, pos, start, end);
    line[end] := NUL;
    argv[argc] := start;
    assert line[..] == now[end := NUL];
    assert argv[..] == args[argc := start];
  }

  /** One turn of the loop of `_make_args` */
  method Advance(ghost text: seq<char>, ghost was: seq<char>, line: array<char>, argv: array<int>,
                 ghost found: seq<seq<char>>, pos: nat, len: nat, argc0: nat)
    returns (next: nat, argc: nat, ghost found': seq<seq<char>>)
    requires State(text, was, line[..], argv[..], found, pos) && Accounted(text, found, pos)
    requires pos < |text| == len && argc0 == |found| < argv.Length
    modifies line, argv
    ensures pos < next <= len + 1 && argc == |found'| <= argc0 + 1
    ensures State(text, was, line[..], argv[..], found', next) && Accounted(text, found', next)
  {
    StateRest(text, was, line[..], argv[..], found, pos);
    assert line[pos] == text[pos];
    if IsBlank(line[pos]) {
      PassBlank(text, found, pos);
      return pos + 1, argc0, found;
    }
    var start, end := CutToken(text, was, line, argv, found, pos, len, argc0);
    PassToken(text, found, pos, start, end);
    return end + 1, argc0 + 1, found + [text[start..end]];
  }

  /** `_make_args`. The arguments are exactly the first ten tokens of the line, left to right; nothing is
      written past the terminator, and within the line only terminators are written. */
  method MakeArgs(line: array?<char>, argc0: int, argv: array?<int>) returns (argc: int)
    requires line != null ==> Terminator(line[..], 0) < line.Length
    requires argv != null ==> MAX_ARGS <= argv.Length
    modifies line, argv
    ensures line == null || argv == null ==>
              argc == argc0 && (line != null ==> line[..] == old(line[..])) && (argv != null ==> argv[..] == old(argv[..]))
    ensures line != null && argv != null ==>
              ArgsOf(CString(old(line[..]), 0), old(line[..]), line[..], argv[..], argc)
  {
    argc := argc0;
    if line == null || argv == null {
      return;
    }
    argc := 0;
    var len := StrLen(line, 0);
    ghost var was, text := line[..], CString(line[..], 0);
    ghost var found: seq<seq<char>> := [];
    var pos := 0;
    CStringStands(was, 0);
    while pos < len && line[pos] != NUL && argc < MAX_ARGS
      invariant 0 <= pos && argc == |found| <= MAX_ARGS
      invariant State(text, was, line[..], argv[..], found, pos) && Accounted(text, found, pos)
      decreases len + 1 - pos
    {
      pos, argc, found := Advance(text, was, line, argv, found, pos, len, argc);
    }
    Finish(text, was, line[..], argv[..], found, pos);
  }

  // ----- What a line is made of -----

  /** A bare word; an argument between two equal quotes; or one whose quote is never closed. */
  datatype Piece = Bare(text: seq<char>) | Enclosed(quote: char, text: seq<char>) | Unclosed(quote: char, text: seq<char>)

  function Shown(p: Piece): (s: seq<char>)
    ensures s != [] || p.Bare?
  {
    match p
    case Bare(text) => text
    case Enclosed(quote, text) => [quote] + text + [quote]
    case Unclosed(quote, text) => [quote] + text
  }

  /** A bare word is not empty, has no blank in it and does not begin with a quote; an argument in quotes
      has anything in it but that quote. */
  ghost predicate IsPiece(p: Piece) {
    match p
    case Bare(text) => text != [] && text[0] !in "\"'" && forall i :: 0 <= i < |text| ==> text[i] !in " \t\r\n"
    case Enclosed(quote, text) => quote in "\"'" && forall i :: 0 <= i < |text| ==> text[i] != quote
    case Unclosed(quote, text) => quote in "\"'" && forall i :: 0 <= i < |text| ==> text[i] != quote
  }

  ghost predicate Spaces(s: seq<char>) {
    forall i :: 0 <= i < |s| ==> s[i] in " \t\r\n"
  }

  /** Pieces, each with the blanks after it. */
  datatype Pieces = End | Then(piece: Piece, gap: seq<char>, rest: Pieces)

  /** There are blanks after a word, unless it comes last; there may be some after a closing quote; and an
      unclosed quote ends the line. */
  ghost predicate WellSpaced(l: Pieces) {
    l.Then? ==>
      && IsPiece(l.piece) && Spaces(l.gap) && WellSpaced(l.rest)
      && (l.gap == [] ==> l.rest.End? || l.piece.Enclosed?)
      && (l.piece.Unclosed? ==> l.gap == [] && l.rest.End?)
  }

  function Written(l: Pieces): seq<char> {
    if l.End? then [] else Joined(l.piece, l.gap, Written(l.rest))
  }

  function Joined(p: Piece, gap: seq<char>, rest: seq<char>): seq<char> {
    Shown(p) + (gap + rest)
  }

  function Texts(l: Pieces): seq<seq<char>> {
    if l.End? then [] else [l.piece.text] + Texts(l.rest)
  }

  /** `b` is what `text` holds from `n` on. */
  ghost predicate IsSuffix(text: seq<char>, n: nat, b: seq<char>) {
    |text| == n + |b| && forall k :: 0 <= k < |b| ==> text[n + k] == b[k]
  }

  /** `b` is what `text` holds at `n`. */
  ghost predicate Holds(text: seq<char>, n: nat, b: seq<char>) {
    n + |b| <= |text| && forall k :: 0 <= k < |b| ==> text[n + k] == b[k]
  }

  lemma SuffixSplits(text: seq<char>, n: nat, a: seq<char>, b: seq<char>)
    requires IsSuffix(text, n, a + b)
    ensures Holds(text, n, a) && IsSuffix(text, n + |a|, b)
  {
    forall k | 0 <= k < |a| ensures text[n + k] == a[k] { assert (a + b)[k] == a[k]; }
    forall k | 0 <= k < |b| ensures text[n + |a| + k] == b[k] { assert text[n + (|a| + k)] == (a + b)[|a| + k]; }
  }

  lemma BlankIs(c: char)
    ensures IsBlank(c) <==> c in " \t\r\n"
    ensures IsQuote(c) <==> c in "\"'"
  {
    var blanks, quotes := " \t\r\n", "\"'";
    assert blanks[0] == ' ' && blanks[1] == '\t' && blanks[2] == '\r' && blanks[3] == '\n';
    assert quotes[0] == '"' && quotes[1] == '\'';
  }

  lemma BlankFirst(text: seq<char>, pos: nat)
    requires pos < |text| && IsBlank(text[pos])
    ensures TokensFrom(text, pos) == TokensFrom(text, pos + 1)
  {
  }

  lemma TokenFirst(text: seq<char>, pos: nat, start: nat, end: nat)
    requires pos < |text| && !IsBlank(text[pos]) && (start, end) == ArgAt(text, pos)
    ensures TokensFrom(text, pos) == [text[start..end]] + TokensFrom(text, end + 1)
  {
  }

  lemma {:induction false} GapSkipped(text: seq<char>, pos: nat, gap: seq<char>, i: nat)
    requires Holds(text, pos, gap) && Spaces(gap) && i <= |gap|
    ensures TokensFrom(text, pos + i) == TokensFrom(text, pos + |gap|)
    decreases |gap| - i
  {
    if i < |gap| {
      assert text[pos + i] == gap[i];
      BlankIs(gap[i]);
      BlankFirst(text, pos + i);
      GapSkipped(text, pos, gap, i + 1);
    }
  }

  lemma FindStops(c: char, text: seq<char>, from: nat, body: seq<char>)
    requires Holds(text, from, body) && (forall i :: 0 <= i < |body| ==> body[i] != c)
    requires from + |body| == |text| || text[from + |body|] == c
    ensures Find(c, text, from) == from + |body| && text[from..from + |body|] == body
  {
    forall k | from <= k < from + |body| ensures text[k] != c { assert text[from + (k - from)] == body[k - from]; }
    assert text[from..from + |body|] == body;
  }

  lemma FindBlankStops(text: seq<char>, from: nat, body: seq<char>)
    requires Holds(text, from, body) && (forall i :: 0 <= i < |body| ==> !IsBlank(body[i]))
    requires from + |body| == |text| || IsBlank(text[from + |body|])
    ensures FindBlank(text, from) == from + |body| && text[from..from + |body|] == body
  {
    forall k | from <= k < from + |body| ensures !IsBlank(text[k]) { assert text[from + (k - from)] == body[k - from]; }
    assert text[from..from + |body|] == body;
  }

  /** A word, up to a blank or the end of the line, is the next argument. */
  lemma WordFirst(text: seq<char>, pos: nat, word: seq<char>)
    requires IsPiece(Bare(word)) && Holds(text, pos, word)
    requires pos + |word| == |text| || text[pos + |word|] in " \t\r\n"
    ensures TokensFrom(text, pos) == [word] + TokensFrom(text, pos + |word|)
  {
    var end := pos + |word|;
    forall i | 0 <= i < |word| ensures !IsBlank(word[i]) { BlankIs(word[i]); }
    BlankIs(word[0]);
    assert text[pos + 0] == word[0];
    if end < |text| { BlankIs(text[end]); }
    FindBlankStops(text, pos, word);
    TokenFirst(text, pos, pos, end);
    if end < |text| { BlankFirst(text, end); }
  }

  /** A quote takes everything to the same quote, or to the end of the line. */
  lemma QuoteFirst(text: seq<char>, pos: nat, quote: char, body: seq<char>)
    requires quote in "\"'" && Holds(text, pos, [quote] + body) && forall i :: 0 <= i < |body| ==> body[i] != quote
    requires pos + 1 + |body| == |text| || text[pos + 1 + |body|] == quote
    ensures TokensFrom(text, pos) == [body] + TokensFrom(text, pos + |body| + 2)
  {
    assert text[pos + 0] == ([quote] + body)[0];
    forall k | 0 <= k < |body| ensures text[pos + 1 + k] == body[k] {
      assert text[pos + (1 + k)] == ([quote] + body)[1 + k];
    }
    BlankIs(quote);
    FindStops(quote, text, pos + 1, body);
    TokenFirst(text, pos, pos + 1, pos + 1 + |body|);
  }

  lemma PieceFirst(text: seq<char>, pos: nat, p: Piece)
    requires IsPiece(p) && Holds(text, pos, Shown(p))
    requires p.Bare? ==> pos + |Shown(p)| == |text| || text[pos + |Shown(p)|] in " \t\r\n"
    requires p.Unclosed? ==> pos + |Shown(p)| == |text|
    ensures TokensFrom(text, pos) == [p.text] + TokensFrom(text, pos + |Shown(p)|)
  {
    match p
    case Bare(word) => WordFirst(text, pos, word);
    case Enclosed(quote, body) =>
      forall k | 0 <= k < |body| + 1 ensures text[pos + k] == ([quote] + body)[k] {
        assert Shown(p)[k] == ([quote] + body)[k];
      }
      assert text[pos + (1 + |body|)] == Shown(p)[1 + |body|];
      QuoteFirst(text, pos, quote, body);
    case Unclosed(quote, body) => QuoteFirst(text, pos, quote, body);
  }

  /** The first piece and its gap, then the rest. */
  lemma PieceThenRest(text: seq<char>, pos: nat, p: Piece, gap: seq<char>, rest: seq<char>)
    requires IsPiece(p) && Spaces(gap) && IsSuffix(text, pos, Joined(p, gap, rest))
    requires gap == [] ==> rest == [] || p.Enclosed?
    requires p.Unclosed? ==> gap == [] && rest == []
    ensures TokensFrom(text, pos) == [p.text] + TokensFrom(text, pos + |Shown(p)| + |gap|)
    ensures IsSuffix(text, pos + |Shown(p)| + |gap|, rest)
  {
    var after := pos + |Shown(p)|;
    SuffixSplits(text, pos, Shown(p), gap + rest);
    SuffixSplits(text, after, gap, rest);
    PieceThenGap(text, pos, after, p, gap);
  }

  lemma PieceThenGap(text: seq<char>, pos: nat, after: nat, p: Piece, gap: seq<char>)
    requires IsPiece(p) && Spaces(gap) && Holds(text, pos, Shown(p)) && after == pos + |Shown(p)| && Holds(text, after, gap)
    requires gap == [] ==> after == |text| || p.Enclosed?
    requires p.Unclosed? ==> after == |text|
    ensures TokensFrom(text, pos) == [p.text] + TokensFrom(text, after + |gap|)
  {
    if gap != [] { assert text[after + 0] == gap[0]; }
    PieceFirst(text, pos, p);
    LaterSkipped(text, after, gap);
  }

  lemma LaterSkipped(text: seq<char>, pos: nat, gap: seq<char>)
    requires Holds(text, pos, gap) && Spaces(gap)
    ensures TokensFrom(text, pos) == TokensFrom(text, pos + |gap|)
  {
    GapSkipped(text, pos, gap, 0);
  }

  lemma {:induction false} TokensOfLineFrom(text: seq<char>, pos: nat, l: Pieces)
    requires WellSpaced(l) && IsSuffix(text, pos, Written(l))
    ensures TokensFrom(text, pos) == Texts(l)
    decreases l
  {
    if l.Then? {
      PieceThenRest(text, pos, l.piece, l.gap, Written(l.rest));
      TokensOfLineFrom(text, pos + |Shown(l.piece)| + |l.gap|, l.rest);
    }
  }

  /** Words, arguments in either quotes and a last unclosed one, with any blanks between them and before
      the first, tokenize to themselves. */
  lemma TokensOfLine(lead: seq<char>, l: Pieces)
    requires Spaces(lead) && WellSpaced(l)
    ensures Tokens(lead + Written(l)) == Texts(l)
  {
    var text := lead + Written(l);
    SuffixSplits(text, 0, lead, Written(l));
    LeadSkipped(text, lead);
    TokensOfLineFrom(text, |lead|, l);
  }

  lemma LeadSkipped(text: seq<char>, lead: seq<char>)
    requires Holds(text, 0, lead) && Spaces(lead)
    ensures Tokens(text) == TokensFrom(text, |lead|)
  {
    GapSkipped(text, 0, lead, 0);
  }

  lemma QuoteSlices(text: seq<char>, pos: nat, i: nat)
    requires pos < i <= |text|
    ensures text[pos..i] == [text[pos]] + text[pos + 1..i]
    ensures i < |text| && text[i] == text[pos] ==> text[pos..i + 1] == [text[pos]] + text[pos + 1..i] + [text[pos]]
  {
  }

  lemma QuotedPieceAt(text: seq<char>, pos: nat) returns (p: Piece, end: nat)
    requires pos < |text| && IsQuote(text[pos])
    ensures pos < end <= |text| && IsPiece(p) && text[pos..end] == Shown(p) && !p.Bare?
    ensures p.Unclosed? ==> end == |text|
  {
    var c, i := text[pos], Find(text[pos], text, pos + 1);
    BlankIs(c);
    QuoteSlices(text, pos, i);
    var body := text[pos + 1..i];
    assert forall k :: 0 <= k < |body| ==> body[k] == text[pos + 1 + k];
    if i < |text| {
      return Enclosed(c, body), i + 1;
    }
    return Unclosed(c, body), i;
  }

  lemma WordAt(text: seq<char>, pos: nat) returns (end: nat)
    requires pos < |text| && !IsBlank(text[pos]) && !IsQuote(text[pos])
    ensures pos < end <= |text| && IsPiece(Bare(text[pos..end]))
    ensures end == |text| || text[end] in " \t\r\n"
  {
    end := FindBlank(text, pos);
    BlankIs(text[pos]);
    if end < |text| { BlankIs(text[end]); }
    var word := text[pos..end];
    forall k | 0 <= k < |word| ensures word[k] !in " \t\r\n" {
      assert word[k] == text[pos + k];
      BlankIs(word[k]);
    }
    assert word[0] == text[pos];
  }

  /** The argument at `pos` as a piece, and where it ends. */
  lemma PieceAt(text: seq<char>, pos: nat) returns (p: Piece, end: nat)
    requires pos < |text| && text[pos] !in " \t\r\n"
    ensures pos < end <= |text| && IsPiece(p) && text[pos..end] == Shown(p)
    ensures p.Unclosed? ==> end == |text|
    ensures p.Bare? ==> end == |text| || text[end] in " \t\r\n"
  {
    BlankIs(text[pos]);
    if IsQuote(text[pos]) {
      p, end := QuotedPieceAt(text, pos);
    } else {
      end := WordAt(text, pos);
      p := Bare(text[pos..end]);
    }
  }

  /** Every text is a line of such pieces, so TokensOfLine says what the tokens of every text are. */
  lemma {:induction false} EveryTextIsALine(text: seq<char>, pos: nat) returns (lead: seq<char>, l: Pieces)
    requires pos <= |text|
    ensures Spaces(lead) && WellSpaced(l) && text[pos..] == lead + Written(l)
    ensures pos < |text| && text[pos] in " \t\r\n" ==> lead != []
    ensures pos == |text| ==> lead == [] && l == End
    decreases |text| - pos
  {
    lead, l := [], End;
    if pos < |text| {
      if text[pos] in " \t\r\n" {
        lead, l := EveryTextIsALine(text, pos + 1);
        assert text[pos..] == [text[pos]] + text[pos + 1..];
        Regroup([text[pos]], lead, Written(l));
        lead := [text[pos]] + lead;
      } else {
        var p, end := PieceAt(text, pos);
        var gap, rest := EveryTextIsALine(text, end);
        assert text[pos..] == text[pos..end] + text[end..];
        l := Then(p, gap, rest);
      }
    }
  }

  // ----- Quoting -----

  /** Arguments wrapped in one kind of quotes and joined with blanks. */
  function Quoted(quote: char, args: seq<seq<char>>): seq<char> {
    if args == [] then []
    else Joined(Enclosed(quote, args[0]), if |args| == 1 then [] else [' '], Quoted(quote, args[1..]))
  }

  ghost predicate Plain(quote: char, args: seq<seq<char>>) {
    forall i :: 0 <= i < |args| ==> quote !in args[i]
  }

  lemma OneQuoted(quote: char, arg: seq<char>, gap: seq<char>, rest: Pieces)
    requires quote in "\"'" && quote !in arg && (gap == [] || gap == [' ']) && WellSpaced(rest)
    ensures WellSpaced(Then(Enclosed(quote, arg), gap, rest))
  {
    forall i | 0 <= i < |arg| ensures arg[i] != quote { assert arg[i] in arg; }
    BlankIs(' ');
  }

  lemma {:induction false} QuotedIsALine(quote: char, args: seq<seq<char>>) returns (l: Pieces)
    requires quote in "\"'" && Plain(quote, args)
    ensures WellSpaced(l) && Written(l) == Quoted(quote, args) && Texts(l) == args
    decreases |args|
  {
    l := End;
    if args != [] {
      var gap := if |args| == 1 then [] else [' '];
      var rest := QuotedIsALine(quote, args[1..]);
      OneQuoted(quote, args[0], gap, rest);
      l := Then(Enclosed(quote, args[0]), gap, rest);
    }
  }

  /** Quoting then tokenizing gives the arguments back, with either quote, empty arguments included. */
  lemma TokensOfQuoted(quote: char, args: seq<seq<char>>)
    requires quote in "\"'" && Plain(quote, args)
    ensures Tokens(Quoted(quote, args)) == args
  {
    var l := QuotedIsALine(quote, args);
    assert [] + Written(l) == Written(l);
    TokensOfLine([], l);
  }

  /** The round trip through `_make_args`: at most ten arguments free of the quote and of NUL, quoted into
      a buffer, come back as they were. */
  method QuoteParseRoundTrip(quote: char, args: seq<seq<char>>, line: array<char>, argv: array<int>) returns (argc: int)
    requires quote in "\"'" && Plain(quote, args) && |args| <= 10 <= argv.Length
    requires Stands(line[..], 0, Quoted(quote, args))
    modifies line, argv
    ensures argc == |args|
    ensures forall i :: 0 <= i < argc ==> 0 <= argv[i] <= line.Length && CString(line[..], argv[i]) == args[i]
  {
    TokensOfQuoted(quote, args);
    StandsIsCString(line[..], 0, Quoted(quote, args));
    argc := MakeArgs(line, 0, argv);
  }
}
