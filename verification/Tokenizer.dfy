/** `shell_parse` of kernel/shell.c: splitting a command line in place. */
module Tokenizer {
  import opened Bytes

  predicate IsSpace(c: byte) {
    c == SPACE || c == TAB
  }

  // ---- the words of a line --------------------------------------------------------------------

  function WordLength(s: seq<byte>): (k: nat)
    ensures k <= |s|
    ensures forall j :: 0 <= j < k ==> !IsSpace(s[j])
    ensures k < |s| ==> IsSpace(s[k])
  {
    if s == [] || IsSpace(s[0]) then 0 else 1 + WordLength(s[1..])
  }

  /** The maximal runs of non-blank characters. */
  function Words(s: seq<byte>): seq<seq<byte>>
    decreases |s|
  {
    if s == [] then []
    else if IsSpace(s[0]) then Words(s[1..])
    else [s[..WordLength(s)]] + Words(s[WordLength(s)..])
  }

  predicate Word(w: seq<byte>) {
    w != [] && forall j :: 0 <= j < |w| ==> !IsSpace(w[j])
  }

  function Join(ws: seq<seq<byte>>): seq<byte> {
    if ws == [] then [] else if |ws| == 1 then ws[0] else ws[0] + [SPACE] + Join(ws[1..])
  }

  lemma {:induction false} WordLengthUnique(s: seq<byte>, k: nat)
    requires k <= |s| && (forall j :: 0 <= j < k ==> !IsSpace(s[j])) && (k < |s| ==> IsSpace(s[k]))
    ensures WordLength(s) == k
  {
    if s != [] && !IsSpace(s[0]) { WordLengthUnique(s[1..], k - 1); }
  }

  lemma {:induction false} WordsAreWords(s: seq<byte>)
    ensures forall k :: 0 <= k < |Words(s)| ==> Word(Words(s)[k])
    decreases |s|
  {
    if s != [] {
      if IsSpace(s[0]) { WordsAreWords(s[1..]); } else { WordsAreWords(s[WordLength(s)..]); }
    }
  }

  /** Words joined by single spaces are the same words again. */
  lemma {:induction false} WordsOfJoin(ws: seq<seq<byte>>)
    requires forall k :: 0 <= k < |ws| ==> Word(ws[k])
    ensures Words(Join(ws)) == ws
  {
    if |ws| == 1 {
      WordLengthUnique(ws[0], |ws[0]|);
      assert ws[0][..|ws[0]|] == ws[0] && ws[0][|ws[0]|..] == [];
    } else if |ws| > 1 {
      var w, rest := ws[0], Join(ws[1..]);
      var s := w + [SPACE] + rest;
      WordLengthUnique(s, |w|);
      assert s[..|w|] == w && s[|w|..] == [SPACE] + rest;
      assert ([SPACE] + rest)[1..] == rest;
      WordsOfJoin(ws[1..]);
    }
  }

  lemma Retokenize(s: seq<byte>)
    ensures Words(Join(Words(s))) == Words(s)
  {
    WordsAreWords(s);
    WordsOfJoin(Words(s));
  }

  // ---- where they are ----------------------------------------------------------------------------

  datatype Span = Span(start: nat, end: nat)

  function SkipSpace(s: seq<byte>, i: nat): (k: nat)
    requires i <= |s|
    ensures i <= k <= |s| && (forall j :: i <= j < k ==> IsSpace(s[j])) && (k < |s| ==> !IsSpace(s[k]))
    decreases |s| - i
  {
    if i < |s| && IsSpace(s[i]) then SkipSpace(s, i + 1) else i
  }

  function WordEnd(s: seq<byte>, i: nat): (k: nat)
    requires i <= |s|
    ensures i <= k <= |s| && (forall j :: i <= j < k ==> !IsSpace(s[j])) && (k < |s| ==> IsSpace(s[k]))
    ensures i < |s| && !IsSpace(s[i]) ==> i < k
    decreases |s| - i
  {
    if i < |s| && !IsSpace(s[i]) then WordEnd(s, i + 1) else i
  }

  /** The places of the words from position `i` on. */
  function Spans(s: seq<byte>, i: nat): (r: seq<Span>)
    requires i <= |s|
    decreases |s| - i
  {
    var a := SkipSpace(s, i);
    if a == |s| then [] else [Span(a, WordEnd(s, a))] + Spans(s, WordEnd(s, a))
  }

  /** A maximal run of non-blank characters. */
  predicate IsRun(s: seq<byte>, r: Span) {
    && r.start < r.end <= |s|
    && (forall j :: r.start <= j < r.end ==> !IsSpace(s[j]))
    && (r.start == 0 || IsSpace(s[r.start - 1])) && (r.end == |s| || IsSpace(s[r.end]))
  }

  lemma FirstIsRun(s: seq<byte>, i: nat, a: nat)
    requires i <= |s| && (i == 0 || i == |s| || IsSpace(s[i]) || IsSpace(s[i - 1]))
    requires a == SkipSpace(s, i) < |s|
    ensures IsRun(s, Span(a, WordEnd(s, a)))
  {
    assert a > i ==> IsSpace(s[a - 1]);
  }

  /** Runs from `i` on, one behind the other. */
  ghost predicate RunsFrom(s: seq<byte>, i: nat, rs: seq<Span>) {
    && (forall k :: 0 <= k < |rs| ==> IsRun(s, rs[k]) && rs[k].start >= i)
    && (forall k, m :: 0 <= k < m < |rs| ==> rs[k].end < rs[m].start)
  }

  lemma RunBefore(s: seq<byte>, i: nat, r: Span, rest: seq<Span>)
    requires IsRun(s, r) && r.start >= i && RunsFrom(s, r.end, rest)
    ensures RunsFrom(s, i, [r] + rest)
  {
    var rs := [r] + rest;
    forall k | 0 <= k < |rest| ensures rest[k].start > r.end {
      assert IsRun(s, rest[k]);
    }
  }

  lemma {:induction false} SpansAreRuns(s: seq<byte>, i: nat)
    requires i <= |s| && (i == 0 || i == |s| || IsSpace(s[i]) || IsSpace(s[i - 1]))
    ensures RunsFrom(s, i, Spans(s, i))
    decreases |s| - i
  {
    var a := SkipSpace(s, i);
    if a < |s| {
      var e := WordEnd(s, a);
      FirstIsRun(s, i, a);
      SpansAreRuns(s, e);
      RunBefore(s, i, Span(a, e), Spans(s, e));
    }
  }

  /** All of them are found. */
  lemma {:induction false} RunsAreSpans(s: seq<byte>, i: nat, r: Span)
    requires i <= r.start && IsRun(s, r)
    ensures r in Spans(s, i)
    decreases |s| - i
  {
    var a := SkipSpace(s, i);
    assert !IsSpace(s[r.start]);
    assert a <= r.start;
    var e := WordEnd(s, a);
    if a == r.start {
      assert r.end < |s| ==> IsSpace(s[r.end]);
      assert e == r.end;
    } else {
      assert IsSpace(s[r.start - 1]);
      RunsAreSpans(s, e, r);
    }
  }

  predicate Blank(c: byte) {
    c == 32 || c == 9
  }

  predicate BlankRun(s: seq<byte>, r: Span) {
    && r.start < r.end <= |s|
    && (forall j :: r.start <= j < r.end ==> !Blank(s[j]))
    && (r.start == 0 || Blank(s[r.start - 1])) && (r.end == |s| || Blank(s[r.end]))
  }

  lemma RunIsRun(s: seq<byte>, r: Span)
    ensures IsRun(s, r) <==> BlankRun(s, r)
  {
  }

  lemma SpanIsRun(s: seq<byte>, r: Span)
    requires r in Spans(s, 0)
    ensures IsRun(s, r)
  {
    SpansAreRuns(s, 0);
    var rs := Spans(s, 0);
    var k :| 0 <= k < |rs| && rs[k] == r;
    assert IsRun(s, rs[k]);
  }

  /** The places found are exactly the maximal runs of bytes other than space and tab. */
  lemma RunsExactly(s: seq<byte>, r: Span)
    ensures r in Spans(s, 0) <==> BlankRun(s, r)
  {
    RunIsRun(s, r);
    if r in Spans(s, 0) { SpanIsRun(s, r); }
    if IsRun(s, r) { RunsAreSpans(s, 0, r); }
  }

  function Cut(s: seq<byte>, r: Span): seq<byte> {
    if r.start <= r.end <= |s| then s[r.start..r.end] else []
  }

  function Texts(s: seq<byte>, rs: seq<Span>): (ws: seq<seq<byte>>)
    ensures |ws| == |rs| && forall k :: 0 <= k < |rs| ==> ws[k] == Cut(s, rs[k])
  {
    if rs == [] then [] else [Cut(s, rs[0])] + Texts(s, rs[1..])
  }

  lemma TextsOfFirst(s: seq<byte>, i: nat, e: nat)
    requires i < |s| && !IsSpace(s[i]) && e == WordEnd(s, i)
    ensures Texts(s, Spans(s, i)) == [s[i..e]] + Texts(s, Spans(s, e))
  {
    assert Spans(s, i) == [Span(i, e)] + Spans(s, e);
    assert Spans(s, i)[1..] == Spans(s, e);
  }

  lemma SliceOfSlice(s: seq<byte>, i: nat, e: nat)
    requires i <= e <= |s|
    ensures s[i..][..e - i] == s[i..e] && s[i..][e - i..] == s[e..]
  {
  }

  lemma WordsOfFirst(s: seq<byte>, i: nat, e: nat)
    requires i < |s| && !IsSpace(s[i]) && e == WordEnd(s, i)
    ensures Words(s[i..]) == [s[i..e]] + Words(s[e..])
  {
    WordLengthUnique(s[i..], e - i);
    SliceOfSlice(s, i, e);
  }

  lemma BlankFirst(s: seq<byte>, i: nat)
    requires i < |s| && IsSpace(s[i])
    ensures Words(s[i..]) == Words(s[i + 1..]) && Spans(s, i) == Spans(s, i + 1)
  {
    assert s[i..][1..] == s[i + 1..];
  }

  /** The words are the texts of the spans. */
  lemma {:induction false} SpanTexts(s: seq<byte>, i: nat)
    requires i <= |s|
    ensures Words(s[i..]) == Texts(s, Spans(s, i))
    decreases |s| - i
  {
    if i < |s| && IsSpace(s[i]) {
      BlankFirst(s, i);
      SpanTexts(s, i + 1);
    } else if i < |s| {
      var e := WordEnd(s, i);
      WordsOfFirst(s, i, e);
      TextsOfFirst(s, i, e);
      SpanTexts(s, e);
    }
  }

  // ---- the parser ---------------------------------------------------------------------------------

  /** The word at `r` starts where `place` says and is terminated in place. */
  ghost predicate ParsedAt(r: Span, s: cstring, line: seq<byte>, place: int) {
    && place == r.start <= r.end <= |s| < |line| && line[r.end] == NUL
    && forall j :: r.start <= j < r.end ==> line[j] == s[j]
  }

  /** A parsed word reads back, as a C string, as that word of the original line. */
  lemma ParsedWord(s: cstring, line: seq<byte>, place: int, k: nat)
    requires k < |Spans(s, 0)| && ParsedAt(Spans(s, 0)[k], s, line, place)
    ensures k < |Words(s)| && 0 <= place <= |line| && CStr(line[place..]) == Words(s)[k]
  {
    SpanTexts(s, 0);
    assert s[0..] == s;
    TerminatedRun(s, line, Spans(s, 0)[k]);
  }

  lemma TerminatedRun(s: cstring, line: seq<byte>, r: Span)
    requires r.start <= r.end <= |s| < |line| && line[r.end] == NUL
    requires forall j :: r.start <= j < r.end ==> line[j] == s[j]
    ensures CStr(line[r.start..]) == s[r.start..r.end]
  {
  }

  method SkipBlanks(line: array<byte>, from: nat, ghost s: cstring) returns (p: nat)
    requires |s| < line.Length && from <= |s| && line[|s|] == NUL && forall j :: from <= j < |s| ==> line[j] == s[j]
    ensures p == SkipSpace(s, from)
  {
    p := from;
    while IsSpace(line[p])
      invariant from <= p <= |s| && SkipSpace(s, p) == SkipSpace(s, from)
      decreases |s| - p
    {
      p := p + 1;
    }
  }

  method PassWord(line: array<byte>, from: nat, ghost s: cstring) returns (p: nat)
    requires |s| < line.Length && from <= |s| && line[|s|] == NUL && forall j :: from <= j < |s| ==> line[j] == s[j]
    ensures p == WordEnd(s, from)
  {
    p := from;
    while line[p] != NUL && !IsSpace(line[p])
      invariant from <= p <= |s| && WordEnd(s, p) == WordEnd(s, from)
      decreases |s| - p
    {
      p := p + 1;
    }
  }

  /** `shell_parse`: `argv` gets the places of the first maximal runs, at most `maxArgv` and in
      order; each of them is terminated in place and reads back as that word; only blanks are
      overwritten. */
  method ShellParse(line: array<byte>, argv: array<int>, maxArgv: nat) returns (argc: nat)
    requires NUL in line[..] && maxArgv <= argv.Length
    modifies line, argv
    ensures var s := CStr(old(line[..]));
      && argc == (if |Words(s)| < maxArgv then |Words(s)| else maxArgv)
      && forall k :: 0 <= k < argc ==> 0 <= argv[k] <= line.Length && CStr(line[..][argv[k]..]) == Words(s)[k]
    ensures var s := CStr(old(line[..]));
      argc <= |Spans(s, 0)| && forall k :: 0 <= k < argc ==> ParsedAt(Spans(s, 0)[k], s, line[..], argv[k])
    ensures forall j :: 0 <= j < line.Length && line[j] != old(line[j]) ==> line[j] == NUL && IsSpace(old(line[j]))
    ensures forall k :: argc <= k < argv.Length ==> argv[k] == old(argv[k])
  {
    ghost var was, args := line[..], argv[..];
    ghost var s := CStr(was);
    ghost var spans := Spans(s, 0);
    argc := 0;
    var p := 0;
    while line[p] != NUL && argc < maxArgv
      invariant Scanning(s, spans, was, line[..], args, argv[..], argc, p) && argc <= maxArgv
      decreases |s| - p
    {
      var more;
      more, argc, p := ParseWord(line, argv, argc, p, s, spans, was, args);
      if !more { break; }
    }
    Results(s, spans, was, line[..], args, argv[..], argc, p);
  }

  /** Nothing but blanks before `p` has changed. */
  ghost predicate LineKept(s: cstring, was: seq<byte>, line: seq<byte>, p: nat) {
    && |s| < |was| == |line| && was[|s|] == NUL && s == was[..|s|] && p <= |s|
    && forall j :: 0 <= j < |line| ==> line[j] == was[j] || (j < p && line[j] == NUL && IsSpace(was[j]))
  }

  /** The first `argc` words are done, and `argv` is as it was behind them. */
  ghost predicate ArgsDone(s: cstring, spans: seq<Span>, line: seq<byte>,
                           args: seq<int>, argv: seq<int>, argc: nat, p: nat)
  {
    && |args| == |argv| && argc <= |argv| && argc <= |spans|
    && forall k :: 0 <= k < |argv| ==>
         if k < argc then ParsedAt(spans[k], s, line, argv[k]) && (spans[k].end < p || p == |s|) else argv[k] == args[k]
  }

  /** What holds between words; the rest of them begin at `p` or later. */
  ghost predicate Scanning(s: cstring, spans: seq<Span>, was: seq<byte>, line: seq<byte>,
                           args: seq<int>, argv: seq<int>, argc: nat, p: nat)
  {
    && LineKept(s, was, line, p) && ArgsDone(s, spans, line, args, argv, argc, p)
    && spans[argc..] == Spans(s, p)
  }

  /** One round of the outer loop; `more` is false where the source breaks out. */
  method ParseWord(line: array<byte>, argv: array<int>, n: nat, from: nat,
                   ghost s: cstring, ghost spans: seq<Span>, ghost was: seq<byte>, ghost args: seq<int>)
    returns (more: bool, argc: nat, p: nat)
    requires n < argv.Length && line.Length == |was| && argv.Length == |args|
    requires Scanning(s, spans, was, line[..], args, argv[..], n, from) && from < |s|
    modifies line, argv
    ensures Scanning(s, spans, was, line[..], args, argv[..], argc, p)
    ensures n <= argc <= n + 1 && (more ==> p > from) && (!more ==> p == |s|)
  {
    ghost var before, places := line[..], argv[..];
    argc := n;
    p := SkipBlanks(line, from, s);
    if line[p] == NUL {
      ScanEnd(s, spans, was, before, args, places, n, from);
      return false, n, p;
    }
    ghost var a := p;
    argv[argc] := p;
    argc := argc + 1;
    p := PassWord(line, p, s);
    ScanNext(s, spans, was, before, args, places, n, from, a, p);
    assert argv[..] == places[n := a];
    more := line[p] != NUL;
    if more {
      line[p] := NUL;
      assert line[..] == before[p := NUL];
      p := p + 1;
    } else {
      assert line[..] == before[p := NUL];
    }
  }

  /** Nothing but blanks is left. */
  lemma ScanEnd(s: cstring, spans: seq<Span>, was: seq<byte>, line: seq<byte>,
                args: seq<int>, argv: seq<int>, n: nat, p: nat)
    requires Scanning(s, spans, was, line, args, argv, n, p) && SkipSpace(s, p) == |s|
    ensures Scanning(s, spans, was, line, args, argv, n, |s|)
  {
    FirstSpan(s, spans, n, p);
  }

  lemma ArgsNext(s: cstring, spans: seq<Span>, line: seq<byte>,
                 args: seq<int>, argv: seq<int>, n: nat, p: nat, a: nat, e: nat)
    requires ArgsDone(s, spans, line, args, argv, n, p) && n < |argv| && n < |spans|
    requires p <= a < e <= |s| < |line| && p < |s| && spans[n] == Span(a, e)
    requires forall j :: a <= j < e ==> line[j] == s[j]
    ensures ArgsDone(s, spans, line[e := NUL], args, argv[n := a], n + 1, if e < |s| then e + 1 else e)
  {
    var line', argv' := line[e := NUL], argv[n := a];
    forall k | 0 <= k < n ensures ParsedAt(spans[k], s, line', argv'[k]) {
      assert ParsedAt(spans[k], s, line, argv[k]) && spans[k].end < p;
    }
    assert ParsedAt(spans[n], s, line', argv'[n]);
  }

  /** Terminating the next word, `was[a..e]`, keeps the picture. */
  lemma ScanNext(s: cstring, spans: seq<Span>, was: seq<byte>, line: seq<byte>,
                 args: seq<int>, argv: seq<int>, n: nat, p: nat, a: nat, e: nat)
    requires Scanning(s, spans, was, line, args, argv, n, p) && p < |s| && n < |argv|
    requires a == SkipSpace(s, p) < |s| && e == WordEnd(s, a)
    ensures Scanning(s, spans, was, line[e := NUL], args, argv[n := a], n + 1, if e < |s| then e + 1 else e)
  {
    FirstSpan(s, spans, n, p);
    ArgsNext(s, spans, line, args, argv, n, p, a, e);
    assert IsSpace(was[e]) || was[e] == NUL;
  }

  /** What the loop leaves, on both ways out. */
  lemma Results(s: cstring, spans: seq<Span>, was: seq<byte>, line: seq<byte>,
                args: seq<int>, argv: seq<int>, argc: nat, p: nat)
    requires s == CStr(was) && spans == Spans(s, 0) && Scanning(s, spans, was, line, args, argv, argc, p)
    ensures argc <= |Words(s)| && (p == |s| ==> argc == |Words(s)|)
    ensures forall k :: 0 <= k < argc ==> 0 <= argv[k] <= |line| && CStr(line[argv[k]..]) == Words(s)[k]
  {
    SpanTexts(s, 0);
    assert s[0..] == s;
    assert p == |s| ==> Spans(s, p) == [];
    forall k | 0 <= k < argc
      ensures 0 <= argv[k] <= |line| && CStr(line[argv[k]..]) == Words(s)[k]
    {
      ParsedWord(s, line, argv[k], k);
    }
  }

  /** What the remaining spans begin with. */
  lemma FirstSpan(s: cstring, spans: seq<Span>, n: nat, p: nat)
    requires p <= |s| && n <= |spans| && spans[n..] == Spans(s, p)
    ensures var a := SkipSpace(s, p);
      if a == |s| then n == |spans|
      else
        && n < |spans| && spans[n] == Span(a, WordEnd(s, a)) && spans[n + 1..] == Spans(s, WordEnd(s, a))
        && (WordEnd(s, a) < |s| ==> Spans(s, WordEnd(s, a)) == Spans(s, WordEnd(s, a) + 1))
        && (WordEnd(s, a) == |s| ==> n + 1 == |spans|)
  {
    var a := SkipSpace(s, p);
    if a < |s| {
      var e := WordEnd(s, a);
      assert spans[n] == spans[n..][0];
      assert spans[n + 1..] == spans[n..][1..];
      if e < |s| { assert SkipSpace(s, e) == SkipSpace(s, e + 1); }
    }
  }
}
