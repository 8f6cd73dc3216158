/** Cutting a line into tokens, in place. */
module PlyTokens {
  import opened Wrappers
  import opened Words

  /** The first position from `from` on that holds the delimiter, or the end. */
  function NextDelim(s: Bytes, delim: byte, from: nat): (n: nat)
    requires from <= |s|
    ensures from <= n <= |s|
    ensures forall k :: from <= k < n ==> s[k] != delim
    ensures n < |s| ==> s[n] == delim
    decreases |s| - from
  {
    if from < |s| && s[from] != delim then NextDelim(s, delim, from + 1) else from
  }

  /** The first position from `from` on that holds something else, or the end. */
  function NextOther(s: Bytes, delim: byte, from: nat): (n: nat)
    requires from <= |s|
    ensures from <= n <= |s|
    ensures forall k :: from <= k < n ==> s[k] == delim
    ensures n < |s| ==> s[n] != delim
    decreases |s| - from
  {
    if from < |s| && s[from] == delim then NextOther(s, delim, from + 1) else from
  }

  /** Where a token starts and ends. */
  datatype Span = Span(start: nat, end: nat)

  /** The tokens of a line from some position on, as positions. */
  function Spans(s: Bytes, delim: byte, from: nat): (spans: seq<Span>)
    requires from <= |s|
    ensures forall k :: 0 <= k < |spans| ==> from <= spans[k].start < spans[k].end <= |s|
    decreases |s| - from
  {
    var start := NextOther(s, delim, from);
    if start == |s| then []
    else
      var end := NextDelim(s, delim, start);
      [Span(start, end)] + Spans(s, delim, end)
  }

  /** A stretch without delimiters that cannot be extended either way. */
  predicate MaximalRun(s: Bytes, delim: byte, run: Span) {
    && run.start < run.end <= |s|
    && (forall k :: run.start <= k < run.end ==> s[k] != delim)
    && (run.start > 0 ==> s[run.start - 1] == delim)
    && (run.end < |s| ==> s[run.end] == delim)
  }

  /** No run reaches across this position. */
  predicate Between(s: Bytes, delim: byte, from: nat) {
    from <= |s| && (0 < from < |s| ==> s[from] == delim || s[from - 1] == delim)
  }

  /** From a place where no token is cut in two, a maximal run is the first token or lies behind it. */
  lemma FirstRun(s: Bytes, delim: byte, from: nat, run: Span)
    requires Between(s, delim, from) && NextOther(s, delim, from) < |s|
    ensures var start := NextOther(s, delim, from); var end := NextDelim(s, delim, start);
            Between(s, delim, end) &&
            (MaximalRun(s, delim, run) && run.start >= from <==>
              run == Span(start, end) || (MaximalRun(s, delim, run) && run.start >= end))
  {
    var start := NextOther(s, delim, from);
    var end := NextDelim(s, delim, start);
    hide NextOther, NextDelim;
    if MaximalRun(s, delim, run) && run.start >= from {
      assert s[run.start] != delim;
      if run.start < end { SameRun(s, delim, run, Span(start, end)); }
    }
  }

  /** Maximal runs that overlap are one. */
  lemma SameRun(s: Bytes, delim: byte, a: Span, b: Span)
    requires MaximalRun(s, delim, a) && MaximalRun(s, delim, b) && a.start < b.end && b.start < a.end
    ensures a == b
  {}

  lemma NoRun(s: Bytes, delim: byte, from: nat, run: Span)
    requires Between(s, delim, from) && NextOther(s, delim, from) == |s|
    ensures !(MaximalRun(s, delim, run) && run.start >= from)
  {
    assert from <= run.start < |s| ==> s[run.start] == delim;
  }

  /** The tokens are the maximal delimiter-free runs: all of them and nothing else. */
  lemma {:induction false} SpansExact(s: Bytes, delim: byte, from: nat, run: Span)
    requires Between(s, delim, from)
    ensures run in Spans(s, delim, from) <==> MaximalRun(s, delim, run) && run.start >= from
    decreases |s| - from
  {
    hide MaximalRun;
    var start := NextOther(s, delim, from);
    if start < |s| {
      var end := NextDelim(s, delim, start);
      FirstRun(s, delim, from, run);
      SpansExact(s, delim, end, run);
      assert Spans(s, delim, from) == [Span(start, end)] + Spans(s, delim, end);
    } else {
      NoRun(s, delim, from, run);
    }
  }

  predicate InOrder(spans: seq<Span>) {
    forall k, l :: 0 <= k < l < |spans| ==> spans[k].end < spans[l].start
  }

  /** They come in order, each once. */
  lemma {:induction false} SpansOrdered(s: Bytes, delim: byte, from: nat)
    requires Between(s, delim, from)
    ensures InOrder(Spans(s, delim, from))
    decreases |s| - from
  {
    var start := NextOther(s, delim, from);
    if start < |s| {
      var end := NextDelim(s, delim, start);
      var rest := Spans(s, delim, end);
      SpansOrdered(s, delim, end);
      forall run | run in rest ensures MaximalRun(s, delim, run) && run.start >= end { SpansExact(s, delim, end, run); }
      RunsApart(s, delim, end, rest);
      var spans := Spans(s, delim, from);
      assert spans == [Span(start, end)] + rest;
      OrderedBefore(Span(start, end), rest);
    }
  }

  lemma OrderedBefore(first: Span, rest: seq<Span>)
    requires forall k :: 0 <= k < |rest| ==> first.end < rest[k].start
    requires InOrder(rest)
    ensures InOrder([first] + rest)
  {}

  /** Tokens behind the end of one do not touch it. */
  lemma RunsApart(s: Bytes, delim: byte, end: nat, rest: seq<Span>)
    requires end <= |s| && (end < |s| ==> s[end] == delim)
    requires forall run :: run in rest ==> MaximalRun(s, delim, run) && run.start >= end
    ensures forall k :: 0 <= k < |rest| ==> end < rest[k].start
  {
    forall k | 0 <= k < |rest| ensures end < rest[k].start {
      assert rest[k] in rest;
      assert s[rest[k].start] != delim;
    }
  }

  /** The tokens themselves. */
  function Tokens(s: Bytes, delim: byte, from: nat): (tokens: seq<Bytes>)
    requires from <= |s|
    decreases |s| - from
  {
    var start := NextOther(s, delim, from);
    if start == |s| then []
    else
      var end := NextDelim(s, delim, start);
      [s[start..end]] + Tokens(s, delim, end)
  }

  /** The tokens are the texts at the maximal runs. */
  lemma {:induction false} TokensAreRuns(s: Bytes, delim: byte, from: nat)
    requires from <= |s|
    ensures var tokens, spans := Tokens(s, delim, from), Spans(s, delim, from);
            |tokens| == |spans| && forall k :: 0 <= k < |spans| ==> tokens[k] == s[spans[k].start..spans[k].end]
    decreases |s| - from
  {
    hide NextOther, NextDelim;
    var start := NextOther(s, delim, from);
    if start < |s| {
      TokensAreRuns(s, delim, NextDelim(s, delim, start));
    }
  }

  /** Going on behind the delimiter is going on at the delimiter. */
  lemma TokensBehind(s: Bytes, delim: byte, from: nat)
    requires from < |s| && s[from] == delim
    ensures Tokens(s, delim, from) == Tokens(s, delim, from + 1)
  {
    hide NextDelim;
    assert NextOther(s, delim, from) == NextOther(s, delim, from + 1);
  }

  /** ply_next_token on a line that lies at the start of the memory and ends in NUL; up to `at` it was cut
      before. The token, if any, is returned as the text its pointer denotes; the delimiter behind it is
      overwritten with NUL. */
  method NextToken(memory: array<byte>, at: nat, delim: byte, ghost line: Bytes)
    returns (token: Option<Bytes>, next: nat)
    requires delim != 0 && 0 !in line && at <= |line| < memory.Length
    requires memory[|line|] == 0 && memory[at..|line|] == line[at..]
    modifies memory
    ensures at <= next <= |line| && memory[|line|] == 0 && memory[next..|line|] == line[next..]
    ensures forall k :: |line| < k < memory.Length ==> memory[k] == old(memory[k])
    ensures var tokens := Tokens(line, delim, at);
            if tokens == [] then token == None && Tokens(line, delim, next) == []
            else token == Some(tokens[0]) && Tokens(line, delim, next) == tokens[1..]
  {
    hide NextOther, NextDelim, Tokens;
    assert forall k :: at <= k < |line| ==> memory[k] == line[k] by { SliceAt(memory[..], line, at); }
    var start := SkipWhile(memory, at, delim, line);
    var stop := SkipUntil(memory, start, delim, line);
    next := if memory[stop] != 0 then stop + 1 else stop;
    TokensAt(line, delim, at);
    token := if start < stop then Some(memory[start..stop]) else None;
    assert memory[start..stop] == line[start..stop];
    memory[stop] := 0;
  }

  lemma SliceAt(memory: Bytes, line: Bytes, at: nat)
    requires at <= |line| <= |memory| && memory[at..|line|] == line[at..]
    ensures forall k :: at <= k < |line| ==> memory[k] == line[k]
  {
    forall k | at <= k < |line| ensures memory[k] == line[k] {
      assert memory[at..|line|][k - at] == line[at..][k - at];
    }
  }

  method SkipWhile(memory: array<byte>, at: nat, delim: byte, ghost line: Bytes) returns (start: nat)
    requires delim != 0 && 0 !in line && at <= |line| < memory.Length && memory[|line|] == 0
    requires forall k :: at <= k < |line| ==> memory[k] == line[k]
    ensures start == NextOther(line, delim, at)
  {
    start := at;
    while memory[start] != 0 && memory[start] == delim
      invariant at <= start <= |line| && NextOther(line, delim, start) == NextOther(line, delim, at)
      decreases |line| - start
    {
      start := start + 1;
    }
  }

  method SkipUntil(memory: array<byte>, at: nat, delim: byte, ghost line: Bytes) returns (stop: nat)
    requires delim != 0 && 0 !in line && at <= |line| < memory.Length && memory[|line|] == 0
    requires forall k :: at <= k < |line| ==> memory[k] == line[k]
    ensures stop == NextDelim(line, delim, at)
  {
    stop := at;
    while memory[stop] != 0 && memory[stop] != delim
      invariant at <= stop <= |line| && NextDelim(line, delim, stop) == NextDelim(line, delim, at)
      decreases |line| - stop
    {
      stop := stop + 1;
    }
  }

  lemma TokensAt(s: Bytes, delim: byte, from: nat)
    requires from <= |s|
    ensures var start := NextOther(s, delim, from); var stop := NextDelim(s, delim, start);
            var next := if stop < |s| then stop + 1 else stop;
            if start == stop then Tokens(s, delim, from) == [] && Tokens(s, delim, next) == []
            else Tokens(s, delim, from) == [s[start..stop]] + Tokens(s, delim, next)
  {
    hide NextOther, NextDelim;
    var start := NextOther(s, delim, from);
    var stop := NextDelim(s, delim, start);
    if stop < |s| { TokensBehind(s, delim, stop); }
  }
}
