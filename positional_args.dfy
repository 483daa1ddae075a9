/** `PositionalArgs`: rewrites a query with `?` placeholders into YQL with
    the named parameters `$p0`, `$p1`, ... bound to the arguments in order. */
module PositionalArgs {
  import opened Wrappers
  import opened SqlLexer
  import opened BindParams

  /** The comment put before a query that had placeholders. */
  const Prefix: string := "-- origin query with positional args replacement\n"

  /** The result of a rewrite: the YQL text and the parameters to send. */
  datatype Rewrite = Rewrite(yql: string, newArgs: seq<Parameter>)

  /** The holes of the `?` in `src[a..b]`, one rune each, in order. */
  function MarksIn(src: string, a: nat, b: nat): (holes: seq<Hole>)
    requires a <= b <= |src|
    ensures Laid(holes, a, b)
    decreases b - a
  {
    if a == b then []
    else
      var pre := MarksIn(src, a, b - 1);
      if src[b - 1] == '?' then
        assert (pre + [Hole(b - 1, b)])[..|pre|] == pre;
        pre + [Hole(b - 1, b)]
      else
        LaidWithin(pre, a, b - 1, a, b);
        pre
  }

  /** The number of placeholders among the parts. */
  function Placeholders(parts: seq<Part>): (n: nat)
    ensures n <= |parts|
  {
    if parts == [] then 0
    else Placeholders(parts[..|parts| - 1]) + (if parts[|parts| - 1].PositionalArg? then 1 else 0)
  }

  /** The `?` a call of the raw state read. */
  function SegmentMarks(src: string, seg: Segment): seq<Hole> {
    if seg.state == PositionalRaw && seg.from <= seg.to <= |src| then MarksIn(src, seg.from, seg.to) else []
  }

  /** The `?` the raw state read in a run of the lexer, in order: the
      placeholders of the query. */
  ghost function RawMarks(src: string, trace: seq<Segment>): seq<Hole> {
    if trace == [] then []
    else RawMarks(src, trace[..|trace| - 1]) + SegmentMarks(src, trace[|trace| - 1])
  }

  /** The parts the raw state cuts at the holes when the pending text starts
      at `start`: for every `?`, the text since the last cut (possibly empty)
      and a placeholder. */
  function Emitted(src: string, start: nat, holes: seq<Hole>): seq<Part>
    requires Laid(holes, start, |src|)
    decreases |holes|
  {
    if holes == [] then []
    else
      var pre := holes[..|holes| - 1];
      var h := holes[|holes| - 1];
      LaidWithin(pre, start, h.at, start, |src|);
      LastEndWithin(pre, start, h.at);
      Emitted(src, start, pre) + [Text(src[LastEnd(pre, start)..h.at]), PositionalArg]
  }

  /** The parts a finished run of the positional lexer holds: the cuts at the
      `?` of the raw state, then the text left pending up to `pos`. */
  ghost function Lexed(src: string, trace: seq<Segment>, pos: nat): seq<Part>
    requires pos <= |src| && Laid(RawMarks(src, trace), 0, pos)
  {
    var holes := RawMarks(src, trace);
    LaidWithin(holes, 0, pos, 0, |src|);
    LastEndWithin(holes, 0, pos);
    Emitted(src, 0, holes) + Pending(src, LastEnd(holes, 0), pos)
  }

  /** The names `$p0`, ..., `$p<n-1>`. */
  function PNames(n: nat): (names: seq<string>)
    ensures |names| == n && forall k :: 0 <= k < n ==> names[k] == PName(k)
  {
    if n == 0 then [] else PNames(n - 1) + [PName(n - 1)]
  }

  /** The query text the parts were cut from. */
  function Original(parts: seq<Part>): string {
    if parts == [] then ""
    else
      Original(parts[..|parts| - 1])
      + match parts[|parts| - 1]
        case Text(t) => t
        case PositionalArg => "?"
        case NumericArg(_) => ""
  }

  /** The rewritten query text: the `k`-th placeholder becomes `$p<k>`. */
  function Rewritten(parts: seq<Part>): string {
    if parts == [] then ""
    else
      Rewritten(parts[..|parts| - 1])
      + match parts[|parts| - 1]
        case Text(t) => t
        case PositionalArg => PName(Placeholders(parts[..|parts| - 1]))
        case NumericArg(_) => ""
  }

  // ---------------------------------------------------------------------------
  // `positionalArgsStateFn`
  // ---------------------------------------------------------------------------

  /** The raw state: reads ordinary runes, cutting a text part and a
      placeholder at every `?`, until a quote or a comment opens or the input
      ends. The parts it appends are the cuts at the `?` it read and, when the
      input ends, the text left pending. */
  method PositionalArgsStateFn(lexer: Lexer) returns (next: Option<StateFn>)
    requires lexer.rawStateFn == PositionalRaw && lexer.ValidIn(Some(PositionalRaw))
    modifies lexer
    ensures lexer.ValidIn(next)
    ensures lexer.nested == old(lexer.nested) && lexer.stateFn == old(lexer.stateFn)
    ensures RawScan(lexer.src, PositionalRaw, old(lexer.pos), lexer.pos, next)
    ensures var marks := MarksIn(lexer.src, old(lexer.pos), lexer.pos);
            && Laid(marks, old(lexer.start), lexer.pos) && LastEnd(marks, old(lexer.start)) <= lexer.pos
            && lexer.parts == old(lexer.parts) + Emitted(lexer.src, old(lexer.start), marks)
                              + (if next.None? then Pending(lexer.src, LastEnd(marks, old(lexer.start)), lexer.pos) else [])
            && (next.Some? ==> lexer.start == LastEnd(marks, old(lexer.start)))
  {
    ghost var from, start0, parts0 := lexer.pos, lexer.start, lexer.parts;
    while true
      invariant RawLoop(lexer, from, start0, parts0)
      modifies lexer`pos, lexer`parts, lexer`spans, lexer`start
      decreases |lexer.src| - lexer.pos
    {
      var stay;
      stay, next := RawTurn(lexer, from, start0, parts0);
      if !stay {
        return next;
      }
    }
  }

  /** The loop of `positionalArgsStateFn` between two runes: the runes from
      `from` are ordinary, and the parts are the cuts at their `?`. */
  ghost predicate RawLoop(lexer: Lexer, from: nat, start0: nat, parts0: seq<Part>)
    reads lexer
  {
    && lexer.rawStateFn == PositionalRaw
    && lexer.Cut(false) && lexer.start <= lexer.pos <= |lexer.src|
    && from <= lexer.pos && RawRunes(lexer.src, PositionalRaw, from, lexer.pos)
    && RawCuts(lexer.src, from, start0, parts0, lexer.pos, lexer.parts, lexer.start)
  }

  /** The parts and the start after the raw state read `src[from..pos]`
      starting with `parts0` and the pending text at `start0`: the cuts at the
      `?` it read. */
  ghost predicate RawCuts(src: string, from: nat, start0: nat, parts0: seq<Part>, pos: nat, parts: seq<Part>, start: nat) {
    && start0 <= from <= pos <= |src|
    && Laid(MarksIn(src, from, pos), start0, pos)
    && Laid(MarksIn(src, from, pos), start0, |src|)
    && parts == parts0 + Emitted(src, start0, MarksIn(src, from, pos))
    && start == LastEnd(MarksIn(src, from, pos), start0)
  }

  /** The parts and the start when the raw state stopped at `pos` going to
      `next`: the cuts at the `?` it read, then the pending text if the input
      ended. */
  ghost predicate RawDone(src: string, from: nat, start0: nat, parts0: seq<Part>, pos: nat, next: Option<StateFn>,
                          parts: seq<Part>, start: nat) {
    && start0 <= from <= pos <= |src|
    && var marks := MarksIn(src, from, pos);
       && Laid(marks, start0, pos) && Laid(marks, start0, |src|) && LastEnd(marks, start0) <= pos
       && parts == parts0 + Emitted(src, start0, marks)
                   + (if next.None? then Pending(src, LastEnd(marks, start0), pos) else [])
       && (next.Some? ==> start == LastEnd(marks, start0))
  }

  /** One turn of the loop of `positionalArgsStateFn`. */
  method RawTurn(lexer: Lexer, ghost from: nat, ghost start0: nat, ghost parts0: seq<Part>)
    returns (stay: bool, next: Option<StateFn>)
    requires RawLoop(lexer, from, start0, parts0)
    modifies lexer`pos, lexer`parts, lexer`spans, lexer`start
    ensures stay ==> RawLoop(lexer, from, start0, parts0) && old(lexer.pos) < lexer.pos
    ensures !stay ==>
              && lexer.ValidIn(next)
              && RawScan(lexer.src, PositionalRaw, from, lexer.pos, next)
              && RawDone(lexer.src, from, start0, parts0, lexer.pos, next, lexer.parts, lexer.start)
  {
    ghost var before, parts1, start1 := lexer.pos, lexer.parts, lexer.start;
    stay, next := PositionalRune(lexer);
    if !stay {
      RawStop(lexer.src, from, start0, parts0, before, parts1, start1, lexer.pos, next, lexer.parts, lexer.start);
      RawScanFrom(lexer.src, PositionalRaw, from, before, lexer.pos, next);
      return;
    }
    RawStay(lexer.src, from, start0, parts0, before, parts1, start1, lexer.pos, lexer.parts, lexer.start);
    RawRunesStep(lexer.src, PositionalRaw, from, before);
  }

  /** A rune that ends the raw state adds no hole, and the parts are those of
      a stopped run. */
  lemma RawStop(src: string, from: nat, start0: nat, parts0: seq<Part>, at: nat, parts1: seq<Part>, start1: nat,
                to: nat, next: Option<StateFn>, parts2: seq<Part>, start2: nat)
    requires RawCuts(src, from, start0, parts0, at, parts1, start1) && at <= to <= |src|
    requires MarksIn(src, at, to) == []
    requires next.Some? ==> parts2 == parts1 && start2 == start1
    requires next.None? ==> parts2 == parts1 + Pending(src, start1, to)
    ensures RawDone(src, from, start0, parts0, to, next, parts2, start2)
  {
    var marks := MarksIn(src, from, at);
    MarksInSplit(src, from, at, to);
    assert marks + [] == marks;
    LaidWithin(marks, start0, at, start0, to);
    LastEndWithin(marks, start0, to);
  }

  /** The parts and the start after a rune that keeps the raw state going
      are the cuts at the holes read so far. */
  lemma RawStay(src: string, from: nat, start0: nat, parts0: seq<Part>, at: nat, parts1: seq<Part>, start1: nat,
                to: nat, parts2: seq<Part>, start2: nat)
    requires RawCuts(src, from, start0, parts0, at, parts1, start1) && at < |src| && to == at + 1
    requires src[at] == '?' ==> parts2 == parts1 + [Text(src[start1..at]), PositionalArg] && start2 == to
    requires src[at] != '?' ==> parts2 == parts1 && start2 == start1
    ensures RawCuts(src, from, start0, parts0, to, parts2, start2)
  {
    MarksStep(src, start0, from, at);
    if src[at] == '?' {
      var marks := MarksIn(src, from, at);
      var cut := [Text(src[start1..at]), PositionalArg];
      assert parts0 + Emitted(src, start0, marks) + cut == parts0 + (Emitted(src, start0, marks) + cut);
    }
  }

  /** Reading one more rune in the raw state: a `?` adds a hole and the cut
      at it, any other rune adds nothing. */
  lemma MarksStep(src: string, start: nat, from: nat, at: nat)
    requires start <= from <= at < |src| && Laid(MarksIn(src, from, at), start, at)
    ensures Laid(MarksIn(src, from, at), start, |src|)
    ensures Laid(MarksIn(src, from, at + 1), start, at + 1) && Laid(MarksIn(src, from, at + 1), start, |src|)
    ensures src[at] == '?' ==>
              && LastEnd(MarksIn(src, from, at + 1), start) == at + 1
              && Emitted(src, start, MarksIn(src, from, at + 1))
                 == Emitted(src, start, MarksIn(src, from, at)) + [Text(src[LastEnd(MarksIn(src, from, at), start)..at]), PositionalArg]
    ensures src[at] != '?' ==> MarksIn(src, from, at + 1) == MarksIn(src, from, at)
  {
    var marks := MarksIn(src, from, at);
    LaidWithin(marks, start, at, start, |src|);
    LaidWithin(MarksIn(src, from, at + 1), from, at + 1, start, at + 1);
    LaidWithin(MarksIn(src, from, at + 1), from, at + 1, start, |src|);
    if src[at] == '?' {
      assert MarksIn(src, from, at + 1) == marks + [Hole(at, at + 1)];
      assert (marks + [Hole(at, at + 1)])[..|marks|] == marks;
    }
  }

  /** One turn of the loop of `positionalArgsStateFn`: the rune at `pos` (with
      the one after it for a comment opener) either keeps the raw state going
      or ends it with the state to go to. A `?` appends the text before it and
      a placeholder; a `RuneError` appends the pending text; nothing else
      appends anything. */
  method PositionalRune(lexer: Lexer) returns (stay: bool, next: Option<StateFn>)
    requires lexer.rawStateFn == PositionalRaw && lexer.Cut(false) && lexer.start <= lexer.pos <= |lexer.src|
    modifies lexer`pos, lexer`parts, lexer`spans, lexer`start
    ensures stay ==>
              && lexer.Cut(false) && lexer.start <= lexer.pos == old(lexer.pos) + 1 <= |lexer.src|
              && OrdinaryRune(lexer.src, PositionalRaw, old(lexer.pos))
              && (lexer.src[old(lexer.pos)] == '?' ==>
                    && lexer.parts == old(lexer.parts) + [Text(lexer.src[old(lexer.start)..old(lexer.pos)]), PositionalArg]
                    && lexer.start == lexer.pos)
              && (lexer.src[old(lexer.pos)] != '?' ==> lexer.parts == old(lexer.parts) && lexer.start == old(lexer.start))
    ensures !stay ==>
              && lexer.ValidIn(next) && RawScan(lexer.src, PositionalRaw, old(lexer.pos), lexer.pos, next)
              && MarksIn(lexer.src, old(lexer.pos), lexer.pos) == []
              && (next.Some? ==> lexer.parts == old(lexer.parts) && lexer.start == old(lexer.start))
              && (next.None? ==> lexer.parts == old(lexer.parts) + Pending(lexer.src, old(lexer.start), lexer.pos))
  {
    var (r, width) := DecodeRune(lexer.src, lexer.pos);
    lexer.pos := lexer.pos + width;
    stay, next := false, None;
    if r == '`' {
      next := Some(Backtick);
    } else if r == '\'' {
      next := Some(SingleQuote);
    } else if r == '"' {
      next := Some(DoubleQuote);
    } else if r == '?' {
      EmitPlaceholder(lexer);
      stay := true;
    } else if r == '-' || r == '/' {
      next := CommentOpener(lexer, r);
      stay := next.None?;
      if next.Some? {
        assert MarksIn(lexer.src, old(lexer.pos), lexer.pos - 1) == [];
      }
    } else if r == RuneError {
      Flush(lexer);
    } else {
      stay := true;
    }
  }

  /** The `?` of adjacent ranges, one after the other. */
  lemma {:induction false} MarksInSplit(src: string, a: nat, b: nat, c: nat)
    requires a <= b <= c <= |src|
    ensures MarksIn(src, a, c) == MarksIn(src, a, b) + MarksIn(src, b, c)
    decreases c - b
  {
    if b < c {
      MarksInSplit(src, a, b, c - 1);
    }
  }

  /** The `?` case: the text before the `?` (possibly empty) and a placeholder
      are appended, and the next part starts after the `?`. */
  method EmitPlaceholder(lexer: Lexer)
    requires lexer.Cut(false) && lexer.rawStateFn == PositionalRaw
    requires lexer.start < lexer.pos <= |lexer.src| && lexer.src[lexer.pos - 1] == '?'
    modifies lexer`parts, lexer`spans, lexer`start
    ensures lexer.Cut(false) && lexer.start == lexer.pos
    ensures lexer.parts == old(lexer.parts) + [Text(lexer.src[old(lexer.start)..lexer.pos - 1]), PositionalArg]
    ensures Placeholders(lexer.parts) == Placeholders(old(lexer.parts)) + 1
  {
    var piece := lexer.src[lexer.start..lexer.pos - 1];
    FlatAppend(lexer.spans, piece);
    FlatAppend(lexer.spans + [piece], "?");
    assert lexer.src[..lexer.start] + piece + "?" == lexer.src[..lexer.pos];
    assert lexer.spans + [piece] + ["?"] == lexer.spans + [piece, "?"];
    ghost var mid := lexer.parts + [Text(piece)];
    lexer.parts := lexer.parts + [Text(piece), PositionalArg];
    lexer.spans := lexer.spans + [piece, "?"];
    lexer.start := lexer.pos;
    assert lexer.parts[..|lexer.parts| - 1] == mid && mid[..|mid| - 1] == old(lexer.parts);
  }

  // ---------------------------------------------------------------------------
  // `RewriteQuery`
  // ---------------------------------------------------------------------------

  /** The first loop of `RewriteQuery`: runs the state machine from the raw
      state until a state returns nil. The parts are the cuts at the `?` the
      raw state read, then the text left pending. */
  method Lex(sql: string) returns (lexer: Lexer, ghost trace: seq<Segment>)
    ensures lexer.src == sql && lexer.rawStateFn == PositionalRaw && lexer.ValidIn(None)
    ensures Traced(sql, PositionalRaw, trace, lexer.pos, None)
    ensures Original(lexer.parts) == sql[..lexer.pos]
    ensures forall i :: 0 <= i < |lexer.parts| ==> !lexer.parts[i].NumericArg?
    ensures Laid(RawMarks(sql, trace), 0, lexer.pos)
    ensures lexer.parts == Lexed(sql, trace, lexer.pos)
  {
    lexer := new Lexer(sql, PositionalRaw);
    trace := [];
    while lexer.stateFn.Some?
      invariant lexer.src == sql && lexer.rawStateFn == PositionalRaw && lexer.Valid()
      invariant lexer.stateFn.Some? ==> Resumable(lexer.stateFn.value, lexer.nested)
      invariant Traced(sql, PositionalRaw, trace, lexer.pos, lexer.stateFn)
      invariant Laid(RawMarks(sql, trace), 0, lexer.pos)
      invariant lexer.stateFn.Some? ==>
                  lexer.parts == Emitted(sql, 0, RawMarks(sql, trace)) && lexer.start == LastEnd(RawMarks(sql, trace), 0)
      invariant lexer.stateFn.None? ==> lexer.parts == Lexed(sql, trace, lexer.pos)
      modifies lexer
      decreases |sql| - lexer.pos, if lexer.stateFn.Some? then 1 else 0
    {
      trace := Advance(lexer, trace);
    }
    OriginalIsFlat(lexer.parts, lexer.spans);
  }

  /** One turn of the loop of `Lex`: the current state runs and its successor
      is installed; the run's record grows by the segment it consumed. */
  method Advance(lexer: Lexer, ghost trace: seq<Segment>) returns (ghost trace': seq<Segment>)
    requires lexer.rawStateFn == PositionalRaw && lexer.Valid()
    requires lexer.stateFn.Some? && Resumable(lexer.stateFn.value, lexer.nested)
    requires Traced(lexer.src, PositionalRaw, trace, lexer.pos, lexer.stateFn)
    requires Laid(RawMarks(lexer.src, trace), 0, lexer.pos)
    requires lexer.parts == Emitted(lexer.src, 0, RawMarks(lexer.src, trace))
    requires lexer.start == LastEnd(RawMarks(lexer.src, trace), 0)
    modifies lexer
    ensures lexer.Valid() && old(lexer.pos) <= lexer.pos
    ensures lexer.stateFn.Some? ==> Resumable(lexer.stateFn.value, lexer.nested) && old(lexer.pos) < lexer.pos
    ensures Traced(lexer.src, PositionalRaw, trace', lexer.pos, lexer.stateFn)
    ensures Laid(RawMarks(lexer.src, trace'), 0, lexer.pos)
    ensures lexer.stateFn.Some? ==>
              && lexer.parts == Emitted(lexer.src, 0, RawMarks(lexer.src, trace'))
              && lexer.start == LastEnd(RawMarks(lexer.src, trace'), 0)
    ensures lexer.stateFn.None? ==> lexer.parts == Lexed(lexer.src, trace', lexer.pos)
  {
    var state := lexer.stateFn.value;
    var from := lexer.pos;
    ghost var marks := RawMarks(lexer.src, trace);
    ghost var parts1, start1 := lexer.parts, lexer.start;
    var next := RunState(lexer);
    ghost var seg := Segment(state, from, lexer.pos);
    TracedStep(lexer.src, PositionalRaw, trace, from, state, lexer.pos, next);
    trace' := trace + [seg];
    TraceCuts(lexer.src, trace, state, from, lexer.pos, trace', parts1, start1, next, lexer.parts, lexer.start);
    lexer.stateFn := next;
  }

  /** The parts after one more state ran: the cuts at the holes of the
      longer record, and the whole lexed parts once the lexer stopped. */
  lemma TraceCuts(src: string, trace: seq<Segment>, state: StateFn, from: nat, to: nat, trace': seq<Segment>,
                  parts1: seq<Part>, start1: nat, next: Option<StateFn>, parts2: seq<Part>, start2: nat)
    requires from <= to <= |src| && trace' == trace + [Segment(state, from, to)]
    requires Laid(RawMarks(src, trace), 0, from)
    requires parts1 == Emitted(src, 0, RawMarks(src, trace)) && start1 == LastEnd(RawMarks(src, trace), 0)
    requires var more := SegmentMarks(src, Segment(state, from, to));
             && Laid(more, from, to) && Laid(more, start1, to) && LastEnd(more, start1) <= to
             && parts2 == parts1 + Emitted(src, start1, more)
                          + (if next.None? then Pending(src, LastEnd(more, start1), to) else [])
             && (next.Some? ==> start2 == LastEnd(more, start1))
    ensures Laid(RawMarks(src, trace'), 0, to)
    ensures next.Some? ==> parts2 == Emitted(src, 0, RawMarks(src, trace')) && start2 == LastEnd(RawMarks(src, trace'), 0)
    ensures next.None? ==> parts2 == Lexed(src, trace', to)
  {
    var seg := Segment(state, from, to);
    var marks := RawMarks(src, trace);
    var more := SegmentMarks(src, seg);
    assert trace'[..|trace|] == trace;
    assert RawMarks(src, trace') == marks + more;
    LaidConcat(marks, more, 0, from, to);
    EmittedAppend(src, 0, marks, more);
  }

  /** The states the positional lexer runs, each entered with no open
      comment. */
  predicate Resumable(state: StateFn, nested: nat) {
    nested == 0 && state !in {NumericRaw, NumericArgument}
  }

  /** `lexer.stateFn(lexer)` for the states of the positional lexer: the raw
      state appends the cuts at the `?` it reads, and every state appends the
      pending text when it stops the lexer. */
  method RunState(lexer: Lexer) returns (next: Option<StateFn>)
    requires lexer.rawStateFn == PositionalRaw && lexer.Valid()
    requires lexer.stateFn.Some? && Resumable(lexer.stateFn.value, lexer.nested)
    modifies lexer
    ensures lexer.ValidIn(next) && lexer.stateFn == old(lexer.stateFn)
    ensures next.Some? ==> Resumable(next.value, lexer.nested) && old(lexer.pos) < lexer.pos
    ensures Step(lexer.src, PositionalRaw, Segment(lexer.stateFn.value, old(lexer.pos), lexer.pos), next)
    ensures var marks := SegmentMarks(lexer.src, Segment(lexer.stateFn.value, old(lexer.pos), lexer.pos));
            && Laid(marks, old(lexer.pos), lexer.pos)
            && Laid(marks, old(lexer.start), lexer.pos) && LastEnd(marks, old(lexer.start)) <= lexer.pos
            && lexer.parts == old(lexer.parts) + Emitted(lexer.src, old(lexer.start), marks)
                              + (if next.None? then Pending(lexer.src, LastEnd(marks, old(lexer.start)), lexer.pos) else [])
            && (next.Some? ==> lexer.start == LastEnd(marks, old(lexer.start)))
  {
    var state := lexer.stateFn.value;
    if state == PositionalRaw {
      next := PositionalArgsStateFn(lexer);
      return;
    } else if state == OneLineComment {
      next := OneLineCommentState(lexer);
    } else if state == MultilineComment {
      next := MultilineCommentState(lexer);
    } else {
      next := QuoteState(lexer, QuoteOf(state));
    }
    assert old(lexer.parts) + [] == old(lexer.parts);
  }

  /** Cutting at two runs of holes is cutting at the first, then at the
      second from where the first left off. */
  lemma {:induction false} EmittedAppend(src: string, start: nat, a: seq<Hole>, b: seq<Hole>)
    requires Laid(a + b, start, |src|)
    ensures Laid(a, start, |src|) && Laid(b, LastEnd(a, start), |src|)
    ensures Emitted(src, start, a + b) == Emitted(src, start, a) + Emitted(src, LastEnd(a, start), b)
    decreases |b|
  {
    LaidSplit(a, b, start, |src|);
    if b == [] {
      assert a + b == a;
    } else {
      var h, pre := b[|b| - 1], b[..|b| - 1];
      var la := LastEnd(a, start);
      assert (a + b)[..|a + b| - 1] == a + pre;
      LaidWithin(a + pre, start, h.at, start, |src|);
      EmittedAppend(src, start, a, pre);
      assert LastEnd(a + pre, start) == LastEnd(pre, la);
      var tail := [Text(src[LastEnd(pre, la)..h.at]), PositionalArg];
      assert Emitted(src, start, a + b) == Emitted(src, start, a + pre) + tail;
      assert Emitted(src, la, b) == Emitted(src, la, pre) + tail;
    }
  }

  lemma PendingAddsText(parts: seq<Part>, src: string, start: nat, pos: nat)
    requires start <= pos <= |src|
    ensures Placeholders(parts + Pending(src, start, pos)) == Placeholders(parts)
  {
    if pos - start > 0 {
      assert (parts + Pending(src, start, pos))[..|parts|] == parts;
    } else {
      assert parts + Pending(src, start, pos) == parts;
    }
  }

  /** Read back as text, the parts of the positional lexer are the slices they
      were cut from. */
  lemma {:induction false} OriginalIsFlat(parts: seq<Part>, spans: seq<string>)
    requires |parts| == |spans|
    requires forall i :: 0 <= i < |parts| ==> SpanOf(parts[i], spans[i]) && EmittedBy(parts[i], PositionalRaw)
    ensures Original(parts) == Flat(spans)
    ensures forall i :: 0 <= i < |parts| ==> !parts[i].NumericArg?
  {
    if parts != [] {
      OriginalIsFlat(parts[..|parts| - 1], spans[..|spans| - 1]);
    }
  }

  /** `RewriteQuery`: `trace` is the run of the lexer and `parts` the parts
      it cut: the query up to its first stopping `RuneError` (all of it when it
      has none), cut at exactly the `?` the raw state read. The rewrite
      succeeds exactly when there are as many such `?` as arguments and every
      argument binds; the `k`-th of those `?` then becomes `$p<k>` and every
      other rune, a `?` in a literal or a comment included, is kept.
      Otherwise the error is the first binding failure among the arguments the
      placeholders reach, or `ErrInconsistentArgs`. */
  method RewriteQuery(sql: string, args: seq<Arg>, toValue: Converter)
    returns (r: Result<Rewrite, BindError>, ghost parts: seq<Part>, ghost trace: seq<Segment>)
    ensures Traced(sql, PositionalRaw, trace, |Original(parts)|, None)
    ensures Original(parts) <= sql
    ensures (forall i :: 0 <= i < |sql| ==> sql[i] != RuneError) ==> Original(parts) == sql
    ensures Laid(RawMarks(sql, trace), 0, |Original(parts)|)
    ensures parts == Lexed(sql, trace, |Original(parts)|)
    ensures r.Ok? <==> |RawMarks(sql, trace)| == |args| && Converted(args, toValue).Ok?
    ensures r.Ok? ==>
              r.value == Rewrite((if |args| > 0 then Prefix else "") + Splice(Original(parts), RawMarks(sql, trace), PNames(|args|)),
                                 Converted(args, toValue).value)
    ensures r.Err? ==>
              var reached := Converted(args[..Min(|RawMarks(sql, trace)|, |args|)], toValue);
              r.error == if reached.Err? then reached.error else ErrInconsistentArgs
  {
    var lexer;
    lexer, trace := Lex(sql);
    parts := lexer.parts;
    StoppedAt(sql, PositionalRaw, trace, lexer.pos);
    r := Substitute(lexer.parts, args, toValue);
    ExpectedMeaning(parts, args, toValue);
    LexedMeaning(sql, trace, lexer.pos);
  }

  /** What the second half of `RewriteQuery` returns: the arguments are bound
      as the placeholders reach them, so a binding failure among those comes
      first; then the counts must agree. */
  function Expected(parts: seq<Part>, args: seq<Arg>, toValue: Converter): Result<Rewrite, BindError> {
    var n := Placeholders(parts);
    var reached := Converted(args[..Min(n, |args|)], toValue);
    if reached.Err? then Err(reached.error)
    else if n != |args| then Err(ErrInconsistentArgs)
    else Ok(Rewrite((if n > 0 then Prefix else "") + Rewritten(parts), reached.value))
  }

  /** The rewrite succeeds exactly when the placeholders and the arguments are
      as many and every argument binds, and then sends all arguments bound as
      `$p0, $p1, ...`. */
  lemma ExpectedMeaning(parts: seq<Part>, args: seq<Arg>, toValue: Converter)
    ensures Expected(parts, args, toValue).Ok? <==> Placeholders(parts) == |args| && Converted(args, toValue).Ok?
    ensures Expected(parts, args, toValue).Ok? ==>
              Expected(parts, args, toValue).value
              == Rewrite((if |args| > 0 then Prefix else "") + Rewritten(parts), Converted(args, toValue).value)
  {
    var n := Placeholders(parts);
    ConvertedPrefix(args, Min(n, |args|), toValue);
    assert args[..|args|] == args;
  }

  /** The second half of `RewriteQuery`: the parts written out with the
      placeholders replaced, the arguments bound as they are reached, and the
      counts compared. */
  method Substitute(parts: seq<Part>, args: seq<Arg>, toValue: Converter) returns (r: Result<Rewrite, BindError>)
    ensures r == Expected(parts, args, toValue)
  {
    var buffer := "";
    var position: nat := 0;
    var newArgs: seq<Parameter> := [];
    for i := 0 to |parts|
      invariant position == Placeholders(parts[..i]) <= Placeholders(parts) && position <= |args|
      invariant buffer == Rewritten(parts[..i])
      invariant Converted(args[..position], toValue) == Ok(newArgs)
    {
      var stop;
      stop, buffer, position, newArgs := SubstitutePart(parts, i, args, toValue, buffer, position, newArgs);
      if stop.Some? {
        return Err(stop.value);
      }
    }
    assert parts[..|parts|] == parts;
    ExpectedAtEnd(parts, args, toValue, newArgs);
    if |args| != position {
      return Err(ErrInconsistentArgs);
    }
    if position > 0 {
      return Ok(Rewrite(Prefix + buffer, newArgs));
    }
    return Ok(Rewrite(buffer, newArgs));
  }

  /** One turn of the loop of `RewriteQuery` over the parts: text is copied,
      a placeholder binds the next argument as `$p<position>`, and a numeric
      placeholder is dropped; an error is the result of the whole query. */
  method SubstitutePart(parts: seq<Part>, i: nat, args: seq<Arg>, toValue: Converter,
                        buffer: string, position: nat, newArgs: seq<Parameter>)
    returns (stop: Option<BindError>, buffer': string, position': nat, newArgs': seq<Parameter>)
    requires i < |parts|
    requires position == Placeholders(parts[..i]) <= Placeholders(parts) && position <= |args|
    requires buffer == Rewritten(parts[..i])
    requires Converted(args[..position], toValue) == Ok(newArgs)
    ensures stop.Some? ==> Expected(parts, args, toValue) == Err(stop.value)
    ensures stop.None? ==>
              && position' == Placeholders(parts[..i + 1]) <= Placeholders(parts) && position' <= |args|
              && buffer' == Rewritten(parts[..i + 1])
              && Converted(args[..position'], toValue) == Ok(newArgs')
  {
    PartStep(parts, i);
    PlaceholdersPrefix(parts, i + 1);
    stop, buffer', position', newArgs' := None, buffer, position, newArgs;
    match parts[i] {
      case Text(t) =>
        buffer' := buffer + t;
      case PositionalArg =>
        if position > |args| - 1 {
          ExpectedOverrun(parts, args, toValue, newArgs);
          return Some(ErrInconsistentArgs), buffer, position, newArgs;
        }
        var paramName := "$p" + Itoa(position);
        var param := ToYdbParam(paramName, args[position], toValue);
        if param.Err? {
          ExpectedBindFails(parts, args, toValue, position);
          return Some(param.error), buffer, position, newArgs;
        }
        ConvertedStep(args, position, toValue);
        newArgs' := newArgs + [param.value];
        buffer' := buffer + paramName;
        position' := position + 1;
      case NumericArg(_) =>
    }
  }

  lemma ExpectedOverrun(parts: seq<Part>, args: seq<Arg>, toValue: Converter, bound: seq<Parameter>)
    requires Placeholders(parts) > |args| && Converted(args[..|args|], toValue) == Ok(bound)
    ensures Expected(parts, args, toValue) == Err(ErrInconsistentArgs)
  {
  }

  lemma ExpectedBindFails(parts: seq<Part>, args: seq<Arg>, toValue: Converter, k: nat)
    requires k < |args| && k < Placeholders(parts) && Converted(args[..k], toValue).Ok?
    requires ToYdbParam("$p" + Itoa(k), args[k], toValue).Err?
    ensures Expected(parts, args, toValue) == Err(ToYdbParam("$p" + Itoa(k), args[k], toValue).error)
  {
    var m := Min(Placeholders(parts), |args|);
    assert args[..k + 1][..k] == args[..k];
    assert args[..m][..k + 1] == args[..k + 1];
    ConvertedPrefix(args[..m], k + 1, toValue);
  }

  lemma ExpectedAtEnd(parts: seq<Part>, args: seq<Arg>, toValue: Converter, bound: seq<Parameter>)
    requires Placeholders(parts) <= |args| && Converted(args[..Placeholders(parts)], toValue) == Ok(bound)
    ensures Placeholders(parts) != |args| ==> Expected(parts, args, toValue) == Err(ErrInconsistentArgs)
    ensures Placeholders(parts) == |args| > 0 ==>
              Expected(parts, args, toValue) == Ok(Rewrite(Prefix + Rewritten(parts), bound))
    ensures Placeholders(parts) == |args| == 0 ==>
              Expected(parts, args, toValue) == Ok(Rewrite(Rewritten(parts), bound))
  {
    assert [] + Rewritten(parts) == Rewritten(parts);
  }

  /** One more part, written out. */
  lemma PartStep(parts: seq<Part>, i: nat)
    requires i < |parts|
    ensures parts[i].Text? ==>
              Placeholders(parts[..i + 1]) == Placeholders(parts[..i])
              && Rewritten(parts[..i + 1]) == Rewritten(parts[..i]) + parts[i].text
    ensures parts[i].PositionalArg? ==>
              Placeholders(parts[..i + 1]) == Placeholders(parts[..i]) + 1
              && Rewritten(parts[..i + 1]) == Rewritten(parts[..i]) + PName(Placeholders(parts[..i]))
    ensures parts[i].NumericArg? ==>
              Placeholders(parts[..i + 1]) == Placeholders(parts[..i])
              && Rewritten(parts[..i + 1]) == Rewritten(parts[..i])
  {
    assert parts[..i + 1][..i] == parts[..i];
  }

  function Min(a: nat, b: nat): nat {
    if a < b then a else b
  }

  lemma {:induction false} PlaceholdersPrefix(parts: seq<Part>, i: nat)
    requires i <= |parts|
    ensures Placeholders(parts[..i]) <= Placeholders(parts)
  {
    if i < |parts| {
      PlaceholdersPrefix(parts[..|parts| - 1], i);
      assert parts[..|parts| - 1][..i] == parts[..i];
    } else {
      assert parts[..i] == parts;
    }
  }

  // ---------------------------------------------------------------------------
  // Properties
  // ---------------------------------------------------------------------------

  /** Without placeholders the query text comes back unchanged. */
  lemma {:induction false} RewrittenWithoutPlaceholders(parts: seq<Part>)
    requires Placeholders(parts) == 0
    ensures Rewritten(parts) == Original(parts)
  {
    if parts != [] {
      RewrittenWithoutPlaceholders(parts[..|parts| - 1]);
    }
  }

  /** Placeholders are numbered from zero in the order they appear. */
  lemma RewrittenExample()
    ensures Rewritten([Text("SELECT "), PositionalArg, Text(", "), PositionalArg]) == "SELECT $p0, $p1"
    ensures Original([Text("SELECT "), PositionalArg, Text(", "), PositionalArg]) == "SELECT ?, ?"
  {
    var p1 := [Text("SELECT ")];
    var p2 := p1 + [PositionalArg];
    var p3 := p2 + [Text(", ")];
    var p4 := p3 + [PositionalArg];
    assert p4[..3] == p3 && p3[..2] == p2 && p2[..1] == p1 && p1[..0] == [];
    assert Placeholders(p2) == 1 && Placeholders(p3) == 1;
    assert Itoa(0) == "0" && Itoa(1) == "1";
    assert Rewritten(p2) == "SELECT $p0";
    assert Rewritten(p3) == "SELECT $p0, ";
    assert Original(p2) == "SELECT ?";
    assert Original(p3) == "SELECT ?, ";
    assert p4 == [Text("SELECT "), PositionalArg, Text(", "), PositionalArg];
  }

  /** Read back as rewritten text, the parts of a finished run are the query
      with the `k`-th `?` of the raw state replaced by `$p<k>`, and they hold
      one placeholder for each of those `?`. */
  lemma LexedMeaning(src: string, trace: seq<Segment>, pos: nat)
    requires pos <= |src| && Laid(RawMarks(src, trace), 0, pos)
    ensures Placeholders(Lexed(src, trace, pos)) == |RawMarks(src, trace)|
    ensures Rewritten(Lexed(src, trace, pos)) == Splice(src[..pos], RawMarks(src, trace), PNames(|RawMarks(src, trace)|))
  {
    var holes := RawMarks(src, trace);
    LaidWithin(holes, 0, pos, 0, |src|);
    LastEndWithin(holes, 0, pos);
    var last := LastEnd(holes, 0);
    var emitted := Emitted(src, 0, holes);
    var names := PNames(|holes|);
    assert Lexed(src, trace, pos) == emitted + Pending(src, last, pos);
    EmittedRewritten(src, holes);
    PendingAddsText(emitted, src, last, pos);
    PendingRewritten(emitted, src, last, pos);
    SpliceExtend(src[..last], src[last..pos], holes, names);
    assert src[..last] + src[last..pos] == src[..pos];
  }

  /** The text left pending is written out as it is. */
  lemma PendingRewritten(parts: seq<Part>, src: string, start: nat, pos: nat)
    requires start <= pos <= |src|
    ensures Rewritten(parts + Pending(src, start, pos)) == Rewritten(parts) + src[start..pos]
  {
    if pos - start > 0 {
      assert (parts + Pending(src, start, pos))[..|parts|] == parts;
    } else {
      assert parts + Pending(src, start, pos) == parts;
    }
  }

  /** The cuts at laid-out holes, read back as rewritten text, are the query
      up to the last hole with the `k`-th hole replaced by `$p<k>`. */
  lemma {:induction false} EmittedRewritten(src: string, holes: seq<Hole>)
    requires Laid(holes, 0, |src|)
    ensures LastEnd(holes, 0) <= |src| && Laid(holes, 0, LastEnd(holes, 0))
    ensures Placeholders(Emitted(src, 0, holes)) == |holes|
    ensures Rewritten(Emitted(src, 0, holes)) == Splice(src[..LastEnd(holes, 0)], holes, PNames(|holes|))
    decreases |holes|
  {
    if holes != [] {
      var n := |holes|;
      var pre, h := holes[..n - 1], holes[n - 1];
      var last := LastEnd(pre, 0);
      EmittedRewritten(src, pre);
      var e := Emitted(src, 0, pre);
      var mid := e + [Text(src[last..h.at])];
      assert mid[..|e|] == e;
      assert (mid + [PositionalArg])[..|mid|] == mid;
      assert mid + [PositionalArg] == Emitted(src, 0, holes);
      assert Placeholders(mid) == n - 1;
      assert PNames(n)[..n - 1] == PNames(n - 1);
      assert src[..h.end][..h.at] == src[..h.at] && src[..h.end][h.end..] == [];
      SpliceExtend(src[..last], src[last..h.at], pre, PNames(n - 1));
      assert src[..last] + src[last..h.at] == src[..h.at];
    }
  }

  /** The holes of the `?` in a range are the `?` in it. */
  lemma {:induction false} MarksInMeaning(src: string, a: nat, b: nat, h: Hole)
    requires a <= b <= |src|
    ensures h in MarksIn(src, a, b) <==> a <= h.at < b && h.end == h.at + 1 && src[h.at] == '?'
    decreases b - a
  {
    if a < b {
      MarksInMeaning(src, a, b - 1, h);
      var pre := MarksIn(src, a, b - 1);
      if src[b - 1] == '?' {
        assert MarksIn(src, a, b) == pre + [Hole(b - 1, b)];
        assert h in pre + [Hole(b - 1, b)] <==> h in pre || h == Hole(b - 1, b);
      } else {
        assert MarksIn(src, a, b) == pre;
      }
    }
  }

  /** The placeholders are exactly the `?` read in the raw state: a `?` in a
      quoted literal or a comment is not one. Every placeholder is one `?`. */
  lemma {:induction false} RawMarksMeaning(src: string, trace: seq<Segment>, i: nat)
    requires forall k :: 0 <= k < |trace| ==> trace[k].from <= trace[k].to <= |src|
    ensures Hole(i, i + 1) in RawMarks(src, trace) <==>
              && i < |src| && src[i] == '?'
              && exists k :: 0 <= k < |trace| && trace[k].state == PositionalRaw && trace[k].from <= i < trace[k].to
    ensures forall h :: h in RawMarks(src, trace) ==> h.end == h.at + 1
  {
    if trace != [] {
      var pre, seg := trace[..|trace| - 1], trace[|trace| - 1];
      RawMarksMeaning(src, pre, i);
      var marks := SegmentMarks(src, seg);
      if seg.state == PositionalRaw {
        MarksInMeaning(src, seg.from, seg.to, Hole(i, i + 1));
        forall h | h in marks
          ensures h.end == h.at + 1
        {
          MarksInMeaning(src, seg.from, seg.to, h);
        }
      }
      if Hole(i, i + 1) in RawMarks(src, trace) && Hole(i, i + 1) !in RawMarks(src, pre) {
        assert trace[|trace| - 1] == seg;
      }
      if exists k :: 0 <= k < |trace| && trace[k].state == PositionalRaw && trace[k].from <= i < trace[k].to {
        var k :| 0 <= k < |trace| && trace[k].state == PositionalRaw && trace[k].from <= i < trace[k].to;
        if k < |pre| {
          assert pre[k] == trace[k];
        }
      }
    }
  }
}
