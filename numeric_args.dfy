/** `NumericArgs`: rewrites a query with `$1`, `$2`, ... placeholders into
    YQL that names the arguments bound as `$p0`, `$p1`, ... */
module NumericArgs {
  import opened Wrappers
  import opened SqlLexer
  import opened BindParams
  import Decimal

  /** The comment put before a query rewritten with arguments. */
  const Prefix: string := "-- origin query with numeric args replacement\n"

  /** The result of a rewrite: the YQL text and the parameters to send. */
  datatype Rewrite = Rewrite(yql: string, newArgs: seq<Parameter>)

  /** The numbers of the placeholders among the parts, in order. */
  function Numbers(parts: seq<Part>): (ns: seq<nat>)
    ensures |ns| <= |parts|
  {
    if parts == [] then []
    else
      Numbers(parts[..|parts| - 1]) + NumberOf(parts[|parts| - 1])
  }

  /** The number of a placeholder part, none for a text part. */
  function NumberOf(p: Part): seq<nat> {
    match p
    case NumericArg(n) => [n]
    case _ => []
  }

  /** The digits a call of the numeric-placeholder state read from `from` to
      `to`, just after a `$`, spell a number: no letter ended them. */
  predicate Spelled(src: string, from: nat, to: nat) {
    0 < from < to <= |src| && Decimal.AllDigits(src[from..to])
  }

  /** The number one call of the numeric-placeholder state read, if any. */
  function SegmentNumbers(src: string, seg: Segment): seq<nat> {
    if seg.state == NumericArgument && Spelled(src, seg.from, seg.to)
    then [Decimal.Val(src[seg.from..seg.to])]
    else []
  }

  /** The numbers the numeric-placeholder state read in a run of the lexer. */
  function TraceNumbers(src: string, trace: seq<Segment>): seq<nat> {
    if trace == [] then []
    else TraceNumbers(src, trace[..|trace| - 1]) + SegmentNumbers(src, trace[|trace| - 1])
  }

  /** The query text one call of the numeric-placeholder state turned into a
      placeholder: the `$` before the digits and the digits. */
  function SegmentHoles(src: string, seg: Segment): seq<Hole> {
    if seg.state == NumericArgument && Spelled(src, seg.from, seg.to)
    then [Hole(seg.from - 1, seg.to)]
    else []
  }

  /** The placeholders of a run of the lexer, as spans of the query, in
      order. */
  function Holes(src: string, trace: seq<Segment>): seq<Hole> {
    if trace == [] then []
    else Holes(src, trace[..|trace| - 1]) + SegmentHoles(src, trace[|trace| - 1])
  }

  // ---------------------------------------------------------------------------
  // The parts a run cuts
  // ---------------------------------------------------------------------------

  /** A text part holding `src[a..b]`, possibly empty. */
  function TextPart(src: string, a: int, b: int): seq<Part> {
    if 0 <= a <= b <= |src| then [Text(src[a..b])] else []
  }

  /** What a raw or literal state that stopped at `to` going to `next` does
      to the parts and to the start of the pending text: before a numeric
      placeholder the text up to its `$` is cut (even when empty) and the
      next part starts after the `$`; when the lexer stops the pending text
      is cut; otherwise nothing changes. */
  function Stop(src: string, next: Option<StateFn>, parts: seq<Part>, start: nat, to: nat): (seq<Part>, nat) {
    if next == Some(NumericArgument) then (parts + TextPart(src, start, to - 1), to)
    else if next.None? then (parts + Pending(src, start, to), to)
    else (parts, start)
  }

  /** The part a call of the numeric-placeholder state appends: the number
      its digits spell, or, when a letter ended them, the `$`, the digits and
      the letter as text. */
  function ArgumentPart(src: string, from: nat, to: nat): seq<Part> {
    if Spelled(src, from, to) then [NumericArg(Decimal.Val(src[from..to]))] else TextPart(src, from - 1, to)
  }

  /** The parts and the start of the pending text after one call. */
  function CallCut(src: string, seg: Segment, next: Option<StateFn>, parts: seq<Part>, start: nat): (seq<Part>, nat) {
    if seg.state == NumericArgument then (parts + ArgumentPart(src, seg.from, seg.to), seg.to)
    else Stop(src, next, parts, start, seg.to)
  }

  /** The parts and the start of the pending text after a run of the lexer
      whose last call returned `next`. */
  function Cutting(src: string, trace: seq<Segment>, next: Option<StateFn>): (seq<Part>, nat)
    decreases |trace|
  {
    if trace == [] then ([], 0)
    else
      var last := trace[|trace| - 1];
      var before := Cutting(src, trace[..|trace| - 1], Some(last.state));
      CallCut(src, last, next, before.0, before.1)
  }

  /** The parts of a finished run. */
  function Lexed(src: string, trace: seq<Segment>): seq<Part> {
    Cutting(src, trace, None).0
  }

  /** The end of the query text the parts cover: up to the start of the
      pending text, but for the `$` of a number about to be read. */
  function Covered(start: nat, next: Option<StateFn>): nat {
    if next == Some(NumericArgument) && 0 < start then start - 1 else start
  }

  // ---------------------------------------------------------------------------
  // Writing the parts out
  // ---------------------------------------------------------------------------

  /** The rewritten query text: `$k` becomes the name of the `k`-th bound
      argument. */
  function Rewritten(parts: seq<Part>, names: seq<Parameter>): string {
    if parts == [] then ""
    else
      Rewritten(parts[..|parts| - 1], names) + Piece(parts[|parts| - 1], names)
  }

  /** What one part is written out as. */
  function Piece(p: Part, names: seq<Parameter>): string {
    match p
    case Text(t) => t
    case PositionalArg => ""
    case NumericArg(k) => if 1 <= k <= |names| then names[k - 1].name else ""
  }

  /** What the placeholders numbered `ns` are written out as. */
  function Fill(ns: seq<nat>, names: seq<Parameter>): (fill: seq<string>)
    ensures |fill| == |ns|
  {
    if ns == [] then [] else Fill(ns[..|ns| - 1], names) + [Piece(NumericArg(ns[|ns| - 1]), names)]
  }

  /** The error of the first placeholder number that names no argument: `$0`,
      or a number above the argument count `n`. */
  function FirstBadRef(ns: seq<nat>, n: nat): Option<BindError> {
    if ns == [] then None
    else
      match FirstBadRef(ns[..|ns| - 1], n)
      case Some(e) => Some(e)
      case None => BadRef(ns[|ns| - 1], n)
  }

  /** The error of a placeholder number among `n` arguments, if it names none. */
  function BadRef(k: nat, n: nat): Option<BindError> {
    if k == 0 then Some(ErrUnexpectedNumericArgZero)
    else if k > n then Some(ErrInconsistentArgs)
    else None
  }

  // ---------------------------------------------------------------------------
  // `numericArgsStateFn`
  // ---------------------------------------------------------------------------

  /** The raw state: reads ordinary runes until a quote or a comment opens, a
      `$` before a digit starts a placeholder, or the input ends. It appends
      nothing while it reads; what it cuts when it stops is `Stop`. */
  method NumericArgsStateFn(lexer: Lexer) returns (next: Option<StateFn>)
    requires lexer.rawStateFn == NumericRaw && lexer.ValidIn(Some(NumericRaw))
    modifies lexer
    ensures lexer.ValidIn(next)
    ensures lexer.nested == old(lexer.nested) && lexer.stateFn == old(lexer.stateFn)
    ensures RawScan(lexer.src, NumericRaw, old(lexer.pos), lexer.pos, next)
    ensures (lexer.parts, lexer.start) == Stop(lexer.src, next, old(lexer.parts), old(lexer.start), lexer.pos)
  {
    ghost var from := lexer.pos;
    while true
      invariant lexer.Cut(false) && lexer.start <= lexer.pos <= |lexer.src|
      invariant from <= lexer.pos && RawRunes(lexer.src, NumericRaw, from, lexer.pos)
      invariant lexer.parts == old(lexer.parts) && lexer.start == old(lexer.start)
      modifies lexer`pos, lexer`parts, lexer`spans, lexer`start
      decreases |lexer.src| - lexer.pos
    {
      ghost var before := lexer.pos;
      var stay;
      stay, next := NumericRune(lexer);
      if !stay {
        RawScanFrom(lexer.src, NumericRaw, from, before, lexer.pos, next);
        return next;
      }
      RawRunesStep(lexer.src, NumericRaw, from, before);
    }
  }

  /** One turn of the loop of `numericArgsStateFn`: an ordinary rune changes
      nothing but the position; a rune that ends the raw state cuts what
      `Stop` says. */
  method NumericRune(lexer: Lexer) returns (stay: bool, next: Option<StateFn>)
    requires lexer.rawStateFn == NumericRaw && lexer.Cut(false) && lexer.start <= lexer.pos <= |lexer.src|
    modifies lexer`pos, lexer`parts, lexer`spans, lexer`start
    ensures stay ==>
              && lexer.Cut(false) && lexer.start <= lexer.pos == old(lexer.pos) + 1 <= |lexer.src|
              && OrdinaryRune(lexer.src, NumericRaw, old(lexer.pos))
              && lexer.parts == old(lexer.parts) && lexer.start == old(lexer.start)
    ensures !stay ==>
              && lexer.ValidIn(next) && RawScan(lexer.src, NumericRaw, old(lexer.pos), lexer.pos, next)
              && (lexer.parts, lexer.start) == Stop(lexer.src, next, old(lexer.parts), old(lexer.start), lexer.pos)
  {
    var (r, width) := DecodeRune(lexer.src, lexer.pos);
    lexer.pos := lexer.pos + width;
    stay, next := false, None;
    if r == '`' {
      next := Some(Backtick);
    } else if r == '\'' {
      next := Some(SingleQuote);
    } else if r == '"' {
      next := Some(DoubleQuote);
    } else if r == '$' {
      stay, next := DollarRune(lexer);
    } else if r == '-' || r == '/' {
      next := CommentOpener(lexer, r);
      stay := next.None?;
    } else if r == RuneError {
      Flush(lexer);
    } else {
      stay := true;
    }
  }

  /** The `$` case of `numericArgsStateFn`: a `$` before a digit starts a
      numeric placeholder, any other is an ordinary rune. */
  method DollarRune(lexer: Lexer) returns (stay: bool, next: Option<StateFn>)
    requires lexer.rawStateFn == NumericRaw && lexer.Cut(false)
    requires lexer.start < lexer.pos <= |lexer.src| && lexer.src[lexer.pos - 1] == '$'
    modifies lexer`parts, lexer`spans, lexer`start
    ensures stay <==> !(lexer.pos < |lexer.src| && IsNumber(lexer.src[lexer.pos]))
    ensures stay ==> lexer.Cut(false) && next.None? && lexer.parts == old(lexer.parts) && lexer.start == old(lexer.start)
    ensures !stay ==>
              && next == Some(NumericArgument) && lexer.ValidIn(next)
              && lexer.parts == old(lexer.parts) + [Text(lexer.src[old(lexer.start)..lexer.pos - 1])]
              && lexer.start == lexer.pos
  {
    var (nextRune, _) := DecodeRune(lexer.src, lexer.pos);
    if IsNumber(nextRune) {
      if lexer.pos - lexer.start > 0 {
        CutBeforeDollar(lexer);
      }
      return false, Some(NumericArgument);
    }
    return true, None;
  }

  /** The text before the `$` (possibly empty) is appended and the next part
      starts after the `$`, which stays pending. */
  method CutBeforeDollar(lexer: Lexer)
    requires lexer.Cut(false) && lexer.rawStateFn == NumericRaw
    requires lexer.start < lexer.pos <= |lexer.src| && lexer.src[lexer.pos - 1] == '$'
    modifies lexer`parts, lexer`spans, lexer`start
    ensures lexer.Cut(true) && lexer.start == lexer.pos
    ensures lexer.parts == old(lexer.parts) + [Text(lexer.src[old(lexer.start)..lexer.pos - 1])]
  {
    var piece := lexer.src[lexer.start..lexer.pos - 1];
    FlatAppend(lexer.spans, piece);
    assert lexer.src[..lexer.start] + piece == lexer.src[..lexer.pos - 1];
    lexer.parts := lexer.parts + [Text(piece)];
    lexer.spans := lexer.spans + [piece];
    lexer.start := lexer.pos;
  }

  // ---------------------------------------------------------------------------
  // `numericArgState`
  // ---------------------------------------------------------------------------

  /** `numericArgState`: reads the digits after a `$`. The deferred function
      then appends the placeholder with the number they spell, or, when a
      letter ended them, the `$`, the digits and the letter as text. */
  method NumericArgState(lexer: Lexer) returns (next: Option<StateFn>)
    requires lexer.rawStateFn == NumericRaw && lexer.ValidIn(Some(NumericArgument))
    modifies lexer
    ensures next == Some(NumericRaw) && lexer.ValidIn(next)
    ensures lexer.nested == old(lexer.nested) && lexer.stateFn == old(lexer.stateFn)
    ensures DigitRun(lexer.src, old(lexer.pos), lexer.pos)
    ensures lexer.parts == old(lexer.parts) + ArgumentPart(lexer.src, old(lexer.pos), lexer.pos)
    ensures lexer.start == lexer.pos
  {
    ghost var from := lexer.pos;
    var numbers := ReadDigits(lexer);
    EndNumber(lexer, numbers);
    NumberRead(lexer.src, from, lexer.pos);
    return Some(lexer.rawStateFn);
  }

  /** The loop of `numericArgState`, up to its `return`: the digits read, or
      none when a letter ended them. */
  method ReadDigits(lexer: Lexer) returns (numbers: string)
    requires lexer.pos < |lexer.src| && IsNumber(lexer.src[lexer.pos])
    modifies lexer`pos
    ensures DigitRun(lexer.src, old(lexer.pos), lexer.pos)
    ensures IsNumber(lexer.src[lexer.pos - 1]) ==>
              numbers == lexer.src[old(lexer.pos)..lexer.pos] && Decimal.AllDigits(numbers)
    ensures !IsNumber(lexer.src[lexer.pos - 1]) ==> numbers == []
  {
    numbers := "";
    ghost var from := lexer.pos;
    while true
      invariant from < |lexer.src| && IsNumber(lexer.src[from])
      invariant from <= lexer.pos <= |lexer.src|
      invariant numbers == lexer.src[from..lexer.pos] && Decimal.AllDigits(numbers)
      decreases |lexer.src| - lexer.pos
    {
      var (rn, width) := DecodeRune(lexer.src, lexer.pos);
      lexer.pos := lexer.pos + width;
      if IsNumber(rn) {
        numbers := numbers + [rn];
      } else if IsLetter(rn) {
        numbers := "";
        return;
      } else {
        lexer.pos := lexer.pos - width;
        return;
      }
    }
  }

  /** The deferred function of `numericArgState`. */
  method EndNumber(lexer: Lexer, numbers: string)
    requires lexer.rawStateFn == NumericRaw && lexer.Cut(true)
    requires lexer.start < lexer.pos <= |lexer.src|
    requires numbers != [] ==> numbers == lexer.src[lexer.start..lexer.pos] && Decimal.AllDigits(numbers)
    requires numbers == [] ==> forall k :: lexer.start <= k < lexer.pos - 1 ==> IsNumber(lexer.src[k])
    modifies lexer`parts, lexer`spans, lexer`start
    ensures lexer.Cut(false) && lexer.start == lexer.pos
    ensures numbers != [] ==> lexer.parts == old(lexer.parts) + [NumericArg(Decimal.Val(numbers))]
    ensures numbers == [] ==> lexer.parts == old(lexer.parts) + [Text(lexer.src[old(lexer.start) - 1..lexer.pos])]
  {
    var piece := lexer.src[lexer.start - 1..lexer.pos];
    FlatAppend(lexer.spans, piece);
    assert lexer.src[..lexer.start - 1] + piece == lexer.src[..lexer.pos];
    if |numbers| > 0 {
      var i := Decimal.Val(numbers);
      assert piece[1..] == numbers;
      lexer.parts := lexer.parts + [NumericArg(i)];
      lexer.spans := lexer.spans + [piece];
      lexer.start := lexer.pos;
    } else {
      lexer.parts := lexer.parts + [Text(piece)];
      lexer.spans := lexer.spans + [piece];
      lexer.start := lexer.pos;
    }
  }

  /** The digits were spelled out exactly when the last rune read is a
      digit. */
  lemma NumberRead(src: string, from: nat, to: nat)
    requires 0 < from && DigitRun(src, from, to)
    ensures Spelled(src, from, to) <==> IsNumber(src[to - 1])
  {
    assert src[from..to][to - 1 - from] == src[to - 1];
  }

  // ---------------------------------------------------------------------------
  // The run of the lexer
  // ---------------------------------------------------------------------------

  /** The first loop of `RewriteQuery`: runs the state machine from the raw
      state until a state returns nil. The parts are those the run cuts. */
  method Lex(sql: string) returns (lexer: Lexer, ghost trace: seq<Segment>)
    ensures lexer.src == sql && lexer.rawStateFn == NumericRaw && lexer.ValidIn(None)
    ensures Traced(sql, NumericRaw, trace, lexer.pos, None)
    ensures (lexer.parts, lexer.start) == Cutting(sql, trace, None)
  {
    lexer := new Lexer(sql, NumericRaw);
    trace := [];
    while lexer.stateFn.Some?
      invariant lexer.src == sql && lexer.rawStateFn == NumericRaw && lexer.Valid()
      invariant lexer.stateFn.Some? ==> Resumable(lexer.stateFn.value, lexer.nested)
      invariant Traced(sql, NumericRaw, trace, lexer.pos, lexer.stateFn)
      invariant (lexer.parts, lexer.start) == Cutting(sql, trace, lexer.stateFn)
      modifies lexer
      decreases |sql| - lexer.pos, if lexer.stateFn.Some? then 1 else 0
    {
      trace := Advance(lexer, trace);
    }
  }

  /** One turn of the loop of `Lex`: the current state runs and its successor
      is installed; the run's record grows by the segment it consumed. */
  method Advance(lexer: Lexer, ghost trace: seq<Segment>) returns (ghost trace': seq<Segment>)
    requires lexer.rawStateFn == NumericRaw && lexer.Valid()
    requires lexer.stateFn.Some? && Resumable(lexer.stateFn.value, lexer.nested)
    requires Traced(lexer.src, NumericRaw, trace, lexer.pos, lexer.stateFn)
    requires (lexer.parts, lexer.start) == Cutting(lexer.src, trace, lexer.stateFn)
    modifies lexer
    ensures lexer.Valid() && old(lexer.pos) <= lexer.pos
    ensures lexer.stateFn.Some? ==> Resumable(lexer.stateFn.value, lexer.nested) && old(lexer.pos) < lexer.pos
    ensures Traced(lexer.src, NumericRaw, trace', lexer.pos, lexer.stateFn)
    ensures (lexer.parts, lexer.start) == Cutting(lexer.src, trace', lexer.stateFn)
  {
    var state := lexer.stateFn.value;
    var from := lexer.pos;
    var next := RunState(lexer);
    TracedStep(lexer.src, NumericRaw, trace, from, state, lexer.pos, next);
    trace' := trace + [Segment(state, from, lexer.pos)];
    CuttingStep(lexer.src, trace, Segment(state, from, lexer.pos), trace', next);
    lexer.stateFn := next;
  }

  /** A run one call longer cuts what the shorter run cut and what that call
      cuts. */
  lemma CuttingStep(src: string, trace: seq<Segment>, seg: Segment, trace': seq<Segment>, next: Option<StateFn>)
    requires trace' == trace + [seg]
    ensures Cutting(src, trace', next)
            == CallCut(src, seg, next, Cutting(src, trace, Some(seg.state)).0, Cutting(src, trace, Some(seg.state)).1)
    ensures Holes(src, trace') == Holes(src, trace) + SegmentHoles(src, seg)
    ensures TraceNumbers(src, trace') == TraceNumbers(src, trace) + SegmentNumbers(src, seg)
  {
    assert trace'[..|trace|] == trace;
  }

  /** The states the numeric lexer runs, each entered with no open comment. */
  predicate Resumable(state: StateFn, nested: nat) {
    nested == 0 && state != PositionalRaw
  }

  /** `lexer.stateFn(lexer)` for the states of the numeric lexer. */
  method RunState(lexer: Lexer) returns (next: Option<StateFn>)
    requires lexer.rawStateFn == NumericRaw && lexer.Valid()
    requires lexer.stateFn.Some? && Resumable(lexer.stateFn.value, lexer.nested)
    modifies lexer
    ensures lexer.ValidIn(next) && lexer.stateFn == old(lexer.stateFn)
    ensures next.Some? ==> Resumable(next.value, lexer.nested) && old(lexer.pos) < lexer.pos
    ensures Step(lexer.src, NumericRaw, Segment(lexer.stateFn.value, old(lexer.pos), lexer.pos), next)
    ensures (lexer.parts, lexer.start)
            == CallCut(lexer.src, Segment(lexer.stateFn.value, old(lexer.pos), lexer.pos), next, old(lexer.parts), old(lexer.start))
  {
    var state := lexer.stateFn.value;
    if state == NumericRaw {
      next := NumericArgsStateFn(lexer);
    } else if state == NumericArgument {
      next := NumericArgState(lexer);
    } else {
      next := LiteralState(lexer);
    }
  }

  /** A quoted literal or a comment, in the numeric lexer: nothing is cut
      unless the lexer stops. */
  method LiteralState(lexer: Lexer) returns (next: Option<StateFn>)
    requires lexer.rawStateFn == NumericRaw && lexer.Valid() && lexer.stateFn.Some?
    requires lexer.stateFn.value !in {PositionalRaw, NumericRaw, NumericArgument} && lexer.nested == 0
    modifies lexer
    ensures lexer.ValidIn(next) && lexer.stateFn == old(lexer.stateFn)
    ensures next.Some? ==> next == Some(NumericRaw) && lexer.nested == 0 && old(lexer.pos) < lexer.pos
    ensures Step(lexer.src, NumericRaw, Segment(lexer.stateFn.value, old(lexer.pos), lexer.pos), next)
    ensures (lexer.parts, lexer.start) == Stop(lexer.src, next, old(lexer.parts), old(lexer.start), lexer.pos)
  {
    var state := lexer.stateFn.value;
    if state == OneLineComment {
      next := OneLineCommentState(lexer);
    } else if state == MultilineComment {
      next := MultilineCommentState(lexer);
    } else {
      next := QuoteState(lexer, QuoteOf(state));
    }
  }

  // ---------------------------------------------------------------------------
  // What the parts say about the query
  // ---------------------------------------------------------------------------

  /** The parts, written out with `names`, are the query text up to `cover`
      with the holes filled by the placeholders numbered `ns`. */
  ghost predicate Accounts(src: string, parts: seq<Part>, holes: seq<Hole>, ns: seq<nat>, cover: nat, names: seq<Parameter>) {
    && cover <= |src| && |holes| == |ns| && Numbers(parts) == ns && Laid(holes, 0, cover)
    && Rewritten(parts, names) == Splice(src[..cover], holes, Fill(ns, names))
  }

  /** A run of the numeric lexer cuts the query text it read into parts so
      that, written out, they give back that text with every placeholder the
      numeric-placeholder state spelled (the `$` and its digits) replaced,
      and nothing else changed. The text still pending starts no later than
      the position; once the lexer stops nothing is pending, and while a
      number is read the `$` before it is. */
  lemma {:induction false} CuttingMeaning(src: string, trace: seq<Segment>, pos: nat, next: Option<StateFn>, names: seq<Parameter>)
    requires Traced(src, NumericRaw, trace, pos, next)
    ensures Cutting(src, trace, next).1 <= pos
    ensures next.None? || next == Some(NumericArgument) ==> Cutting(src, trace, next).1 == pos
    ensures next == Some(NumericArgument) ==> 0 < pos
    ensures Accounts(src, Cutting(src, trace, next).0, Holes(src, trace), TraceNumbers(src, trace),
                     Covered(Cutting(src, trace, next).1, next), names)
    decreases |trace|
  {
    if trace == [] {
      assert src[..0] == [];
    } else {
      var last := trace[|trace| - 1];
      var pre := trace[..|trace| - 1];
      CuttingMeaning(src, pre, last.from, Some(last.state), names);
      var (parts, st) := Cutting(src, pre, Some(last.state));
      StepBounds(src, last, next);
      CallCutMeaning(src, last, next, parts, st, Holes(src, pre), TraceNumbers(src, pre), names);
    }
  }

  /** What `CallCutMeaning` needs to know of one call of a state. */
  lemma StepBounds(src: string, seg: Segment, next: Option<StateFn>)
    requires Step(src, NumericRaw, seg, next)
    ensures seg.from <= seg.to <= |src|
    ensures seg.state == NumericArgument ==> seg.from < seg.to && next == Some(NumericRaw)
    ensures next == Some(NumericArgument) ==> seg.state == NumericRaw && seg.from < seg.to
  {
  }

  /** One call of a state keeps `Accounts`. */
  lemma CallCutMeaning(src: string, seg: Segment, next: Option<StateFn>, parts: seq<Part>, st: nat,
                       holes: seq<Hole>, ns: seq<nat>, names: seq<Parameter>)
    requires st <= seg.from <= seg.to <= |src|
    requires seg.state == NumericArgument ==> 0 < st == seg.from < seg.to && next == Some(NumericRaw)
    requires next == Some(NumericArgument) ==> seg.state == NumericRaw && seg.from < seg.to
    requires Accounts(src, parts, holes, ns, Covered(st, Some(seg.state)), names)
    ensures CallCut(src, seg, next, parts, st).1 <= seg.to
    ensures next.None? || next == Some(NumericArgument) ==> CallCut(src, seg, next, parts, st).1 == seg.to
    ensures next == Some(NumericArgument) ==> 0 < seg.to
    ensures Accounts(src, CallCut(src, seg, next, parts, st).0, holes + SegmentHoles(src, seg),
                     ns + SegmentNumbers(src, seg), Covered(CallCut(src, seg, next, parts, st).1, next), names)
  {
    if seg.state == NumericArgument {
      ArgumentMeaning(src, seg.from, seg.to, parts, holes, ns, names);
    } else {
      assert SegmentHoles(src, seg) == [] && SegmentNumbers(src, seg) == [];
      assert holes + [] == holes && ns + [] == ns;
      StopMeaning(src, next, parts, st, seg.to, holes, ns, names);
    }
  }

  /** A call of the numeric-placeholder state keeps `Accounts`. */
  lemma ArgumentMeaning(src: string, from: nat, to: nat, parts: seq<Part>, holes: seq<Hole>, ns: seq<nat>,
                        names: seq<Parameter>)
    requires 0 < from < to <= |src| && Accounts(src, parts, holes, ns, from - 1, names)
    ensures Accounts(src, parts + ArgumentPart(src, from, to), holes + SegmentHoles(src, Segment(NumericArgument, from, to)),
                     ns + SegmentNumbers(src, Segment(NumericArgument, from, to)), to, names)
  {
    var seg := Segment(NumericArgument, from, to);
    if Spelled(src, from, to) {
      AppendNumber(src, parts, holes, ns, from, to, names);
    } else {
      assert ArgumentPart(src, from, to) == TextPart(src, from - 1, to);
      assert SegmentHoles(src, seg) == [] && SegmentNumbers(src, seg) == [];
      assert holes + [] == holes && ns + [] == ns;
      AppendText(src, parts, holes, ns, from - 1, to, TextPart(src, from - 1, to), names);
    }
  }

  /** A raw or literal state that stopped at `to` keeps `Accounts`. */
  lemma StopMeaning(src: string, next: Option<StateFn>, parts: seq<Part>, st: nat, to: nat,
                    holes: seq<Hole>, ns: seq<nat>, names: seq<Parameter>)
    requires st <= to <= |src| && Accounts(src, parts, holes, ns, st, names)
    requires next == Some(NumericArgument) ==> st < to
    ensures Stop(src, next, parts, st, to).1 <= to
    ensures next.None? || next == Some(NumericArgument) ==> Stop(src, next, parts, st, to).1 == to
    ensures Accounts(src, Stop(src, next, parts, st, to).0, holes, ns, Covered(Stop(src, next, parts, st, to).1, next), names)
  {
    if next == Some(NumericArgument) {
      AppendText(src, parts, holes, ns, st, to - 1, TextPart(src, st, to - 1), names);
    } else if next.None? {
      AppendText(src, parts, holes, ns, st, to, Pending(src, st, to), names);
    }
  }


  /** Text cut after what the parts account for extends what they account
      for. */
  lemma AppendText(src: string, parts: seq<Part>, holes: seq<Hole>, ns: seq<nat>, cover: nat, to: nat,
                   more: seq<Part>, names: seq<Parameter>)
    requires Accounts(src, parts, holes, ns, cover, names) && cover <= to <= |src|
    requires more == TextPart(src, cover, to) || more == Pending(src, cover, to)
    ensures Accounts(src, parts + more, holes, ns, to, names)
  {
    SpliceExtend(src[..cover], src[cover..to], holes, Fill(ns, names));
    assert src[..cover] + src[cover..to] == src[..to];
    if more == [] {
      assert parts + more == parts;
      assert cover == to;
    } else {
      assert more == [Text(src[cover..to])];
      TextAppended(parts, src[cover..to], names);
    }
  }

  /** A text part adds no number and is written out as it is. */
  lemma TextAppended(parts: seq<Part>, t: string, names: seq<Parameter>)
    ensures Numbers(parts + [Text(t)]) == Numbers(parts)
    ensures Rewritten(parts + [Text(t)], names) == Rewritten(parts, names) + t
  {
    assert (parts + [Text(t)])[..|parts|] == parts;
    assert Numbers(parts) + [] == Numbers(parts);
  }

  /** A placeholder read after what the parts account for fills the next
      hole. */
  lemma AppendNumber(src: string, parts: seq<Part>, holes: seq<Hole>, ns: seq<nat>, from: nat, to: nat,
                     names: seq<Parameter>)
    requires Spelled(src, from, to) && Accounts(src, parts, holes, ns, from - 1, names)
    ensures Accounts(src, parts + ArgumentPart(src, from, to), holes + SegmentHoles(src, Segment(NumericArgument, from, to)),
                     ns + SegmentNumbers(src, Segment(NumericArgument, from, to)), to, names)
  {
    var v := Decimal.Val(src[from..to]);
    assert ArgumentPart(src, from, to) == [NumericArg(v)];
    assert SegmentHoles(src, Segment(NumericArgument, from, to)) == [Hole(from - 1, to)];
    assert SegmentNumbers(src, Segment(NumericArgument, from, to)) == [v];
    var parts', holes', ns' := parts + [NumericArg(v)], holes + [Hole(from - 1, to)], ns + [v];
    assert parts'[..|parts|] == parts && holes'[..|holes|] == holes && ns'[..|ns|] == ns;
    assert src[..to][..from - 1] == src[..from - 1] && src[..to][to..] == [];
    assert Fill(ns', names) == Fill(ns, names) + [Piece(NumericArg(v), names)];
  }

  /** Before a numeric placeholder is read, a `$` was. */
  lemma DollarBefore(src: string, trace: seq<Segment>, pos: nat)
    requires Traced(src, NumericRaw, trace, pos, Some(NumericArgument))
    ensures 0 < pos <= |src| && src[pos - 1] == '$'
  {
    var last := trace[|trace| - 1];
    assert Step(src, NumericRaw, last, Some(NumericArgument));
  }

  /** `h` is the span of the query the call `seg` of the numeric-placeholder
      state spelled a number from: the `$` before it and its digits. */
  predicate HoleOf(src: string, seg: Segment, h: Hole) {
    seg.state == NumericArgument && Spelled(src, seg.from, seg.to) && h == Hole(seg.from - 1, seg.to)
  }

  /** The holes are exactly the spans the numeric-placeholder state read a
      number from. */
  lemma {:induction false} HolesMeaning(src: string, trace: seq<Segment>, h: Hole)
    ensures h in Holes(src, trace) <==> exists seg :: seg in trace && HoleOf(src, seg, h)
    decreases |trace|
  {
    if trace != [] {
      var last := trace[|trace| - 1];
      var pre := trace[..|trace| - 1];
      HolesMeaning(src, pre, h);
      assert trace == pre + [last];
      if h in Holes(src, trace) {
        if h in Holes(src, pre) {
          var seg :| seg in pre && HoleOf(src, seg, h);
          assert seg in trace;
        } else {
          assert HoleOf(src, last, h);
        }
      }
      if exists seg :: seg in trace && HoleOf(src, seg, h) {
        var seg :| seg in trace && HoleOf(src, seg, h);
        if seg != last {
          assert seg in pre;
        }
      }
    }
  }

  /** Each hole is a `$` and the digits after it, with neither a digit nor a
      letter following. */
  lemma {:induction false} HolesSpelled(src: string, trace: seq<Segment>, pos: nat, next: Option<StateFn>, h: Hole)
    requires Traced(src, NumericRaw, trace, pos, next) && h in Holes(src, trace)
    ensures Spelled(src, h.at + 1, h.end) && src[h.at] == '$'
    ensures h.end < |src| ==> !IsNumber(src[h.end]) && !IsLetter(src[h.end])
    decreases |trace|
  {
    var last := trace[|trace| - 1];
    var pre := trace[..|trace| - 1];
    if h in Holes(src, pre) {
      HolesSpelled(src, pre, last.from, Some(last.state), h);
    } else {
      assert h in SegmentHoles(src, last);
      DollarBefore(src, pre, last.from);
      assert src[last.from..last.to][last.to - 1 - last.from] == src[last.to - 1];
    }
  }


  // ---------------------------------------------------------------------------
  // `parsePositionalParameters` and `RewriteQuery`
  // ---------------------------------------------------------------------------

  /** `parsePositionalParameters`: binds the arguments as `$p0, $p1, ...` and
      stops at the first that does not bind. */
  method ParsePositionalParameters(args: seq<Arg>, toValue: Converter) returns (r: Result<seq<Parameter>, BindError>)
    ensures r == Converted(args, toValue)
  {
    var newArgs: seq<Parameter> := [];
    for i := 0 to |args|
      invariant Converted(args[..i], toValue) == Ok(newArgs)
    {
      var paramName := "$p" + Itoa(i);
      var param := ToYdbParam(paramName, args[i], toValue);
      if param.Err? {
        assert args[..i + 1][..i] == args[..i];
        ConvertedPrefix(args, i + 1, toValue);
        return Err(param.error);
      }
      ConvertedStep(args, i, toValue);
      newArgs := newArgs + [param.value];
    }
    assert args[..|args|] == args;
    return Ok(newArgs);
  }

  /** `RewriteQuery`: `parts` are the parts the lexer cut, `spans` the query
      text each was cut from (together the query up to its first stopping
      `RuneError`, all of it when it has none), and `trace` the run of the
      lexer, whose numeric-placeholder calls read exactly the numbers of the
      placeholders. Binding the arguments comes first; then every `$k` must
      name an argument (`$0` and numbers above the argument count are errors,
      the first one met wins), and it is replaced by the name the `k`-th
      argument was bound under: the YQL is the query text with each of its
      holes (a `$` and the digits the numeric-placeholder state spelled out)
      replaced and every other rune kept, so a `$1` inside a literal or a
      comment stays as it is. Arguments no placeholder names are still
      sent. */
  method RewriteQuery(sql: string, args: seq<Arg>, toValue: Converter)
    returns (r: Result<Rewrite, BindError>, ghost parts: seq<Part>, ghost spans: seq<string>, ghost trace: seq<Segment>)
    ensures |spans| == |parts|
    ensures forall i :: 0 <= i < |parts| ==> SpanOf(parts[i], spans[i]) && EmittedBy(parts[i], NumericRaw)
    ensures Flat(spans) <= sql
    ensures (forall i :: 0 <= i < |sql| ==> sql[i] != RuneError) ==> Flat(spans) == sql
    ensures Traced(sql, NumericRaw, trace, |Flat(spans)|, None)
    ensures parts == Lexed(sql, trace)
    ensures Numbers(parts) == TraceNumbers(sql, trace)
    ensures Laid(Holes(sql, trace), 0, |Flat(spans)|) && |Holes(sql, trace)| == |TraceNumbers(sql, trace)|
    ensures r.Ok? <==>
              Converted(args, toValue).Ok? && forall i :: 0 <= i < |Numbers(parts)| ==> 1 <= Numbers(parts)[i] <= |args|
    ensures r.Ok? ==>
              r.value
              == Rewrite((if |args| > 0 then Prefix else "") + Rewritten(parts, Converted(args, toValue).value),
                         Converted(args, toValue).value)
    ensures r.Ok? ==>
              r.value.yql
              == (if |args| > 0 then Prefix else "")
                 + Splice(Flat(spans), Holes(sql, trace), Fill(TraceNumbers(sql, trace), r.value.newArgs))
    ensures r.Err? && Converted(args, toValue).Err? ==> r.error == Converted(args, toValue).error
    ensures r.Err? && Converted(args, toValue).Ok? ==> Some(r.error) == FirstBadRef(Numbers(parts), |args|)
  {
    var lexer;
    lexer, trace := Lex(sql);
    parts, spans := lexer.parts, lexer.spans;
    StoppedAt(sql, NumericRaw, trace, lexer.pos);
    r := Substitute(lexer.parts, args, toValue);
    if r.Ok? {
      CuttingMeaning(sql, trace, lexer.pos, None, r.value.newArgs);
    } else {
      CuttingMeaning(sql, trace, lexer.pos, None, []);
    }
    ExpectedMeaning(parts, args, toValue);
  }

  /** What the second half of `RewriteQuery` returns. */
  function Expected(parts: seq<Part>, args: seq<Arg>, toValue: Converter): Result<Rewrite, BindError> {
    match Converted(args, toValue)
    case Err(e) => Err(e)
    case Ok(bound) =>
      match FirstBadRef(Numbers(parts), |args|)
      case Some(e) => Err(e)
      case None => Ok(Rewrite((if |args| > 0 then Prefix else "") + Rewritten(parts, bound), bound))
  }

  /** The rewrite succeeds exactly when every argument binds and every
      placeholder names one of them. */
  lemma ExpectedMeaning(parts: seq<Part>, args: seq<Arg>, toValue: Converter)
    ensures Expected(parts, args, toValue).Ok? <==>
              Converted(args, toValue).Ok? && forall i :: 0 <= i < |Numbers(parts)| ==> 1 <= Numbers(parts)[i] <= |args|
  {
    FirstBadRefNone(Numbers(parts), |args|);
  }

  /** No error exactly when every number is between 1 and `n`; otherwise the
      error belongs to the first number that is not. */
  lemma {:induction false} FirstBadRefNone(ns: seq<nat>, n: nat)
    ensures FirstBadRef(ns, n).None? <==> forall i :: 0 <= i < |ns| ==> 1 <= ns[i] <= n
    ensures FirstBadRef(ns, n).Some? ==>
              exists i :: 0 <= i < |ns| && !(1 <= ns[i] <= n)
                && (forall j :: 0 <= j < i ==> 1 <= ns[j] <= n)
                && FirstBadRef(ns, n).value == if ns[i] == 0 then ErrUnexpectedNumericArgZero else ErrInconsistentArgs
  {
    if ns != [] {
      var pre := ns[..|ns| - 1];
      FirstBadRefNone(pre, n);
      assert forall i :: 0 <= i < |pre| ==> pre[i] == ns[i];
    }
  }

  /** The second half of `RewriteQuery`: the arguments bound, then the parts
      written out with every `$k` replaced. */
  method Substitute(parts: seq<Part>, args: seq<Arg>, toValue: Converter) returns (r: Result<Rewrite, BindError>)
    ensures r == Expected(parts, args, toValue)
  {
    var newArgs: seq<Parameter> := [];
    if |args| > 0 {
      var parameters := ParsePositionalParameters(args, toValue);
      if parameters.Err? {
        return Err(parameters.error);
      }
      newArgs := parameters.value;
    }
    assert Converted(args, toValue) == Ok(newArgs);
    var written := WriteParts(parts, newArgs, |args|);
    if written.Err? {
      return Err(written.error);
    }
    var yql := written.value;
    if |newArgs| > 0 {
      yql := Prefix + yql;
    } else {
      assert [] + yql == yql;
    }
    return Ok(Rewrite(yql, newArgs));
  }

  /** The loop of `RewriteQuery` over the parts: the text parts are copied and
      every `$k` is written as the name of the `k`-th of the `n` arguments;
      the first number that names none of them is an error. */
  method WriteParts(parts: seq<Part>, names: seq<Parameter>, n: nat) returns (r: Result<string, BindError>)
    requires |names| == n
    ensures r.Err? <==> FirstBadRef(Numbers(parts), n).Some?
    ensures r.Err? ==> r.error == FirstBadRef(Numbers(parts), n).value
    ensures r.Ok? ==> r.value == Rewritten(parts, names)
  {
    var buffer := "";
    for i := 0 to |parts|
      invariant buffer == Rewritten(parts[..i], names)
      invariant FirstBadRef(Numbers(parts[..i]), n).None?
    {
      PartStep(parts, i, names);
      NumbersStep(parts, i);
      match parts[i] {
        case Text(t) =>
          buffer := buffer + t;
        case PositionalArg =>
        case NumericArg(k) =>
          if k == 0 {
            BadRefFirst(parts, i, n);
            return Err(ErrUnexpectedNumericArgZero);
          }
          if k > n {
            BadRefFirst(parts, i, n);
            return Err(ErrInconsistentArgs);
          }
          FirstBadRefStep(Numbers(parts[..i]), k, n);
          buffer := buffer + names[k - 1].name;
      }
    }
    assert parts[..|parts|] == parts;
    return Ok(buffer);
  }

  /** One more part, written out. */
  lemma PartStep(parts: seq<Part>, i: nat, names: seq<Parameter>)
    requires i < |parts|
    ensures Rewritten(parts[..i + 1], names) == Rewritten(parts[..i], names) + Piece(parts[i], names)
  {
    assert parts[..i + 1][..i] == parts[..i];
  }

  /** One more part, counted. */
  lemma NumbersStep(parts: seq<Part>, i: nat)
    requires i < |parts|
    ensures !parts[i].NumericArg? ==> Numbers(parts[..i + 1]) == Numbers(parts[..i])
    ensures parts[i].NumericArg? ==> Numbers(parts[..i + 1]) == Numbers(parts[..i]) + [parts[i].n]
  {
    assert parts[..i + 1][..i] == parts[..i];
    assert Numbers(parts[..i]) + [] == Numbers(parts[..i]);
  }

  lemma FirstBadRefStep(ns: seq<nat>, k: nat, n: nat)
    ensures FirstBadRef(ns + [k], n) == if FirstBadRef(ns, n).Some? then FirstBadRef(ns, n) else BadRef(k, n)
  {
    assert (ns + [k])[..|ns|] == ns;
  }

  /** A bad number met first is the error of the whole query. */
  lemma BadRefFirst(parts: seq<Part>, i: nat, n: nat)
    requires i < |parts| && parts[i].NumericArg? && !(1 <= parts[i].n <= n)
    requires FirstBadRef(Numbers(parts[..i]), n).None?
    ensures FirstBadRef(Numbers(parts), n)
            == Some(if parts[i].n == 0 then ErrUnexpectedNumericArgZero else ErrInconsistentArgs)
  {
    var k := parts[i].n;
    var err := if k == 0 then ErrUnexpectedNumericArgZero else ErrInconsistentArgs;
    var pre := Numbers(parts[..i + 1]);
    assert pre == Numbers(parts[..i]) + [k] by {
      NumbersStep(parts, i);
    }
    assert FirstBadRef(pre, n) == Some(err) by {
      FirstBadRefStep(Numbers(parts[..i]), k, n);
    }
    var all := Numbers(parts);
    assert |pre| <= |all| && pre == all[..|pre|] by {
      NumbersPrefix(parts, i + 1);
    }
    FirstBadRefPrefix(all, |pre|, n);
  }

  /** The numbers of a prefix of the parts are a prefix of the numbers. */
  lemma {:induction false} NumbersPrefix(parts: seq<Part>, i: nat)
    requires i <= |parts|
    ensures |Numbers(parts[..i])| <= |Numbers(parts)|
    ensures Numbers(parts[..i]) == Numbers(parts)[..|Numbers(parts[..i])|]
  {
    if i < |parts| {
      var pre := parts[..|parts| - 1];
      NumbersPrefix(pre, i);
      assert pre[..i] == parts[..i];
      assert Numbers(parts)[..|Numbers(pre)|] == Numbers(pre);
    } else {
      assert parts[..i] == parts;
    }
  }

  /** An error on a prefix of the numbers is the error on all of them. */
  lemma {:induction false} FirstBadRefPrefix(ns: seq<nat>, j: nat, n: nat)
    requires j <= |ns| && FirstBadRef(ns[..j], n).Some?
    ensures FirstBadRef(ns, n) == FirstBadRef(ns[..j], n)
  {
    if j < |ns| {
      var pre := ns[..|ns| - 1];
      assert pre[..j] == ns[..j];
      FirstBadRefPrefix(pre, j, n);
    } else {
      assert ns[..j] == ns;
    }
  }

  // ---------------------------------------------------------------------------
  // Properties
  // ---------------------------------------------------------------------------

  /** Without placeholders the query text comes back unchanged. */
  lemma {:induction false} RewrittenWithoutNumbers(parts: seq<Part>, spans: seq<string>, names: seq<Parameter>)
    requires |spans| == |parts|
    requires forall i :: 0 <= i < |parts| ==> SpanOf(parts[i], spans[i]) && EmittedBy(parts[i], NumericRaw)
    requires Numbers(parts) == []
    ensures Rewritten(parts, names) == Flat(spans)
  {
    if parts != [] {
      var pre := parts[..|parts| - 1];
      assert |Numbers(parts)| >= |Numbers(pre)|;
      assert Numbers(pre) == [];
      RewrittenWithoutNumbers(pre, spans[..|spans| - 1], names);
    }
  }

  /** Placeholders may name the arguments in any order and may leave some of
      them out; `$k` is written as the name of the `k`-th. */
  lemma ReferenceExample(a: Parameter, b: Parameter, c: Parameter)
    ensures Rewritten([Text("SELECT "), NumericArg(2), Text(", "), NumericArg(1)], [a, b, c])
            == "SELECT " + b.name + ", " + a.name
    ensures FirstBadRef([2, 1], 3).None?
    ensures FirstBadRef([1, 4, 0], 3) == Some(ErrInconsistentArgs)
    ensures FirstBadRef([1, 0, 4], 3) == Some(ErrUnexpectedNumericArgZero)
  {
    var p1 := [Text("SELECT ")];
    var p2 := p1 + [NumericArg(2)];
    var p3 := p2 + [Text(", ")];
    var p4 := p3 + [NumericArg(1)];
    assert p4[..3] == p3 && p3[..2] == p2 && p2[..1] == p1 && p1[..0] == [];
    var names := [a, b, c];
    assert Rewritten(p1, names) == "SELECT ";
    assert Piece(NumericArg(2), names) == b.name && Piece(NumericArg(1), names) == a.name;
    assert Rewritten(p2, names) == "SELECT " + b.name;
    assert Rewritten(p3, names) == "SELECT " + b.name + ", ";
    assert p4 == [Text("SELECT "), NumericArg(2), Text(", "), NumericArg(1)];
    assert [2, 1][..1] == [2];
    assert [1, 4, 0][..2] == [1, 4] && [1, 4][..1] == [1];
    assert [1, 0, 4][..2] == [1, 0] && [1, 0][..1] == [1];
  }
}
