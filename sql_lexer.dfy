/** The SQL lexer the placeholder rewriters share: a state machine over the
    query that keeps quoted literals and comments intact and cuts the query
    into parts. The query is a sequence of decoded runes and positions count
    runes; `RuneError` stands for an invalid UTF-8 byte as well as for a
    literal U+FFFD, both of which the decoder reports as `utf8.RuneError`. */
module SqlLexer {
  import opened Wrappers
  import Decimal

  /** `utf8.RuneError`. */
  const RuneError: char := '\U{FFFD}'

  /** `isLetter`: ASCII letters only. */
  predicate IsLetter(r: char) {
    ('a' <= r <= 'z') || ('A' <= r <= 'Z')
  }

  /** `isNumber`: ASCII digits only. */
  predicate IsNumber(r: char) {
    '0' <= r <= '9'
  }

  /** An element of `sqlLexer.parts`: a slice of the query, a `positionalArg`
      or a `numericArg`. */
  datatype Part = Text(text: string) | PositionalArg | NumericArg(n: nat)

  /** The state functions. `PositionalRaw` and `NumericRaw` are the raw states
      of the two rewriters (`positionalArgsStateFn`, `numericArgsStateFn`) and
      `NumericArgument` is `numericArgState`. */
  datatype StateFn =
    | PositionalRaw | NumericRaw | NumericArgument
    | Backtick | SingleQuote | DoubleQuote
    | OneLineComment | MultilineComment

  /** `utf8.DecodeRuneInString(src[pos:])`: the rune at `pos` and its width, or
      `RuneError` of width 0 at the end of the input. */
  function DecodeRune(src: string, pos: nat): (r: (char, nat))
    requires pos <= |src|
    ensures pos + r.1 <= |src| && (r.1 == 0 <==> pos == |src|)
  {
    if pos < |src| then (src[pos], 1) else (RuneError, 0)
  }

  /** The query text a part stands for: a text part its own text, `?` for a
      positional placeholder and `$` with the digits for a numeric one. */
  ghost predicate SpanOf(p: Part, span: string) {
    match p
    case Text(t) => span == t
    case PositionalArg => span == "?"
    case NumericArg(n) =>
      |span| >= 2 && span[0] == '$' && Decimal.AllDigits(span[1..]) && Decimal.Val(span[1..]) == n
  }

  /** The placeholders a lexer driven by `raw` can emit. */
  predicate EmittedBy(p: Part, raw: StateFn) {
    match p
    case Text(_) => true
    case PositionalArg => raw == PositionalRaw
    case NumericArg(_) => raw == NumericRaw
  }

  // ---------------------------------------------------------------------------
  // Placeholders as holes in the query text
  // ---------------------------------------------------------------------------

  /** The query text `src[at..end]` a placeholder stands for. */
  datatype Hole = Hole(at: nat, end: nat)

  /** The holes lie inside `[lo, hi)`, each non-empty, in order and without
      overlapping. */
  predicate Laid(holes: seq<Hole>, lo: nat, hi: nat)
    decreases |holes|
  {
    holes == []
    || (var h := holes[|holes| - 1];
        lo <= h.at < h.end <= hi && Laid(holes[..|holes| - 1], lo, h.at))
  }

  /** Where the text after the holes starts: the end of the last hole, or `lo`
      when there is none. */
  function LastEnd(holes: seq<Hole>, lo: nat): nat {
    if holes == [] then lo else holes[|holes| - 1].end
  }

  /** `s` with its `k`-th hole replaced by `fill[k]` and every rune outside
      the holes kept as it is. */
  function Splice(s: string, holes: seq<Hole>, fill: seq<string>): string
    requires Laid(holes, 0, |s|) && |fill| == |holes|
    decreases |holes|
  {
    if holes == [] then s
    else
      var h := holes[|holes| - 1];
      Splice(s[..h.at], holes[..|holes| - 1], fill[..|fill| - 1]) + fill[|fill| - 1] + s[h.end..]
  }

  /** Text after the last hole is kept as it is. */
  lemma SpliceExtend(s: string, t: string, holes: seq<Hole>, fill: seq<string>)
    requires Laid(holes, 0, |s|) && |fill| == |holes|
    ensures Laid(holes, 0, |s + t|)
    ensures Splice(s + t, holes, fill) == Splice(s, holes, fill) + t
  {
    if holes != [] {
      var h := holes[|holes| - 1];
      assert (s + t)[..h.at] == s[..h.at];
      assert (s + t)[h.end..] == s[h.end..] + t;
    }
  }

  /** Holes laid out in a range are laid out in any range around it. */
  lemma {:induction false} LaidWithin(holes: seq<Hole>, lo: nat, hi: nat, lo': nat, hi': nat)
    requires Laid(holes, lo, hi) && lo' <= lo && hi <= hi'
    ensures Laid(holes, lo', hi')
    decreases |holes|
  {
    if holes != [] {
      var h := holes[|holes| - 1];
      LaidWithin(holes[..|holes| - 1], lo, h.at, lo', h.at);
    }
  }

  /** The text after laid-out holes starts inside their range. */
  lemma LastEndWithin(holes: seq<Hole>, lo: nat, hi: nat)
    requires Laid(holes, lo, hi) && lo <= hi
    ensures lo <= LastEnd(holes, lo) <= hi
  {
  }

  /** Holes laid out over a range split into the first ones, laid out over
      it, and the rest, laid out after the first ones end. */
  lemma {:induction false} LaidSplit(a: seq<Hole>, b: seq<Hole>, lo: nat, hi: nat)
    requires Laid(a + b, lo, hi)
    ensures Laid(a, lo, hi) && Laid(b, LastEnd(a, lo), hi)
    decreases |b|
  {
    if b == [] {
      assert a + b == a;
    } else {
      var h := b[|b| - 1];
      var pre := b[..|b| - 1];
      assert (a + b)[..|a + b| - 1] == a + pre;
      LaidSplit(a, pre, lo, h.at);
      LaidWithin(a, lo, h.at, lo, hi);
      LastEndWithin(a, lo, h.at);
    }
  }

  /** Holes laid out one range after another are laid out over both. */
  lemma {:induction false} LaidConcat(a: seq<Hole>, b: seq<Hole>, lo: nat, mid: nat, hi: nat)
    requires Laid(a, lo, mid) && Laid(b, mid, hi) && lo <= mid <= hi
    ensures Laid(a + b, lo, hi)
    ensures LastEnd(a + b, lo) == LastEnd(b, LastEnd(a, lo))
    decreases |b|
  {
    if b == [] {
      assert a + b == a;
      LaidWithin(a, lo, mid, lo, hi);
    } else {
      var h := b[|b| - 1];
      var pre := b[..|b| - 1];
      assert (a + b)[..|a + b| - 1] == a + pre;
      LaidConcat(a, pre, lo, mid, h.at);
    }
  }

  function Flat(spans: seq<string>): string {
    if spans == [] then [] else Flat(spans[..|spans| - 1]) + spans[|spans| - 1]
  }

  /** The text part the end-of-input step adds for the pending slice `src[start:pos]`. */
  function Pending(src: string, start: nat, pos: nat): seq<Part> {
    if start < pos <= |src| then [Text(src[start..pos])] else []
  }

  /** `sqlLexer`. `spans` records, for every part, the query text it was cut
      from. */
  class Lexer {
    const src: string
    const rawStateFn: StateFn
    var start: nat
    var pos: nat
    /** Multiline comment nesting level. */
    var nested: nat
    var stateFn: Option<StateFn>
    var parts: seq<Part>
    ghost var spans: seq<string>

    /** The lexer invariant when `state` runs next: `start <= pos <= len(src)`,
        and the parts, read back as the text they were cut from, are exactly
        `src[:start]` — contiguous, non-overlapping slices in order. While a
        numeric placeholder is being read the `$` before `start` is still
        pending. Once stopped, nothing is pending. */
    ghost predicate ValidIn(state: Option<StateFn>)
      reads this`parts, this`spans, this`start, this`pos
    {
      && Cut(state == Some(NumericArgument))
      && start <= pos <= |src|
      && (state == None ==> start == pos)
      && (state == Some(NumericArgument) ==> start == pos < |src| && IsNumber(src[pos]))
    }

    /** The parts cover `src[:start]`, or `src[:start - 1]` with a `$` pending. */
    ghost predicate Cut(dollarPending: bool)
      reads this`parts, this`spans, this`start
    {
      && (rawStateFn == PositionalRaw || rawStateFn == NumericRaw)
      && start <= |src|
      && |spans| == |parts|
      && (forall i :: 0 <= i < |parts| ==> SpanOf(parts[i], spans[i]) && EmittedBy(parts[i], rawStateFn))
      && if dollarPending
         then 0 < start && src[start - 1] == '$' && Flat(spans) == src[..start - 1]
         else Flat(spans) == src[..start]
    }

    ghost predicate Valid()
      reads this
    {
      ValidIn(stateFn)
    }

    /** The lexer `RewriteQuery` builds: at the start of `sql`, in the raw state
        `raw`. */
    constructor (sql: string, raw: StateFn)
      requires raw == PositionalRaw || raw == NumericRaw
      ensures src == sql && rawStateFn == raw && stateFn == Some(raw)
      ensures start == 0 && pos == 0 && nested == 0 && parts == []
      ensures Valid()
    {
      src := sql;
      rawStateFn := raw;
      start := 0;
      pos := 0;
      nested := 0;
      stateFn := Some(raw);
      parts := [];
      spans := [];
    }
  }

  lemma FlatAppend(spans: seq<string>, s: string)
    ensures Flat(spans + [s]) == Flat(spans) + s
  {
    assert (spans + [s])[..|spans|] == spans;
  }

  /** The `utf8.RuneError` case every state shares: the pending slice
      `src[start:pos]`, if any, becomes a text part, and the lexer stops. */
  method Flush(lexer: Lexer)
    requires lexer.ValidIn(Some(lexer.rawStateFn))
    modifies lexer`parts, lexer`spans, lexer`start
    ensures lexer.ValidIn(None)
    ensures lexer.pos == old(lexer.pos) && lexer.start == lexer.pos
    ensures lexer.nested == old(lexer.nested) && lexer.stateFn == old(lexer.stateFn)
    ensures lexer.parts == old(lexer.parts) + Pending(lexer.src, old(lexer.start), old(lexer.pos))
  {
    if lexer.pos - lexer.start > 0 {
      var piece := lexer.src[lexer.start..lexer.pos];
      FlatAppend(lexer.spans, piece);
      assert lexer.src[..lexer.start] + piece == lexer.src[..lexer.pos];
      lexer.parts := lexer.parts + [Text(piece)];
      lexer.spans := lexer.spans + [piece];
      lexer.start := lexer.pos;
    }
  }

  // ---------------------------------------------------------------------------
  // Quoted literals: `backtickState`, `singleQuoteState`, `doubleQuoteState`
  // ---------------------------------------------------------------------------

  /** The quote character of a quote state. */
  function QuoteOf(s: StateFn): char
    requires s == Backtick || s == SingleQuote || s == DoubleQuote
  {
    match s
    case Backtick => '`'
    case SingleQuote => '\''
    case DoubleQuote => '"'
  }

  /** The inside of a literal quoted with `q`: every `q` in it is doubled, and it
      holds no `RuneError`. */
  ghost predicate QuotedBody(s: string, q: char)
    decreases |s|
  {
    if s == [] then true
    else if s[|s| - 1] == q then |s| >= 2 && s[|s| - 2] == q && QuotedBody(s[..|s| - 2], q)
    else s[|s| - 1] != RuneError && QuotedBody(s[..|s| - 1], q)
  }

  /** The three quote states, which differ only in their quote `q`: the literal
      ends at the first `q` that is not doubled, and the state emits nothing but
      the end-of-input flush. */
  method QuoteState(lexer: Lexer, q: char) returns (next: Option<StateFn>)
    requires q == '`' || q == '\'' || q == '"'
    requires lexer.ValidIn(Some(lexer.rawStateFn))
    modifies lexer
    ensures lexer.ValidIn(next)
    ensures next == Some(lexer.rawStateFn) || next == None
    ensures old(lexer.pos) <= lexer.pos
    ensures lexer.nested == old(lexer.nested) && lexer.stateFn == old(lexer.stateFn)
    ensures next.Some? ==>
              && lexer.parts == old(lexer.parts) && lexer.start == old(lexer.start)
              && Quoted(lexer.src, old(lexer.pos), lexer.pos, q)
    ensures next.None? ==>
              && lexer.parts == old(lexer.parts) + Pending(lexer.src, old(lexer.start), lexer.pos)
              && Unterminated(lexer.src, old(lexer.pos), lexer.pos, q)
  {
    var closed := SkipQuoted(lexer, q);
    if closed {
      return Some(lexer.rawStateFn);
    }
    Flush(lexer);
    return None;
  }

  /** `src[from..to]` is the rest of a literal quoted with `q`, closing quote
      included: the closing quote is the first one that is not doubled. */
  ghost predicate Quoted(src: string, from: nat, to: nat, q: char) {
    && from < to <= |src| && src[to - 1] == q
    && QuotedBody(src[from..to - 1], q)
    && (to < |src| ==> src[to] != q)
  }

  /** `src[from..to]` is a literal quoted with `q` that the end of the input or
      a `RuneError` cuts short. */
  ghost predicate Unterminated(src: string, from: nat, to: nat, q: char) {
    && from <= to <= |src|
    && ((to == |src| && QuotedBody(src[from..], q))
        || (from < to && src[to - 1] == RuneError && QuotedBody(src[from..to - 1], q)))
  }

  /** The loop of the quote states, up to their `return`: whether the literal
      was closed. */
  method SkipQuoted(lexer: Lexer, q: char) returns (closed: bool)
    requires q != RuneError && lexer.pos <= |lexer.src|
    modifies lexer`pos
    ensures closed ==> Quoted(lexer.src, old(lexer.pos), lexer.pos, q)
    ensures !closed ==> Unterminated(lexer.src, old(lexer.pos), lexer.pos, q)
  {
    ghost var from := lexer.pos;
    while true
      invariant from <= lexer.pos <= |lexer.src|
      invariant QuotedBody(lexer.src[from..lexer.pos], q)
      decreases |lexer.src| - lexer.pos
    {
      ghost var before := lexer.pos;
      var (r, width) := DecodeRune(lexer.src, lexer.pos);
      lexer.pos := lexer.pos + width;
      if r == q {
        var (nextRune, width') := DecodeRune(lexer.src, lexer.pos);
        if nextRune != q {
          return true;
        }
        lexer.pos := lexer.pos + width';
        QuotedPair(lexer.src, from, before, q);
      } else if r == RuneError {
        assert lexer.src[from..before] == lexer.src[from..] || width == 1;
        return false;
      } else {
        QuotedStep(lexer.src, from, before, q);
      }
    }
  }

  lemma QuotedStep(src: string, from: nat, p: nat, q: char)
    requires from <= p < |src| && src[p] != q && src[p] != RuneError && QuotedBody(src[from..p], q)
    ensures QuotedBody(src[from..p + 1], q)
  {
    assert src[from..p + 1][..p - from] == src[from..p];
  }

  lemma QuotedPair(src: string, from: nat, p: nat, q: char)
    requires from <= p && p + 2 <= |src| && src[p] == q && src[p + 1] == q && QuotedBody(src[from..p], q)
    ensures QuotedBody(src[from..p + 2], q)
  {
    assert src[from..p + 2][..p - from] == src[from..p];
  }

  // ---------------------------------------------------------------------------
  // `oneLineCommentState`
  // ---------------------------------------------------------------------------

  /** The inside of a `--` comment: a backslash takes the next rune with it
      whatever that is, and no other rune is a backslash, a line break or a
      `RuneError`. */
  ghost predicate CommentBody(s: string)
    decreases |s|
  {
    if s == [] then true
    else (|s| >= 2 && s[|s| - 2] == '\\' && CommentBody(s[..|s| - 2]))
         || (s[|s| - 1] !in {'\\', '\n', '\r', RuneError} && CommentBody(s[..|s| - 1]))
  }

  /** `oneLineCommentState`: the comment ends after the first `\n` or `\r` not
      taken by a backslash; it emits nothing but the end-of-input flush. */
  method OneLineCommentState(lexer: Lexer) returns (next: Option<StateFn>)
    requires lexer.ValidIn(Some(lexer.rawStateFn))
    modifies lexer
    ensures lexer.ValidIn(next)
    ensures next == Some(lexer.rawStateFn) || next == None
    ensures old(lexer.pos) <= lexer.pos
    ensures lexer.nested == old(lexer.nested) && lexer.stateFn == old(lexer.stateFn)
    ensures next.Some? ==>
              && lexer.parts == old(lexer.parts) && lexer.start == old(lexer.start)
              && LineComment(lexer.src, old(lexer.pos), lexer.pos)
    ensures next.None? ==>
              && lexer.parts == old(lexer.parts) + Pending(lexer.src, old(lexer.start), lexer.pos)
              && UnterminatedComment(lexer.src, old(lexer.pos), lexer.pos)
  {
    var closed := SkipLineComment(lexer);
    if closed {
      return Some(lexer.rawStateFn);
    }
    Flush(lexer);
    return None;
  }

  /** `src[from..to]` is the rest of a `--` comment, line break included. */
  ghost predicate LineComment(src: string, from: nat, to: nat) {
    && from < to <= |src| && src[to - 1] in {'\n', '\r'}
    && CommentBody(src[from..to - 1])
  }

  /** `src[from..to]` is a `--` comment that the end of the input or a
      `RuneError` cuts short. */
  ghost predicate UnterminatedComment(src: string, from: nat, to: nat) {
    && from <= to <= |src|
    && ((to == |src| && TrailingComment(src[from..]))
        || (from < to && src[to - 1] == RuneError && CommentBody(src[from..to - 1])))
  }

  /** The loop of `oneLineCommentState`, up to its `return`: whether a line
      break ended the comment. */
  method SkipLineComment(lexer: Lexer) returns (closed: bool)
    requires lexer.pos <= |lexer.src|
    modifies lexer`pos
    ensures closed ==> LineComment(lexer.src, old(lexer.pos), lexer.pos)
    ensures !closed ==> UnterminatedComment(lexer.src, old(lexer.pos), lexer.pos)
  {
    ghost var from := lexer.pos;
    while true
      invariant from <= lexer.pos <= |lexer.src|
      invariant CommentBody(lexer.src[from..lexer.pos]) || (lexer.pos == |lexer.src| && TrailingComment(lexer.src[from..]))
      decreases |lexer.src| - lexer.pos
    {
      ghost var before := lexer.pos;
      var (r, width) := DecodeRune(lexer.src, lexer.pos);
      lexer.pos := lexer.pos + width;
      if r == '\\' {
        var (_, width') := DecodeRune(lexer.src, lexer.pos);
        lexer.pos := lexer.pos + width';
        CommentEscape(lexer.src, from, before);
      } else if r == '\n' || r == '\r' {
        return true;
      } else if r == RuneError {
        if width == 0 {
          TrailingAtEnd(lexer.src, from, before);
        }
        return false;
      } else {
        CommentStep(lexer.src, from, before);
      }
    }
  }

  lemma CommentStep(src: string, from: nat, p: nat)
    requires from <= p < |src| && src[p] !in {'\\', '\n', '\r', RuneError} && CommentBody(src[from..p])
    ensures CommentBody(src[from..p + 1])
  {
    assert src[from..p + 1][..p - from] == src[from..p];
  }

  /** A backslash and the rune after it, or the end of the input right after it. */
  lemma CommentEscape(src: string, from: nat, p: nat)
    requires from <= p < |src| && src[p] == '\\' && CommentBody(src[from..p])
    ensures p + 1 < |src| ==> CommentBody(src[from..p + 2])
    ensures p + 1 == |src| ==> TrailingComment(src[from..])
  {
    if p + 1 < |src| {
      assert src[from..p + 2][..p - from] == src[from..p];
    } else {
      assert src[from..][..p - from] == src[from..p];
    }
  }

  lemma TrailingAtEnd(src: string, from: nat, p: nat)
    requires from <= p == |src|
    requires CommentBody(src[from..p]) || TrailingComment(src[from..])
    ensures TrailingComment(src[from..])
  {
    assert src[from..p] == src[from..];
  }

  /** A comment cut short by the end of the input, possibly right after a
      backslash. */
  ghost predicate TrailingComment(s: string) {
    CommentBody(s) || (|s| > 0 && s[|s| - 1] == '\\' && CommentBody(s[..|s| - 1]))
  }

  // ---------------------------------------------------------------------------
  // `multilineCommentState`
  // ---------------------------------------------------------------------------

  /** Where a `/* */` comment whose text goes on at `i`, `nested` levels deep,
      ends: the position after it, whether its closer (`*` then `/`) was found, and
      the nesting level left. An opener (`/` then `*`) opens a level, a closer
      closes one, and at level 0 it closes the comment. */
  function CommentEnd(src: string, i: nat, nested: nat): (r: (nat, bool, nat))
    requires i <= |src|
    ensures i <= r.0 <= |src|
    ensures r.1 ==> r.2 == 0 && i + 2 <= r.0 && src[r.0 - 2] == '*' && src[r.0 - 1] == '/'
    ensures !r.1 ==> r.0 == |src| || (i < r.0 && src[r.0 - 1] == RuneError)
    decreases |src| - i
  {
    if i == |src| then (i, false, nested)
    else if src[i] == RuneError then (i + 1, false, nested)
    else if src[i] == '/' && i + 1 < |src| && src[i + 1] == '*' then CommentEnd(src, i + 2, nested + 1)
    else if src[i] == '*' && i + 1 < |src| && src[i + 1] == '/' then
      if nested == 0 then (i + 2, true, 0) else CommentEnd(src, i + 2, nested - 1)
    else CommentEnd(src, i + 1, nested)
  }

  /** `multilineCommentState`: it stops where `CommentEnd` says, with the
      nesting level it says, and emits nothing but the end-of-input flush. */
  method MultilineCommentState(lexer: Lexer) returns (next: Option<StateFn>)
    requires lexer.ValidIn(Some(lexer.rawStateFn))
    modifies lexer
    ensures lexer.ValidIn(next)
    ensures next == Some(lexer.rawStateFn) || next == None
    ensures (lexer.pos, next.Some?, lexer.nested) == CommentEnd(lexer.src, old(lexer.pos), old(lexer.nested))
    ensures lexer.stateFn == old(lexer.stateFn)
    ensures next.Some? ==> lexer.parts == old(lexer.parts) && lexer.start == old(lexer.start)
    ensures next.None? ==> lexer.parts == old(lexer.parts) + Pending(lexer.src, old(lexer.start), lexer.pos)
  {
    var closed := SkipComment(lexer);
    if closed {
      return Some(lexer.rawStateFn);
    }
    Flush(lexer);
    return None;
  }

  /** The loop of `multilineCommentState`, up to its `return`: whether the
      comment was closed. */
  method SkipComment(lexer: Lexer) returns (closed: bool)
    requires lexer.pos <= |lexer.src|
    modifies lexer`pos, lexer`nested
    ensures (lexer.pos, closed, lexer.nested) == CommentEnd(lexer.src, old(lexer.pos), old(lexer.nested))
  {
    while true
      invariant old(lexer.pos) <= lexer.pos <= |lexer.src|
      invariant CommentEnd(lexer.src, lexer.pos, lexer.nested) == CommentEnd(lexer.src, old(lexer.pos), old(lexer.nested))
      decreases |lexer.src| - lexer.pos
    {
      ghost var (before, level) := (lexer.pos, lexer.nested);
      var (r, width) := DecodeRune(lexer.src, lexer.pos);
      lexer.pos := lexer.pos + width;
      if r == '/' {
        var (nextRune, width') := DecodeRune(lexer.src, lexer.pos);
        if nextRune == '*' {
          lexer.pos := lexer.pos + width';
          lexer.nested := lexer.nested + 1;
        }
        assert CommentEnd(lexer.src, before, level) == CommentEnd(lexer.src, lexer.pos, lexer.nested);
      } else if r == '*' {
        var (nextRune, width') := DecodeRune(lexer.src, lexer.pos);
        if nextRune != '/' {
          assert CommentEnd(lexer.src, before, level) == CommentEnd(lexer.src, lexer.pos, lexer.nested);
          continue;
        }
        lexer.pos := lexer.pos + width';
        if lexer.nested == 0 {
          return true;
        }
        lexer.nested := lexer.nested - 1;
        assert CommentEnd(lexer.src, before, level) == CommentEnd(lexer.src, lexer.pos, lexer.nested);
      } else if r == RuneError {
        return false;
      } else {
        assert CommentEnd(lexer.src, before, level) == CommentEnd(lexer.src, lexer.pos, lexer.nested);
      }
    }
  }

  /** Comments nest: a comment opened `n + d + 1` levels deep runs on past the
      point where the same text opened `n` levels deep closes, and carries on
      from there `d` levels deep. So an inner comment is skipped whole. */
  lemma {:induction false} NestedCommentSkipped(src: string, i: nat, n: nat, d: nat)
    requires i <= |src| && CommentEnd(src, i, n).1
    ensures CommentEnd(src, i, n + d + 1) == CommentEnd(src, CommentEnd(src, i, n).0, d)
    decreases |src| - i
  {
    if src[i] == '/' && i + 1 < |src| && src[i + 1] == '*' {
      NestedCommentSkipped(src, i + 2, n + 1, d);
    } else if src[i] == '*' && i + 1 < |src| && src[i + 1] == '/' {
      if n > 0 {
        NestedCommentSkipped(src, i + 2, n - 1, d);
      }
    } else if src[i] != RuneError {
      NestedCommentSkipped(src, i + 1, n, d);
    }
  }

  /** Comment text with no opener, no closer and no `RuneError` is passed over
      without changing the nesting level. */
  lemma {:induction false} PlainCommentText(src: string, i: nat, j: nat, n: nat)
    requires i <= j <= |src|
    requires forall k :: i <= k < j ==> src[k] != RuneError
    requires forall k :: i <= k < j - 1 ==> !(src[k] == '/' && src[k + 1] == '*') && !(src[k] == '*' && src[k + 1] == '/')
    requires j < |src| ==> i < j ==> !(src[j - 1] == '/' && src[j] == '*') && !(src[j - 1] == '*' && src[j] == '/')
    ensures CommentEnd(src, i, n) == CommentEnd(src, j, n)
    decreases j - i
  {
    if i < j {
      PlainCommentText(src, i + 1, j, n);
    }
  }

  /** A comment with another nested inside it ends after its second closer. */
  lemma NestedCommentExample()
    ensures CommentEnd("/*/**/*/ x", 2, 0) == (8, true, 0)
  {
    var src := "/*/**/*/ x";
    assert CommentEnd(src, 6, 0) == (8, true, 0);
    assert CommentEnd(src, 4, 1) == CommentEnd(src, 6, 0);
  }

  // ---------------------------------------------------------------------------
  // What the raw states share
  // ---------------------------------------------------------------------------

  /** A rune the raw state `raw` reads past without leaving it: not a quote,
      not a `RuneError`, not the start of `--` or of a comment opener (`/` then
      `*`), and for the numeric rewriter not a `$` before a digit. */
  predicate OrdinaryRune(src: string, raw: StateFn, i: nat)
    requires i < |src|
  {
    && src[i] !in {'`', '\'', '"', RuneError}
    && !(src[i] == '-' && i + 1 < |src| && src[i + 1] == '-')
    && !(src[i] == '/' && i + 1 < |src| && src[i + 1] == '*')
    && !(raw == NumericRaw && src[i] == '$' && i + 1 < |src| && IsNumber(src[i + 1]))
  }

  ghost predicate RawRunes(src: string, raw: StateFn, from: nat, to: nat)
    requires from <= to <= |src|
  {
    forall i :: from <= i < to ==> OrdinaryRune(src, raw, i)
  }

  /** One more ordinary rune extends a run of them. */
  lemma RawRunesStep(src: string, raw: StateFn, from: nat, at: nat)
    requires from <= at < |src| && RawRunes(src, raw, from, at) && OrdinaryRune(src, raw, at)
    ensures RawRunes(src, raw, from, at + 1)
  {
  }

  /** The states a raw state can move to. */
  predicate Enterable(raw: StateFn, next: StateFn) {
    next in {Backtick, SingleQuote, DoubleQuote, OneLineComment, MultilineComment}
    || (raw == NumericRaw && next == NumericArgument)
  }

  /** The state a raw state moves to on the token that ends at `pos`: a quote
      opens its literal, `--` and a comment opener their comments, and a `$`
      before a digit a numeric placeholder. */
  ghost predicate EntersState(src: string, pos: nat, next: StateFn) {
    match next
    case Backtick => 0 < pos <= |src| && src[pos - 1] == '`'
    case SingleQuote => 0 < pos <= |src| && src[pos - 1] == '\''
    case DoubleQuote => 0 < pos <= |src| && src[pos - 1] == '"'
    case OneLineComment => 2 <= pos <= |src| && src[pos - 2] == '-' && src[pos - 1] == '-'
    case MultilineComment => 2 <= pos <= |src| && src[pos - 2] == '/' && src[pos - 1] == '*'
    case NumericArgument => 0 < pos < |src| && src[pos - 1] == '$' && IsNumber(src[pos])
    case _ => false
  }

  /** The length of the token that moved a raw state to `next`. */
  function TokenLength(next: StateFn): nat {
    if next == OneLineComment || next == MultilineComment then 2 else 1
  }

  /** One run of the raw state `raw` from `from` to `to`: ordinary runes, then
      either the token that enters `next`, or the end of the input, or a
      `RuneError`, which stops the lexer. */
  ghost predicate RawScan(src: string, raw: StateFn, from: nat, to: nat, next: Option<StateFn>) {
    && from <= to <= |src|
    && match next
       case Some(s) =>
         from + TokenLength(s) <= to && Enterable(raw, s) && EntersState(src, to, s)
         && RawRunes(src, raw, from, to - TokenLength(s))
       case None =>
         (to == |src| && RawRunes(src, raw, from, to))
         || (from < to && src[to - 1] == RuneError && RawRunes(src, raw, from, to - 1))
  }

  /** The digits of a numeric placeholder, from `from` to `to`: a run of digits
      ended by anything but a digit or a letter, which is left unread, or by a
      letter, which is read with it. */
  ghost predicate DigitRun(src: string, from: nat, to: nat) {
    && from < to <= |src|
    && (forall k :: from <= k < to - 1 ==> IsNumber(src[k]))
    && if IsLetter(src[to - 1]) then from < to - 1
       else IsNumber(src[to - 1]) && (to < |src| ==> !IsNumber(src[to]) && !IsLetter(src[to]))
  }

  // ---------------------------------------------------------------------------
  // The run of the state machine
  // ---------------------------------------------------------------------------

  /** One state function call: the state, and the positions it started and
      stopped at. */
  datatype Segment = Segment(state: StateFn, from: nat, to: nat)

  /** What one call of `seg.state` reads, given the state it returned. */
  ghost predicate Step(src: string, raw: StateFn, seg: Segment, next: Option<StateFn>) {
    && seg.from <= seg.to <= |src|
    && match seg.state
       case PositionalRaw => raw == PositionalRaw && RawScan(src, raw, seg.from, seg.to, next)
       case NumericRaw => raw == NumericRaw && RawScan(src, raw, seg.from, seg.to, next)
       case NumericArgument => raw == NumericRaw && next == Some(raw) && DigitRun(src, seg.from, seg.to)
       case OneLineComment =>
         || (next == Some(raw) && LineComment(src, seg.from, seg.to))
         || (next == None && UnterminatedComment(src, seg.from, seg.to))
       case MultilineComment =>
         && (next == Some(raw) || next == None)
         && CommentEnd(src, seg.from, 0).0 == seg.to && CommentEnd(src, seg.from, 0).1 == next.Some?
       case _ =>
         || (next == Some(raw) && Quoted(src, seg.from, seg.to, QuoteOf(seg.state)))
         || (next == None && Unterminated(src, seg.from, seg.to, QuoteOf(seg.state)))
  }

  /** `trace` is a run of the lexer with raw state `raw` over `src[:pos]`: the
      calls start at 0 in the raw state, each starts where the one before it
      stopped and in the state that one returned, and the last one returned
      `state`. */
  ghost predicate Traced(src: string, raw: StateFn, trace: seq<Segment>, pos: nat, state: Option<StateFn>)
    decreases |trace|
  {
    if trace == [] then pos == 0 && state == Some(raw)
    else
      var last := trace[|trace| - 1];
      && last.to == pos && Step(src, raw, last, state)
      && Traced(src, raw, trace[..|trace| - 1], last.from, Some(last.state))
  }

  /** A run extended by one more call. */
  lemma TracedStep(src: string, raw: StateFn, trace: seq<Segment>, pos: nat, s: StateFn, to: nat, next: Option<StateFn>)
    requires Traced(src, raw, trace, pos, Some(s)) && Step(src, raw, Segment(s, pos, to), next)
    ensures Traced(src, raw, trace + [Segment(s, pos, to)], to, next)
  {
    assert (trace + [Segment(s, pos, to)])[..|trace|] == trace;
  }

  /** A finished run stopped at the end of the input or just after a
      `RuneError`. */
  lemma StoppedAt(src: string, raw: StateFn, trace: seq<Segment>, pos: nat)
    requires Traced(src, raw, trace, pos, None)
    ensures pos == |src| || (0 < pos <= |src| && src[pos - 1] == RuneError)
  {
    var last := trace[|trace| - 1];
    assert Step(src, raw, last, None);
  }

  /** The `-` and `/` cases the raw states share: a second `-` opens a
      one-line comment and a `*` after the `/` a multiline one, the second
      rune read with the first; otherwise the rune is an ordinary one. */
  method CommentOpener(lexer: Lexer, r: char) returns (next: Option<StateFn>)
    requires (r == '-' || r == '/') && 0 < lexer.pos <= |lexer.src| && lexer.src[lexer.pos - 1] == r
    modifies lexer`pos
    ensures next.None? <==> !(old(lexer.pos) < |lexer.src| && lexer.src[old(lexer.pos)] == if r == '-' then '-' else '*')
    ensures next.None? ==> lexer.pos == old(lexer.pos)
    ensures next.Some? ==>
              && next.value == (if r == '-' then OneLineComment else MultilineComment)
              && lexer.pos == old(lexer.pos) + 1 && EntersState(lexer.src, lexer.pos, next.value)
  {
    var (nextRune, w) := DecodeRune(lexer.src, lexer.pos);
    if r == '-' && nextRune == '-' {
      lexer.pos := lexer.pos + w;
      return Some(OneLineComment);
    } else if r == '/' && nextRune == '*' {
      lexer.pos := lexer.pos + w;
      return Some(MultilineComment);
    }
    return None;
  }

  /** Ordinary runes before a run of the raw state belong to that run. */
  lemma RawScanFrom(src: string, raw: StateFn, from: nat, mid: nat, to: nat, next: Option<StateFn>)
    requires from <= mid <= |src| && RawRunes(src, raw, from, mid) && RawScan(src, raw, mid, to, next)
    ensures RawScan(src, raw, from, to, next)
  {
  }
}
