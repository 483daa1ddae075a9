/** `rawydb`: the issue tree a YDB server attaches to a failed operation, its
    copy from protobuf and its text form. A nil message pointer is `None`. */
module YdbIssues {
  import opened Wrappers

  /** `Ydb_Issue.IssueMessage`: a code, a message and nested issue pointers. */
  datatype IssueMessage = IssueMessage(issueCode: uint32, message: string, issues: seq<Option<IssueMessage>>)

  /** `Issue`. */
  datatype Issue = Issue(code: uint32, message: string, issues: seq<Issue>)

  /** The error on a nil issue message. */
  datatype IssueError = ErrNilIssueMessage

  // ---------------------------------------------------------------------------
  // The copy from protobuf
  // ---------------------------------------------------------------------------

  /** `Issue.FromProto` as a function: nil is an error, otherwise the code and
      the message with the nested issues copied. */
  function IssueOf(p: Option<IssueMessage>): Result<Issue, IssueError>
    decreases p
  {
    match p
    case None => Err(ErrNilIssueMessage)
    case Some(m) =>
      assert m < p;
      match IssuesOf(m.issues)
      case Err(e) => Err(e)
      case Ok(nested) => Ok(Issue(m.issueCode, m.message, nested))
  }

  /** `Issues.FromProto` as a function: the messages copied in order, stopping
      at the first one that fails. */
  function IssuesOf(ps: seq<Option<IssueMessage>>): Result<seq<Issue>, IssueError>
    decreases ps
  {
    if ps == [] then Ok([])
    else
      match IssuesOf(ps[..|ps| - 1])
      case Err(e) => Err(e)
      case Ok(done) =>
        match IssueOf(ps[|ps| - 1])
        case Err(e) => Err(e)
        case Ok(issue) => Ok(done + [issue])
  }

  /** `Issue.FromProto`: a nil message is an error; otherwise the code and the
      message are taken and the nested issues copied. */
  method IssueFromProto(proto: Option<IssueMessage>) returns (r: Result<Issue, IssueError>)
    ensures r == IssueOf(proto)
    decreases proto
  {
    if proto.None? {
      return Err(ErrNilIssueMessage);
    }
    var m := proto.value;
    assert m < proto;
    var nested := IssuesFromProto(m.issues);
    if nested.Err? {
      return Err(nested.error);
    }
    return Ok(Issue(m.issueCode, m.message, nested.value));
  }

  /** `Issues.FromProto`: a slice of the messages' length filled in order; the
      first message that fails ends the copy with its error. */
  method IssuesFromProto(p: seq<Option<IssueMessage>>) returns (r: Result<seq<Issue>, IssueError>)
    ensures r == IssuesOf(p)
    decreases p
  {
    var issues := new Issue[|p|](_ => Issue(0, "", []));
    for i := 0 to |p|
      invariant IssuesOf(p[..i]) == Ok(issues[..i])
    {
      IssuesStep(p, i);
      var issue := IssueFromProto(p[i]);
      if issue.Err? {
        IssuesErrPersists(p, i + 1);
        return Err(issue.error);
      }
      issues[i] := issue.value;
      assert issues[..i + 1] == issues[..i] + [issue.value];
    }
    assert p[..|p|] == p;
    assert issues[..] == issues[..|p|];
    return Ok(issues[..]);
  }

  /** One more message copied. */
  lemma IssuesStep(p: seq<Option<IssueMessage>>, i: nat)
    requires i < |p| && IssuesOf(p[..i]).Ok?
    ensures IssuesOf(p[..i + 1])
            == match IssueOf(p[i])
               case Err(e) => Err(e)
               case Ok(issue) => Ok(IssuesOf(p[..i]).value + [issue])
  {
    assert p[..i + 1][..i] == p[..i];
  }

  /** A failure on a prefix is the failure of the whole copy. */
  lemma {:induction false} IssuesErrPersists(p: seq<Option<IssueMessage>>, i: nat)
    requires i <= |p| && IssuesOf(p[..i]).Err?
    ensures IssuesOf(p) == IssuesOf(p[..i])
  {
    if i < |p| {
      var pre := p[..|p| - 1];
      assert pre[..i] == p[..i];
      IssuesErrPersists(pre, i);
    } else {
      assert p[..i] == p;
    }
  }

  /** No message of the tree is nil. */
  predicate Complete(p: Option<IssueMessage>)
    decreases p
  {
    p.Some? && AllComplete(p.value.issues)
  }

  /** No message of the trees is nil. */
  predicate AllComplete(ps: seq<Option<IssueMessage>>)
    decreases ps
  {
    forall i :: 0 <= i < |ps| ==> Complete(ps[i])
  }

  /** A message copies exactly when no message at any depth of it is nil. */
  lemma {:induction false} IssueOfOk(p: Option<IssueMessage>)
    ensures IssueOf(p).Ok? <==> Complete(p)
    decreases p
  {
    if p.Some? {
      assert p.value < p;
      IssuesOfOk(p.value.issues);
    }
  }

  /** A list copies exactly when no message at any depth of it is nil, and
      then gives one issue per message, in order. */
  lemma {:induction false} IssuesOfOk(ps: seq<Option<IssueMessage>>)
    ensures IssuesOf(ps).Ok? <==> AllComplete(ps)
    ensures IssuesOf(ps).Ok? ==>
              |IssuesOf(ps).value| == |ps|
              && forall i :: 0 <= i < |ps| ==> IssueOf(ps[i]) == Ok(IssuesOf(ps).value[i])
    decreases ps
  {
    if ps != [] {
      var pre := ps[..|ps| - 1];
      IssuesOfOk(pre);
      IssueOfOk(ps[|ps| - 1]);
      assert forall i :: 0 <= i < |pre| ==> pre[i] == ps[i];
    }
  }

  /** The message an issue is copied from. */
  function MessageOf(issue: Issue): IssueMessage
    decreases issue
  {
    IssueMessage(issue.code, issue.message, MessagesOf(issue.issues))
  }

  /** The messages a list of issues is copied from. */
  function MessagesOf(issues: seq<Issue>): (ps: seq<Option<IssueMessage>>)
    ensures |ps| == |issues|
    decreases issues
  {
    if issues == [] then [] else MessagesOf(issues[..|issues| - 1]) + [Some(MessageOf(issues[|issues| - 1]))]
  }

  /** Every issue is the copy of its message. */
  lemma {:induction false} CopyOfMessage(issue: Issue)
    ensures IssueOf(Some(MessageOf(issue))) == Ok(issue)
    decreases issue
  {
    CopiesOfMessages(issue.issues);
  }

  /** Every list of issues is the copy of its messages. */
  lemma {:induction false} CopiesOfMessages(issues: seq<Issue>)
    ensures IssuesOf(MessagesOf(issues)) == Ok(issues)
    decreases issues
  {
    if issues != [] {
      var n := |issues| - 1;
      CopiesOfMessages(issues[..n]);
      CopyOfMessage(issues[n]);
      assert MessagesOf(issues)[..n] == MessagesOf(issues[..n]);
      assert issues[..n] + [issues[n]] == issues;
    }
  }

  /** A successful copy loses nothing: the message is the one the issue is
      copied from. */
  lemma {:induction false} MessageOfCopy(p: Option<IssueMessage>, issue: Issue)
    requires IssueOf(p) == Ok(issue)
    ensures p == Some(MessageOf(issue))
    decreases p
  {
    assert p.value < p;
    MessagesOfCopies(p.value.issues, issue.issues);
  }

  /** A successful copy of a list loses nothing. */
  lemma {:induction false} MessagesOfCopies(ps: seq<Option<IssueMessage>>, issues: seq<Issue>)
    requires IssuesOf(ps) == Ok(issues)
    ensures ps == MessagesOf(issues)
    decreases ps
  {
    if ps != [] {
      var n := |ps| - 1;
      IssuesOfOk(ps);
      MessagesOfCopies(ps[..n], issues[..n]);
      MessageOfCopy(ps[n], issues[n]);
      assert ps == ps[..n] + [ps[n]];
    }
  }

  // ---------------------------------------------------------------------------
  // The text form
  // ---------------------------------------------------------------------------

  /** The decimal digits of `n`, as `%v` prints an unsigned integer. */
  function CodeText(n: nat): (s: string)
    ensures |s| > 0
  {
    if n < 10 then [Digit(n)] else CodeText(n / 10) + [Digit(n % 10)]
  }

  function Digit(d: nat): char
    requires d < 10
  {
    ('0' as int + d) as char
  }

  /** The number a string of decimal digits denotes. */
  function DigitsValue(s: string): nat
    requires forall i :: 0 <= i < |s| ==> '0' <= s[i] <= '9'
  {
    if s == [] then 0 else 10 * DigitsValue(s[..|s| - 1]) + (s[|s| - 1] as int - '0' as int)
  }

  /** The code is printed as its decimal digits, without leading zeros. */
  lemma {:induction false} CodeTextValue(n: nat)
    ensures forall i :: 0 <= i < |CodeText(n)| ==> '0' <= CodeText(n)[i] <= '9'
    ensures DigitsValue(CodeText(n)) == n
    ensures |CodeText(n)| > 1 ==> CodeText(n)[0] != '0'
  {
    if n >= 10 {
      CodeTextValue(n / 10);
      var s := CodeText(n);
      assert s[..|s| - 1] == CodeText(n / 10);
    }
  }

  /** `strings.Join`. */
  function Join(xs: seq<string>, sep: string): string {
    if |xs| == 0 then ""
    else if |xs| == 1 then xs[0]
    else Join(xs[..|xs| - 1], sep) + sep + xs[|xs| - 1]
  }

  /** `Issue.String` as a function. */
  function IssueText(issue: Issue): string
    decreases issue
  {
    "message: " + issue.message + ", code: " + CodeText(issue.code as nat)
      + if |issue.issues| > 0 then " (" + IssuesText(issue.issues) + ")" else ""
  }

  /** `Issues.String` as a function: the issues' texts joined by ", ". */
  function IssuesText(issues: seq<Issue>): string
    decreases issues, 1
  {
    Join(TextsOf(issues), ", ")
  }

  /** The text of every issue, in order. */
  function TextsOf(issues: seq<Issue>): (ts: seq<string>)
    ensures |ts| == |issues|
    decreases issues, 0
  {
    if issues == [] then [] else TextsOf(issues[..|issues| - 1]) + [IssueText(issues[|issues| - 1])]
  }

  /** `Issue.String`. */
  method IssueString(issue: Issue) returns (s: string)
    ensures s == IssueText(issue)
    decreases issue
  {
    var innerIssues := "";
    if |issue.issues| > 0 {
      var nested := IssuesString(issue.issues);
      innerIssues := " (" + nested + ")";
    }
    s := "message: " + issue.message + ", code: " + CodeText(issue.code as nat) + innerIssues;
  }

  /** `Issues.String`: the text of every issue, in order, joined by ", ". */
  method IssuesString(issues: seq<Issue>) returns (s: string)
    ensures s == IssuesText(issues)
    decreases issues, 1
  {
    var issuesStrings := new string[|issues|];
    for i := 0 to |issues|
      invariant issuesStrings[..i] == TextsOf(issues[..i])
    {
      var t := IssueString(issues[i]);
      issuesStrings[i] := t;
      assert issues[..i + 1][..i] == issues[..i];
    }
    assert issues[..|issues|] == issues;
    assert issuesStrings[..] == issuesStrings[..|issues|];
    s := Join(issuesStrings[..], ", ");
  }

  /** The text of a list is empty exactly when the list is. */
  lemma IssuesTextEmpty(issues: seq<Issue>)
    ensures IssuesText(issues) == "" <==> issues == []
  {
    var ts := TextsOf(issues);
    if |issues| > 0 {
      TextsOfAt(issues, 0);
      assert |ts[0]| > 0;
      JoinNonEmpty(ts, ", ");
    }
  }

  /** The text of a list of issues is the texts of its parts separated by
      ", ". */
  lemma {:induction false} IssuesTextAppend(a: seq<Issue>, b: seq<Issue>)
    requires a != [] && b != []
    ensures IssuesText(a + b) == IssuesText(a) + ", " + IssuesText(b)
  {
    TextsOfAppend(a, b);
    JoinAppend(TextsOf(a), TextsOf(b), ", ");
  }

  lemma {:induction false} TextsOfAppend(a: seq<Issue>, b: seq<Issue>)
    ensures TextsOf(a + b) == TextsOf(a) + TextsOf(b)
    decreases b
  {
    if b == [] {
      assert a + b == a;
    } else {
      var n := |b| - 1;
      assert (a + b)[..|a + b| - 1] == a + b[..n];
      TextsOfAppend(a, b[..n]);
    }
  }

  lemma {:induction false} TextsOfAt(issues: seq<Issue>, i: nat)
    requires i < |issues|
    ensures TextsOf(issues)[i] == IssueText(issues[i])
    decreases |issues|
  {
    if i < |issues| - 1 {
      TextsOfAt(issues[..|issues| - 1], i);
    }
  }

  lemma {:induction false} JoinNonEmpty(xs: seq<string>, sep: string)
    requires |xs| > 0 && |xs[0]| > 0
    ensures |Join(xs, sep)| >= |xs[0]|
  {
    if |xs| > 1 {
      JoinNonEmpty(xs[..|xs| - 1], sep);
    }
  }

  lemma {:induction false} JoinAppend(xs: seq<string>, ys: seq<string>, sep: string)
    requires xs != [] && ys != []
    ensures Join(xs + ys, sep) == Join(xs, sep) + sep + Join(ys, sep)
    decreases |ys|
  {
    var n := |ys| - 1;
    if n == 0 {
      assert (xs + ys)[..|xs + ys| - 1] == xs;
    } else {
      assert (xs + ys)[..|xs + ys| - 1] == xs + ys[..n];
      JoinAppend(xs, ys[..n], sep);
    }
  }

  // ---------------------------------------------------------------------------
  // Parentheses in the text form
  // ---------------------------------------------------------------------------

  /** No message of the tree contains a parenthesis. */
  predicate ParenFree(issue: Issue)
    decreases issue
  {
    && '(' !in issue.message && ')' !in issue.message
    && forall i :: 0 <= i < |issue.issues| ==> ParenFree(issue.issues[i])
  }

  /** The number of issues of the tree that have nested issues. */
  function Parents(issue: Issue): nat
    decreases issue
  {
    (if |issue.issues| > 0 then 1 else 0) + AllParents(issue.issues)
  }

  function AllParents(issues: seq<Issue>): nat
    decreases issues
  {
    if issues == [] then 0 else AllParents(issues[..|issues| - 1]) + Parents(issues[|issues| - 1])
  }

  /** The number of times `c` occurs in `s`. */
  function Occurrences(s: string, c: char): nat {
    if s == [] then 0 else Occurrences(s[..|s| - 1], c) + if s[|s| - 1] == c then 1 else 0
  }

  lemma {:induction false} OccurrencesAppend(a: string, b: string, c: char)
    ensures Occurrences(a + b, c) == Occurrences(a, c) + Occurrences(b, c)
    decreases |b|
  {
    if b == [] {
      assert a + b == a;
    } else {
      assert (a + b)[..|a + b| - 1] == a + b[..|b| - 1];
      OccurrencesAppend(a, b[..|b| - 1], c);
    }
  }

  lemma {:induction false} OccurrencesAbsent(s: string, c: char)
    requires c !in s
    ensures Occurrences(s, c) == 0
    decreases |s|
  {
    if s != [] {
      assert c !in s[..|s| - 1];
      OccurrencesAbsent(s[..|s| - 1], c);
    }
  }

  /** The text of a tree whose messages hold no parentheses opens and closes
      one parenthesis per issue with nested issues: the nesting is readable
      back from the text. */
  lemma {:induction false} IssueTextParens(issue: Issue)
    requires ParenFree(issue)
    ensures Occurrences(IssueText(issue), '(') == Parents(issue)
    ensures Occurrences(IssueText(issue), ')') == Parents(issue)
    decreases issue
  {
    var head := "message: " + issue.message + ", code: " + CodeText(issue.code as nat);
    HeadNoParens(issue.message, issue.code as nat, '(');
    HeadNoParens(issue.message, issue.code as nat, ')');
    if |issue.issues| > 0 {
      IssuesTextParens(issue.issues);
      var inner := IssuesText(issue.issues);
      assert IssueText(issue) == head + (" (" + inner) + ")";
      ParenthesizedCount(head, inner, '(');
      ParenthesizedCount(head, inner, ')');
    } else {
      assert issue.issues == [];
      assert IssueText(issue) == head + "" == head;
    }
  }

  /** Parenthesizing adds one of each parenthesis. */
  lemma ParenthesizedCount(head: string, inner: string, c: char)
    requires c == '(' || c == ')'
    ensures Occurrences(head + (" (" + inner) + ")", c) == Occurrences(head, c) + Occurrences(inner, c) + 1
  {
    OccurrencesAppend(head + (" (" + inner), ")", c);
    OccurrencesAppend(head, " (" + inner, c);
    OccurrencesAppend(" (", inner, c);
    assert " ("[..1] == " ";
    assert ")"[..0] == [];
  }

  /** The part of an issue's text before its nested issues has no
      parenthesis. */
  lemma HeadNoParens(message: string, code: nat, c: char)
    requires c == '(' || c == ')'
    requires '(' !in message && ')' !in message
    ensures Occurrences("message: " + message + ", code: " + CodeText(code), c) == 0
  {
    CodeTextValue(code);
    var d := CodeText(code);
    assert c !in d;
    var head := "message: " + message + ", code: " + d;
    assert c !in head by {
      assert c !in "message: " && c !in ", code: ";
    }
    OccurrencesAbsent(head, c);
  }

  lemma {:induction false} IssuesTextParens(issues: seq<Issue>)
    requires forall i :: 0 <= i < |issues| ==> ParenFree(issues[i])
    ensures Occurrences(IssuesText(issues), '(') == AllParents(issues)
    ensures Occurrences(IssuesText(issues), ')') == AllParents(issues)
    decreases issues, 1
  {
    if |issues| > 1 {
      var n := |issues| - 1;
      IssuesTextParens(issues[..n]);
      IssueTextParens(issues[n]);
      assert issues[..n] + [issues[n]] == issues;
      IssuesTextAppend(issues[..n], [issues[n]]);
      assert IssuesText([issues[n]]) == IssueText(issues[n]);
      SeparatedCount(IssuesText(issues[..n]), IssueText(issues[n]), '(');
      SeparatedCount(IssuesText(issues[..n]), IssueText(issues[n]), ')');
    } else if |issues| == 1 {
      IssueTextParens(issues[0]);
      assert IssuesText(issues) == IssueText(issues[0]);
      assert AllParents(issues) == Parents(issues[0]);
    }
  }

  /** The separator adds no parenthesis. */
  lemma SeparatedCount(a: string, b: string, c: char)
    requires c == '(' || c == ')'
    ensures Occurrences(a + ", " + b, c) == Occurrences(a, c) + Occurrences(b, c)
  {
    OccurrencesAppend(a + ", ", b, c);
    OccurrencesAppend(a, ", ", c);
    OccurrencesAbsent(", ", c);
  }
}
