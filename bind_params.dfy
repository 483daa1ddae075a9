/** Query arguments of `database/sql` and how they become named YDB query
    parameters: `toYdbParam`, `paramHandleNamedValue` and `Params`. */
module BindParams {
  import opened Wrappers
  import Decimal

  /** A YDB value; the conversion of Go values into YDB values is a parameter
      of this model. */
  type YdbValue(==)

  /** A Go value that is none of the argument wrappers below. */
  type GoValue(==)

  /** `*params.Parameter`: a named YDB value. */
  datatype Parameter = Parameter(name: string, value: YdbValue)

  /** A query argument as the type switches see it. */
  datatype Arg =
    | NamedValue(name: string, value: Arg)    // driver.NamedValue
    | NamedArg(name: string, value: Arg)      // sql.NamedArg
    | ParamList(list: seq<Parameter>)         // *params.Params
    | ParamArg(param: Parameter)              // *params.Parameter
    | Plain(v: GoValue)

  datatype BindError =
    | ErrUnnamedParam
    | ErrMultipleQueryParameters
    | ErrInconsistentArgs
    | ErrUnexpectedNumericArgZero
    | ConversionFailed(reason: string)

  /** `toValue`: converts a Go value into a YDB value, or fails with a reason. */
  type Converter = Arg -> Result<YdbValue, string>

  // ---------------------------------------------------------------------------
  // Parameter names
  // ---------------------------------------------------------------------------

  /** `strconv.Itoa` of a non-negative number. */
  function Itoa(n: nat): (s: string)
    ensures |s| > 0 && Decimal.AllDigits(s)
    ensures |s| > 1 ==> s[0] != '0'
  {
    if n < 10 then [Decimal.DigitChar(n)] else Itoa(n / 10) + [Decimal.DigitChar(n % 10)]
  }

  /** `Itoa` spells out its number: reading the digits back gives it again. */
  lemma {:induction false} ItoaVal(n: nat)
    ensures Decimal.Val(Itoa(n)) == n
  {
    if n >= 10 {
      ItoaVal(n / 10);
      var s := Itoa(n);
      assert s[..|s| - 1] == Itoa(n / 10);
    }
  }

  /** The name `$p<i>` of the `i`-th argument. */
  function PName(i: nat): (r: string)
    ensures |r| > 2 && r[0] == '$' && r[1] == 'p'
  {
    "$p" + Itoa(i)
  }

  /** Different positions give different names. */
  lemma PNameInjective(i: nat, j: nat)
    requires PName(i) == PName(j)
    ensures i == j
  {
    assert Itoa(i) == PName(i)[2..];
    assert Itoa(j) == PName(j)[2..];
    ItoaVal(i);
    ItoaVal(j);
  }

  /** The name with a `$` put in front unless it already starts with one. */
  function Dollar(name: string): (r: string)
    requires name != ""
    ensures |r| > 0 && r[0] == '$'
    ensures name[0] == '$' ==> r == name
    ensures name[0] != '$' ==> r[1..] == name
  {
    if name[0] != '$' then "$" + name else name
  }

  // ---------------------------------------------------------------------------
  // `toYdbParam`
  // ---------------------------------------------------------------------------

  /** The name and value `toYdbParam` works on: a `driver.NamedValue` is
      unwrapped once, its non-empty name replacing the given one. */
  function Unwrapped(name: string, value: Arg): (string, Arg) {
    match value
    case NamedValue(n, v) => (if n != "" then n else name, v)
    case _ => (name, value)
  }

  /** `toYdbParam`: a parameter passed in is kept as it is; anything else is
      converted first and then needs a name, which gets a `$` prefix. */
  function ToYdbParam(name: string, value: Arg, toValue: Converter): (r: Result<Parameter, BindError>)
    ensures Unwrapped(name, value).1.ParamArg? ==> r == Ok(Unwrapped(name, value).1.param)
    ensures !Unwrapped(name, value).1.ParamArg? ==>
              && (r.Ok? <==> toValue(Unwrapped(name, value).1).Ok? && Unwrapped(name, value).0 != "")
              && (r.Ok? ==>
                    && r.value.name == Dollar(Unwrapped(name, value).0)
                    && r.value.value == toValue(Unwrapped(name, value).1).value)
  {
    var (n, v) := Unwrapped(name, value);
    if v.ParamArg? then Ok(v.param)
    else
      match toValue(v)
      case Err(reason) => Err(ConversionFailed(reason))
      case Ok(val) => if n == "" then Err(ErrUnnamedParam) else Ok(Parameter(Dollar(n), val))
  }

  /** A conversion failure is reported before a missing name is. */
  lemma ConversionErrorFirst(name: string, value: Arg, toValue: Converter)
    requires !value.NamedValue? && !value.ParamArg? && toValue(value).Err?
    ensures ToYdbParam(name, value, toValue) == Err(ConversionFailed(toValue(value).error))
    ensures ToYdbParam("", value, toValue) == ToYdbParam(name, value, toValue)
  {
  }

  /** A non-empty `driver.NamedValue` name overrides the given one; an empty one
      leaves it. */
  lemma NamedValueOverrides(name: string, n: string, v: Arg, toValue: Converter)
    requires !v.NamedValue?
    ensures n != "" ==> ToYdbParam(name, NamedValue(n, v), toValue) == ToYdbParam(n, v, toValue)
    ensures n == "" ==> ToYdbParam(name, NamedValue(n, v), toValue) == ToYdbParam(name, v, toValue)
  {
  }

  /** Naming is idempotent: binding again under the name produced changes
      nothing, so `x` and `$x` name the same parameter. */
  lemma DollarIdempotent(name: string, v: Arg, toValue: Converter)
    requires !v.NamedValue? && !v.ParamArg? && name != ""
    ensures ToYdbParam(name, v, toValue).Ok? ==>
              ToYdbParam(ToYdbParam(name, v, toValue).value.name, v, toValue) == ToYdbParam(name, v, toValue)
    ensures name[0] != '$' ==> ToYdbParam("$" + name, v, toValue) == ToYdbParam(name, v, toValue)
  {
  }

  // ---------------------------------------------------------------------------
  // Arguments by position: `parsePositionalParameters`
  // ---------------------------------------------------------------------------

  /** The arguments bound in order as `$p0`, `$p1`, ..., stopping at the first
      failure. */
  function Converted(args: seq<Arg>, toValue: Converter): (r: Result<seq<Parameter>, BindError>)
    ensures r.Ok? ==> |r.value| == |args|
  {
    if args == [] then Ok([])
    else
      match Converted(args[..|args| - 1], toValue)
      case Err(e) => Err(e)
      case Ok(ps) =>
        match ToYdbParam(PName(|args| - 1), args[|args| - 1], toValue)
        case Err(e) => Err(e)
        case Ok(p) => Ok(ps + [p])
  }

  /** The binding succeeds exactly when every argument binds under its
      position's name, and then holds those parameters; otherwise it fails with
      the error of the first argument that does not bind. */
  lemma {:induction false} ConvertedEach(args: seq<Arg>, toValue: Converter)
    ensures Converted(args, toValue).Ok? <==>
              forall k :: 0 <= k < |args| ==> ToYdbParam(PName(k), args[k], toValue).Ok?
    ensures Converted(args, toValue).Ok? ==>
              forall k :: 0 <= k < |args| ==>
                Converted(args, toValue).value[k] == ToYdbParam(PName(k), args[k], toValue).value
    ensures Converted(args, toValue).Err? ==>
              exists k :: 0 <= k < |args| && ToYdbParam(PName(k), args[k], toValue).Err?
                && Converted(args, toValue).error == ToYdbParam(PName(k), args[k], toValue).error
                && forall j :: 0 <= j < k ==> ToYdbParam(PName(j), args[j], toValue).Ok?
  {
    if args != [] {
      var pre := args[..|args| - 1];
      ConvertedEach(pre, toValue);
      assert forall k :: 0 <= k < |pre| ==> pre[k] == args[k];
    }
  }

  /** Binding a prefix of the arguments gives a prefix of the parameters, and
      a failure on a prefix is the failure on the whole. */
  lemma {:induction false} ConvertedPrefix(args: seq<Arg>, i: nat, toValue: Converter)
    requires i <= |args|
    ensures Converted(args, toValue).Ok? ==> Converted(args[..i], toValue) == Ok(Converted(args, toValue).value[..i])
    ensures Converted(args[..i], toValue).Err? ==> Converted(args, toValue) == Converted(args[..i], toValue)
  {
    if i < |args| {
      var pre := args[..|args| - 1];
      ConvertedPrefix(pre, i, toValue);
      assert pre[..i] == args[..i];
      if Converted(args, toValue).Ok? {
        var v := Converted(args, toValue).value;
        assert Converted(pre, toValue).Ok? && Converted(pre, toValue).value == v[..|args| - 1];
        assert v[..|args| - 1][..i] == v[..i];
      }
    } else {
      assert args[..i] == args;
      if Converted(args, toValue).Ok? {
        assert Converted(args, toValue).value[..i] == Converted(args, toValue).value;
      }
    }
  }

  /** One more argument, bound. */
  lemma ConvertedStep(args: seq<Arg>, k: nat, toValue: Converter)
    requires k < |args| && Converted(args[..k], toValue).Ok? && ToYdbParam(PName(k), args[k], toValue).Ok?
    ensures Converted(args[..k + 1], toValue)
            == Ok(Converted(args[..k], toValue).value + [ToYdbParam(PName(k), args[k], toValue).value])
  {
    assert args[..k + 1][..k] == args[..k];
  }

  // ---------------------------------------------------------------------------
  // `Params`
  // ---------------------------------------------------------------------------

  function Single(r: Result<Parameter, BindError>): (s: Result<seq<Parameter>, BindError>) {
    match r
    case Ok(p) => Ok([p])
    case Err(e) => Err(e)
  }

  /** `paramHandleNamedValue`: an unnamed `driver.NamedValue` holding a
      parameter list or a parameter passes it on, and any other unnamed value
      is bound as `$p<paramNumber>`. */
  function ParamHandleNamedValue(name: string, value: Arg, paramNumber: nat, argsLen: nat, toValue: Converter)
    : (r: Result<seq<Parameter>, BindError>)
    ensures name == "" && value.ParamList? ==>
              r == if argsLen > 1 then Err(ErrMultipleQueryParameters) else Ok(value.list)
    ensures name == "" && value.ParamArg? ==> r == Ok([value.param])
    ensures r.Ok? && !(name == "" && value.ParamList?) ==> |r.value| == 1
    ensures name == "" && !value.ParamList? && !value.ParamArg? ==>
              r == Single(ToYdbParam(PName(paramNumber), value, toValue))
    ensures name != "" ==> r == Single(ToYdbParam(name, value, toValue))
  {
    if name == "" then
      match value
      case ParamList(ps) => if argsLen > 1 then Err(ErrMultipleQueryParameters) else Ok(ps)
      case ParamArg(p) => Ok([p])
      case _ => Single(ToYdbParam(PName(paramNumber), value, toValue))
    else
      Single(ToYdbParam(name, value, toValue))
  }

  /** The parameters one argument of `Params` contributes: the type switch in
      the loop of `Params`, for the argument at index `i` of `n`. */
  function ArgParams(arg: Arg, i: nat, n: nat, toValue: Converter): (r: Result<seq<Parameter>, BindError>)
    ensures r.Ok? && !arg.ParamList? && !(arg.NamedValue? && arg.name == "" && arg.value.ParamList?) ==>
              |r.value| == 1
    ensures arg.ParamList? ==> r == if n > 1 then Err(ErrMultipleQueryParameters) else Ok(arg.list)
    ensures arg.NamedArg? && arg.name == "" ==> r == Err(ErrUnnamedParam)
    ensures arg.Plain? ==> r == Single(ToYdbParam(PName(i), arg, toValue))
  {
    match arg
    case NamedValue(name, v) => ParamHandleNamedValue(name, v, i, n, toValue)
    case NamedArg(name, v) => if name == "" then Err(ErrUnnamedParam) else Single(ToYdbParam(name, v, toValue))
    case ParamList(ps) => if n > 1 then Err(ErrMultipleQueryParameters) else Ok(ps)
    case ParamArg(p) => Ok([p])
    case Plain(_) => Single(ToYdbParam(PName(i), arg, toValue))
  }

  /** The parameters of `args` (out of `n` arguments in all) in argument
      order, or the first error. A `*params.Params` replaces what was
      collected so far, which with a single argument is nothing. */
  function Collected(args: seq<Arg>, n: nat, toValue: Converter): Result<seq<Parameter>, BindError> {
    if args == [] then Ok([])
    else
      match Collected(args[..|args| - 1], n, toValue)
      case Err(e) => Err(e)
      case Ok(ps) =>
        match ArgParams(args[|args| - 1], |args| - 1, n, toValue)
        case Err(e) => Err(e)
        case Ok(qs) => Ok(ps + qs)
  }

  /** `Params` fails exactly when some argument fails, with the first failure. */
  lemma {:induction false} CollectedFirstError(args: seq<Arg>, n: nat, toValue: Converter)
    ensures Collected(args, n, toValue).Ok? <==>
              forall k :: 0 <= k < |args| ==> ArgParams(args[k], k, n, toValue).Ok?
    ensures Collected(args, n, toValue).Err? ==>
              exists k :: 0 <= k < |args| && ArgParams(args[k], k, n, toValue).Err?
                && Collected(args, n, toValue).error == ArgParams(args[k], k, n, toValue).error
                && forall j :: 0 <= j < k ==> ArgParams(args[j], j, n, toValue).Ok?
  {
    if args != [] {
      var pre := args[..|args| - 1];
      CollectedFirstError(pre, n, toValue);
      assert forall k :: 0 <= k < |pre| ==> pre[k] == args[k];
    }
  }

  /** The first argument that fails decides the result of `Params`. */
  lemma {:induction false} CollectedStop(args: seq<Arg>, i: nat, toValue: Converter)
    requires i < |args| && Collected(args[..i], |args|, toValue).Ok?
    requires ArgParams(args[i], i, |args|, toValue).Err?
    ensures Collected(args, |args|, toValue) == Err(ArgParams(args[i], i, |args|, toValue).error)
  {
    assert args[..i + 1][..i] == args[..i];
    CollectedErrPersists(args, i + 1, |args|, toValue);
  }

  /** Once the arguments so far fail, the arguments after them change nothing. */
  lemma {:induction false} CollectedErrPersists(args: seq<Arg>, i: nat, n: nat, toValue: Converter)
    requires i <= |args| && Collected(args[..i], n, toValue).Err?
    ensures Collected(args, n, toValue) == Collected(args[..i], n, toValue)
  {
    if i < |args| {
      var pre := args[..|args| - 1];
      assert pre[..i] == args[..i];
      CollectedErrPersists(pre, i, n, toValue);
    } else {
      assert args[..i] == args;
    }
  }

  /** A `*params.Params` must be the only argument; alone, it is the result. */
  lemma ParamListAlone(args: seq<Arg>, i: nat, toValue: Converter)
    requires i < |args| && args[i].ParamList?
    ensures |args| > 1 ==> Collected(args, |args|, toValue).Err?
    ensures |args| == 1 ==> Collected(args, 1, toValue) == Ok(args[0].list)
  {
    if |args| == 1 {
      assert args[..0] == [];
      assert ArgParams(args[0], 0, 1, toValue) == Ok(args[0].list);
      assert [] + args[0].list == args[0].list;
    } else {
      assert ArgParams(args[i], i, |args|, toValue).Err?;
      CollectedFirstError(args, |args|, toValue);
    }
  }

  /** With plain values only, `Params` binds the same parameters as the
      positional binding `$p0, $p1, ...`. */
  lemma {:induction false} PlainArgsArePositional(args: seq<Arg>, n: nat, toValue: Converter)
    requires forall k :: 0 <= k < |args| ==> args[k].Plain?
    ensures Collected(args, n, toValue) == Converted(args, toValue)
  {
    if args != [] {
      PlainArgsArePositional(args[..|args| - 1], n, toValue);
    }
  }

  /** `Params`: the parameters of all arguments, sorted by name. `sort.Slice`
      is not stable, so parameters of equal names may come in either order. */
  method Params(args: seq<Arg>, toValue: Converter) returns (r: Result<seq<Parameter>, BindError>)
    ensures r.Ok? <==> Collected(args, |args|, toValue).Ok?
    ensures r.Err? ==> r.error == Collected(args, |args|, toValue).error
    ensures r.Ok? ==> SortedByName(r.value) && multiset(r.value) == multiset(Collected(args, |args|, toValue).value)
  {
    var parameters: seq<Parameter> := [];
    for i := 0 to |args|
      invariant Collected(args[..i], |args|, toValue) == Ok(parameters)
    {
      assert args[..i + 1][..i] == args[..i];
      ghost var before := parameters;
      var newParams: seq<Parameter> := [];
      match args[i] {
        case NamedValue(name, v) =>
          var handled := ParamHandleNamedValue(name, v, i, |args|, toValue);
          if handled.Err? {
            CollectedStop(args, i, toValue);
            return Err(handled.error);
          }
          newParams := handled.value;
        case NamedArg(name, v) =>
          if name == "" {
            CollectedStop(args, i, toValue);
            return Err(ErrUnnamedParam);
          }
          var p := ToYdbParam(name, v, toValue);
          if p.Err? {
            CollectedStop(args, i, toValue);
            return Err(p.error);
          }
          newParams := [p.value];
        case ParamList(ps) =>
          if |args| > 1 {
            CollectedStop(args, i, toValue);
            return Err(ErrMultipleQueryParameters);
          }
          assert args[..i] == [];
          parameters := ps;
          assert ps + [] == [] + ps;
        case ParamArg(p) =>
          newParams := [p];
        case Plain(_) =>
          var p := ToYdbParam(PName(i), args[i], toValue);
          if p.Err? {
            CollectedStop(args, i, toValue);
            return Err(p.error);
          }
          newParams := [p.value];
      }
      parameters := parameters + newParams;
      assert parameters == before + ArgParams(args[i], i, |args|, toValue).value;
    }
    assert args[..|args|] == args;
    SortByNameCorrect(parameters);
    return Ok(SortByName(parameters));
  }

  // ---------------------------------------------------------------------------
  // Ordering by name: Go's `<` on strings
  // ---------------------------------------------------------------------------

  /** `a < b` in lexicographic order. */
  predicate NameLess(a: string, b: string)
    decreases |a|
  {
    if |a| == 0 then |b| > 0
    else if |b| == 0 then false
    else if a[0] != b[0] then a[0] < b[0]
    else NameLess(a[1..], b[1..])
  }

  lemma {:induction false} NameLessAsymmetric(a: string, b: string)
    ensures NameLess(a, b) ==> !NameLess(b, a)
    decreases |a|
  {
    if |a| > 0 && |b| > 0 && a[0] == b[0] {
      NameLessAsymmetric(a[1..], b[1..]);
    }
  }

  lemma {:induction false} NameLessTotal(a: string, b: string)
    ensures a == b || NameLess(a, b) || NameLess(b, a)
    decreases |a|
  {
    if |a| > 0 && |b| > 0 && a[0] == b[0] {
      NameLessTotal(a[1..], b[1..]);
      if a[1..] == b[1..] {
        assert a == [a[0]] + a[1..] && b == [b[0]] + b[1..];
      }
    }
  }

  lemma {:induction false} NameLessTransitive(a: string, b: string, c: string)
    requires NameLess(a, b) && NameLess(b, c)
    ensures NameLess(a, c)
    decreases |a|
  {
    if |a| > 0 && a[0] == b[0] && b[0] == c[0] {
      NameLessTransitive(a[1..], b[1..], c[1..]);
    }
  }

  /** "Not greater" is transitive. */
  lemma NameLeqTransitive(a: string, b: string, c: string)
    requires !NameLess(b, a) && !NameLess(c, b)
    ensures !NameLess(c, a)
  {
    NameLessTotal(a, b);
    if NameLess(c, a) && NameLess(a, b) {
      NameLessTransitive(c, a, b);
    }
  }

  /** No parameter comes before one with a smaller name. */
  predicate SortedByName(ps: seq<Parameter>) {
    forall i, j :: 0 <= i < j < |ps| ==> !NameLess(ps[j].name, ps[i].name)
  }

  /** `p` inserted into name-sorted `s` after every smaller name. */
  function Insert(p: Parameter, s: seq<Parameter>): seq<Parameter> {
    if s == [] then [p]
    else if NameLess(s[0].name, p.name) then [s[0]] + Insert(p, s[1..])
    else [p] + s
  }

  /** The sort of `Params` (insertion sort standing for `sort.Slice`). */
  function SortByName(ps: seq<Parameter>): seq<Parameter> {
    if ps == [] then [] else Insert(ps[|ps| - 1], SortByName(ps[..|ps| - 1]))
  }

  lemma {:induction false} InsertCorrect(p: Parameter, s: seq<Parameter>)
    requires SortedByName(s)
    ensures SortedByName(Insert(p, s))
    ensures multiset(Insert(p, s)) == multiset(s) + multiset{p}
  {
    if s == [] {
    } else if NameLess(s[0].name, p.name) {
      var rest := Insert(p, s[1..]);
      InsertCorrect(p, s[1..]);
      assert s == [s[0]] + s[1..];
      NameLessAsymmetric(s[0].name, p.name);
      forall j | 0 <= j < |rest|
        ensures !NameLess(rest[j].name, s[0].name)
      {
        assert rest[j] in multiset(rest);
        if rest[j] != p {
          assert rest[j] in multiset(s[1..]);
          var k :| 0 <= k < |s[1..]| && s[1..][k] == rest[j];
          assert s[k + 1] == rest[j];
        }
      }
    } else {
      forall j | 0 <= j < |s|
        ensures !NameLess(s[j].name, p.name)
      {
        if j > 0 {
          NameLeqTransitive(p.name, s[0].name, s[j].name);
        }
      }
      var r := [p] + s;
      assert forall j :: 0 < j < |r| ==> r[j] == s[j - 1];
    }
  }

  /** The sort orders the parameters by name and keeps every one of them. */
  lemma {:induction false} SortByNameCorrect(ps: seq<Parameter>)
    ensures SortedByName(SortByName(ps))
    ensures multiset(SortByName(ps)) == multiset(ps)
  {
    if ps != [] {
      var pre := ps[..|ps| - 1];
      SortByNameCorrect(pre);
      InsertCorrect(ps[|ps| - 1], SortByName(pre));
      assert ps == pre + [ps[|ps| - 1]];
    }
  }
}
