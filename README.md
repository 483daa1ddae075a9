# ydb-go-sdk core, modelled in Dafny

This project models seven parts of the YDB Go SDK and proves properties about each:

- **Endpoint cluster** (`Cluster`). The balancer's snapshot of endpoints:
  - `New` splits the endpoints into preferred and fallback by a filter and indexes them by node identifier.
  - `Without` evicts endpoints by address.
  - `Next` picks an endpoint: a pinned node, then a random preferred endpoint, then a random fallback endpoint.
- **Balancer configuration** (`BalancerConfig`). `CreateFromConfig` compiles a balancer config string:
  - a bare identifier (`disable`, `single`, `random_choice`, `round_robin`);
  - or a JSON document with `type`, `prefer`, `fallback` and `locations`.

  `FromConfig` falls back to a default balancer on error and notifies the optional handler.
- **YDB decimals**, in three modules:
  - `Decimal`: the sentinels and shared arithmetic.
  - `DecimalText`: `Parse` and `Format`.
  - `DecimalBytes`: the 16-byte two's-complement wire form, with `FromBytes`, `FromInt128`, `BigIntToByte`, `put`, `Append`, `not` and `complement`.

  The value is the unscaled integer. Infinity is 10^35, NaN is 10^35 + 1, and the error value is 10^35 + 2.
- **SQL placeholder binding**, in four modules:
  - `SqlLexer`: the state-machine lexer shared by both rewriters, with its quote and comment states.
  - `PositionalArgs`: rewrites `?` into `$p0, $p1, ...`.
  - `NumericArgs`: rewrites `$1, $2, ...` into the names of the bound arguments.
  - `BindParams`: `toYdbParam`, `Params` and the argument naming.
- **Topic reader wire messages** (`TopicCommon`, `TopicReader`). These convert between the SDK's reader messages and their protobuf form:
  - the offset range;
  - optional offsets;
  - init, read, commit and partition-session messages.
- **YDB issues** (`YdbIssues`): the recursive issue tree, copied from protobuf and rendered as text.

`Wrappers` holds `Option`, `Result` and the fixed-width integer types `int64` and `uint32`.

Each core file is modelled in its own form:

- **Classes with fields and frames.** Where the source mutates objects in place, the model uses a class:
  - the lexer;
  - the offset range, optional offsets and the reader response messages.
- **Methods with loop invariants.** Where the source loops, the model does too:
  - `pow`, `put`, `not`, `Format`'s digit loops and the lexer states;
  - the substitution loops, the protobuf copies and the issue strings.

  Each such method is proved against a specification function.
- **Functions and lemmas.** Pure logic is modelled as functions, with lemmas about them:
  - the config compilation;
  - `Next`;
  - `toYdbParam`.

The two rewriters are stated against an independent reference, `SqlLexer.Splice`: the query text with a list of holes (spans of it) replaced by given strings. The holes of `PositionalArgs` are the `?` the raw state read; those of `NumericArgs` are the `$` and digits the placeholder state spelled a number from. Lemmas tie both to the run of the lexer, so a `?` or `$1` inside a literal or a comment is kept.

The Go types map to Dafny as follows:

- nil pointers the source checks for become `Option.None`; a nil the source dereferences without a check is not an input;
- errors become `Result.Err` or `Option.Some` of a named error;
- `*big.Int` becomes `int`;
- Go strings become `seq<char>`, with one rune per element.

## Model

| member | source | states |
|---|---|---|
| Cluster.SplitPartitions | internal/balancer/cluster/cluster.go:55-57 | The split's first half holds exactly the accepted endpoints and its second half the rejected ones. Together the halves are a permutation of the input. |
| Cluster.SplitSnoc | internal/balancer/cluster/cluster.go:55-57 | One more endpoint goes to the end of the half the filter sends it to. |
| Cluster.SplitOrder | internal/balancer/cluster/cluster.go:55-57 | The split preserves input order in both halves. |
| Cluster.SplitAcceptAll | internal/balancer/cluster/cluster.go:41-45 | Under a filter that accepts everything, the split is the input and an empty fallback. |
| Cluster.SplitPair | internal/balancer/cluster/cluster.go:55-57 | The split of a two-endpoint list, spelled out. |
| Cluster.AddressDiffersMeans | internal/balancer/cluster/cluster.go:84-88 | An endpoint survives eviction exactly when its address differs from the evicted one's. |
| Cluster.NodeIndexCovers | internal/balancer/cluster/cluster.go:59-66 | The node-id index has exactly the node ids of the endpoints as keys, and maps each to an endpoint with that id. |
| Cluster.New | internal/balancer/cluster/cluster.go:40-69 | The filter and fallback flag are the last options given. `prefer` is the accepted half of the split. With fallback allowed, `fallback` is the rejected half and `all` is the input. Without it, `fallback` is empty and `all` is `prefer`. The index covers exactly `all`. |
| Cluster.All | internal/balancer/cluster/cluster.go:71-77 | A nil snapshot has no endpoints. Otherwise the result is the endpoints the snapshot holds. |
| Cluster.Without | internal/balancer/cluster/cluster.go:79-101 | Filter, flag, index and `all` are carried over. `prefer` is one pass over the old `prefer` per excluded endpoint. `fallback` is the old fallback followed by what each pass dropped. |
| Cluster.Pass | internal/balancer/cluster/cluster.go:82-90 | The inner loop returns the kept and the evicted endpoints, i.e. the split by address. |
| Cluster.PassesSnoc | internal/balancer/cluster/cluster.go:81-91 | The passes over k+1 excluded endpoints extend those over k by the pass for endpoint k. |
| Cluster.Next | internal/balancer/cluster/cluster.go:103-128 | Checks run in this order: a nil snapshot errors, then a finished context. A pinned node id found in the index wins. Then a drawn preferred endpoint, then a drawn fallback endpoint. Otherwise there are no endpoints. |
| Cluster.LaterOptionWins | internal/balancer/cluster/cluster.go:28-38 | A later `WithFilter` or `WithFallback` overrides an earlier one of its kind and leaves the other setting alone. |
| Cluster.NoFilterOptionPrefersAll | internal/balancer/cluster/cluster.go:41-57 | Without a filter option every endpoint is preferred and the fallback is empty. |
| Cluster.AcceptAllWithoutFilterOption | internal/balancer/cluster/cluster.go:41-49 | Without a filter option the filter accepts everything. |
| Cluster.BuiltWellFormed | internal/balancer/cluster/cluster.go:40-69 | The snapshot `New` builds is well formed. `prefer` holds exactly the accepted endpoints. The index covers the preferred node ids when fallback is disallowed, and all of them otherwise. |
| Cluster.PinnedIgnoresDraw | internal/balancer/cluster/cluster.go:112-117 | A pinned node id present in the index is returned whatever the random draw. |
| Cluster.AbsentPinFallsThrough | internal/balancer/cluster/cluster.go:112-121 | A pinned node id missing from the index is no error: selection continues as if nothing were pinned. |
| Cluster.EveryCandidateReachable | internal/balancer/cluster/cluster.go:119-125 | Every preferred endpoint is returned by some draw. So is every fallback endpoint when `prefer` is empty. |
| Cluster.PreferredDraw | internal/balancer/cluster/cluster.go:119-121 | Draw i picks the i-th preferred endpoint. |
| Cluster.FallbackDraw | internal/balancer/cluster/cluster.go:123-125 | With `prefer` empty, draw i picks the i-th fallback endpoint. |
| Cluster.WithoutKeepsMembership | internal/balancer/cluster/cluster.go:92-100 | Eviction leaves `All()` and the index unchanged, so a pinned node still reaches an evicted endpoint. |
| Cluster.WithoutOne | internal/balancer/cluster/cluster.go:79-101 | Evicting one endpoint keeps the others in order, and appends those with its address to the fallback. This happens even when fallback is disallowed. |
| Cluster.WithoutOneMembers | internal/balancer/cluster/cluster.go:79-101 | After evicting one endpoint, `prefer` holds exactly the preferred endpoints with another address. Every preferred endpoint with its address lands in the fallback. |
| Cluster.WithoutNothing | internal/balancer/cluster/cluster.go:79-101 | `Without` with no endpoints empties `prefer`, because no pass runs. |
| Cluster.WithoutTwoReadmits | internal/balancer/cluster/cluster.go:81-91 | With two excluded endpoints, each pass keeps what the other drops, so evicted entries come back into `prefer`. |
| Cluster.EvictionKeepsReachability | internal/balancer/cluster/cluster.go:40-101 | Under fallback, evicting one of two preferred endpoints moves it to the fallback and leaves `All()` unchanged. |
| Cluster.WithoutFillsDisallowedFallback | internal/balancer/cluster/cluster.go:79-101 | `Without` does not keep `New`'s shape: with fallback disallowed, the evicted endpoint still lands in `fallback`. |
| Cluster.FallbackPrecedence | internal/balancer/cluster/cluster.go:119-127 | With `prefer` empty, a fallback endpoint is always returned. With both lists empty, the result is the no-endpoints error. |
| BalancerConfig.CreateByType | balancers/config.go:58-71 | Succeeds exactly for the four identifiers, otherwise fails with the unknown-type error. `disable` and `single` give single-connection, and the other two give their own policy. The result has no locality preference and no fallback. |
| BalancerConfig.CreateFromConfig | balancers/config.go:73-120 | A bare identifier is compiled directly. A failed decode is a malformed-config error. A document with an unknown type fails. A successful document compiles to its type's policy with the requested locality. |
| BalancerConfig.FromConfig | balancers/config.go:122-146 | Never fails. A compiled config is returned as is. On a compilation error, the handler (if set) is notified exactly once with that error, and the fallback balancer is returned. |
| BalancerConfig.BareIdentifierIgnoresDocument | balancers/config.go:75-77 | A bare identifier never reaches JSON decoding, so its result does not depend on the document. |
| BalancerConfig.LocalDcIsNearestDc | balancers/config.go:96-107 | The deprecated `local_dc` compiles exactly like `nearest_dc`, with or without fallback. |
| BalancerConfig.LocationsNeedAList | balancers/config.go:108-116 | `prefer: locations` with an empty list is an error. A non-empty list is passed on to the location preference as it was decoded. |
| BalancerConfig.OtherPreferenceIgnoresFallback | balancers/config.go:117-118 | Any other or absent preference gives the bare policy regardless of `fallback`. |
| BalancerConfig.MissingTypeIsUnknown | balancers/config.go:90-93 | A document without `type` fails as an unknown balancer type. |
| BalancerConfig.FallbackOnlyWithPreference | balancers/config.go:96-118 | A compiled policy allows fallback only together with a locality preference. A locations preference always has a non-empty list. |
| BalancerConfig.LaterFromConfigOptionWins | balancers/config.go:46-56 | Nil options are skipped, and a later option of one kind overrides an earlier one. |
| BalancerConfig.HolderDefaults | balancers/config.go:122-131 | Without options, the fallback is the default balancer and no handler is set. |
| BalancerConfig.Examples | balancers/config.go:73-120 | Examples: `disable`; a locations document with fallback; an empty locations list; a malformed string. |
| Decimal.Pow | internal/decimal/decimal.go:356-370 | Square-and-multiply computes base^exponent. |
| Decimal.PowerSplit | internal/decimal/decimal.go:361-367 | The identity each loop step of `pow` keeps: an odd exponent contributes one factor, and the rest is the square to half the exponent. |
| Decimal.PowerAdd | internal/decimal/decimal.go:356-370 | b^(m+n) = b^m · b^n. |
| Decimal.InfIsPower | internal/decimal/decimal.go:20-23 | The infinity sentinel is 10^35. |
| Decimal.NumDigitsBound | internal/decimal/decimal.go:72 | A magnitude has at most n digits exactly when it is below 10^n, which is the `CmpAbs(pow(ten, precision))` test. |
| Decimal.ValAppend | internal/decimal/decimal.go:147-148 | Reading digits after a prefix multiplies the prefix's value by 10 per digit. |
| Decimal.ValBound | internal/decimal/decimal.go:147-148 | n digits spell a value below 10^n. |
| DecimalText.Parse | internal/decimal/decimal.go:93-191 | The source's parse equals `ParseSpec` under the source's budget rule, which counts every integral digit. |
| DecimalText.ScanAfterDot | internal/decimal/decimal.go:135-157 | After the dot, the integral budget is never consulted again. |
| DecimalText.ScanIntegral | internal/decimal/decimal.go:125-158 | Integral digits that fit the budget, or are all zeros, are all taken into the value. |
| DecimalText.ScanFraction | internal/decimal/decimal.go:135-148 | Fraction digits within the scale are all taken into the value. |
| DecimalText.ParseExact | internal/decimal/decimal.go:93-191 | A literal `[sign] digits . fraction` parses to its value scaled to exactly `scale` places. This holds when the fraction fits the scale and the integral part fits `precision - scale` digits. |
| DecimalText.ParseExactInteger | internal/decimal/decimal.go:93-191 | A literal without a dot parses to its value times 10^scale. |
| DecimalText.TieBreakDigits | internal/decimal/decimal.go:166-176 | After a `5`, rounding looks at whether any later digit is nonzero. |
| DecimalText.FinishRounds | internal/decimal/decimal.go:160-190 | The step after the loop rounds half to even on the first dropped digit. Rounding up to 10^precision gives infinity. |
| DecimalText.ParseRoundsHalfToEven | internal/decimal/decimal.go:135-190 | Digits beyond the scale round the value half to even. |
| DecimalText.ParseSentinels | internal/decimal/decimal.go:103-120 | `inf` and `nan` in any letter case, after an optional sign, parse to the signed sentinels. |
| DecimalText.ParseSignificantFits | internal/decimal/decimal.go:150-157 | With only significant digits counted against the budget, every finite result has at most `precision` digits. |
| DecimalText.ParseLeadingZeroOverflows | internal/decimal/decimal.go:150-157 | As written, `01.5` in Decimal(2,1) is infinity. Counting significant digits gives 15. |
| DecimalText.ParseLeadingZerosWrap | internal/decimal/decimal.go:150-157 | As written, `0001234` in Decimal(2,0) wraps the uint32 budget and yields 1234, which does not fit two digits. |
| DecimalText.ScanWrappedDigits | internal/decimal/decimal.go:125-158 | Once the budget has wrapped to 2^32-1, every further digit is taken. |
| DecimalText.ParseSignificantLeadingZeros | internal/decimal/decimal.go:150-157 | Counting significant digits, `0001234` in Decimal(2,0) is infinity. |
| DecimalText.Format | internal/decimal/decimal.go:197-274 | The source's format is `FormatSpec`, except that zero with scale 0 reads outside the buffer (`None`). |
| DecimalText.PutDigits | internal/decimal/decimal.go:226-263 | Fails exactly when the digits or the scale exceed `precision`. Otherwise the buffer's tail holds the digits, with the dot and the fraction padding. |
| DecimalText.PadZeros | internal/decimal/decimal.go:251-263 | The padding zeros and the dot are written in front. It fails exactly when the places left are too few. |
| DecimalText.Prepend | internal/decimal/decimal.go:240-241 | One `pos--; bts[pos] = c` prepends c to the written tail. |
| DecimalText.DropIsDiv | internal/decimal/decimal.go:230 | Dropping k digits divides by 10^k. |
| DecimalText.DigitsLeft | internal/decimal/decimal.go:230 | The loop ends after exactly as many steps as the value has digits. |
| DecimalText.DigitsPrepend | internal/decimal/decimal.go:236-241 | Each step of the digit loop prepends the next digit. |
| DecimalText.ValDigits | internal/decimal/decimal.go:236-241 | The last k digits read back as the value modulo 10^k. |
| DecimalText.IntegralVal | internal/decimal/decimal.go:264-267 | The integral part as written, `0` if empty, reads back as itself. |
| DecimalText.SplitVal | internal/decimal/decimal.go:243-249 | The integral and fraction digits read back as the magnitude. |
| DecimalText.BufferedShape | internal/decimal/decimal.go:226-273 | The filled buffer is the sign, the integral part (at least `0`) and exactly `scale` fraction digits. |
| DecimalText.FormatParseRoundTrip | internal/decimal/decimal.go:93-274 | `Parse` inverts `Format` for every value of at most `precision` digits and for the sentinels, under either budget rule. |
| DecimalText.FormatErrorTag | internal/decimal/decimal.go:231-233 | `Format` gives `<error>` exactly when a finite value or the scale needs more than `precision` digits. |
| DecimalText.FormatZeroWithoutScale | internal/decimal/decimal.go:251-267 | Zero with scale 0 hits the out-of-range read. The intended text is `0`, which parses back to zero. |
| DecimalText.FormatExampleTiny | internal/decimal/decimal_test.go:16-21 | -1 at precision 22, scale 9 formats as `-0.000000001`. |
| DecimalText.FormatExampleOne | internal/decimal/decimal_test.go:40-45 | 10^9 at precision 22, scale 9 formats as `1.000000000`, and the infinities as `inf` and `-inf`. |
| DecimalBytes.Not | internal/decimal/decimal.go:348-353 | Every word of the magnitude is flipped in place. |
| DecimalBytes.NotMagnitude | internal/decimal/decimal.go:348-353 | `not` of a magnitude v with n words is 2^(64n) - 1 - v. |
| DecimalBytes.Complement | internal/decimal/decimal.go:374-381 | The two's complement of a negative value, over exactly the words of its magnitude. |
| DecimalBytes.FromBytes | internal/decimal/decimal.go:57-81 | Equals `FromBytesSpec`: the big-endian value, complemented over whole words when the sign bit is set, clamped to signed infinity from 10^precision up. |
| DecimalBytes.FromInt128 | internal/decimal/decimal.go:85-87 | On 16 bytes, `FromBytes` is the intended two's-complement decoding with clamping. |
| DecimalBytes.Put | internal/decimal/decimal.go:293-314 | The encoded words go at the end of `data`. The sign's pad byte goes before them once anything was written. |
| DecimalBytes.PadFront | internal/decimal/decimal.go:306-313 | `put`'s padding loop fills the cells before the words with the pad byte, or nothing if no word was written. |
| DecimalBytes.PutWords | internal/decimal/decimal.go:298-305 | The words, least significant first, are written backwards from the end as the value's big-endian bytes. Earlier cells are untouched. |
| DecimalBytes.PutWord | internal/decimal/decimal.go:300-304 | The eight bytes of one word are written before `end`. |
| DecimalBytes.PutWordStep | internal/decimal/decimal.go:300-304 | Each byte written before the ones so far is the next byte of the word, and the word shifted right by 8 bits. |
| DecimalBytes.BigIntToByte | internal/decimal/decimal.go:280-291 | The clamped value is `put` into 16 zero bytes. The result is `None`, the panic of `put`, exactly when the clamped value needs more than 16 bytes; up to precision 38 it never does. |
| DecimalBytes.PutPanicsAbovePrecision38 | internal/decimal/decimal.go:280-305 | At precision 39 the clamp lets `10^39 - 1` through, and it needs more than 16 bytes, so `put` indexes below the array. |
| DecimalBytes.Size | internal/decimal/decimal.go:324-330 | A whole number of words, enough for `put`. |
| DecimalBytes.Append | internal/decimal/decimal.go:316-322 | p followed by the `size(x)` bytes of the encoded value. |
| DecimalBytes.Ensure | internal/decimal/decimal.go:332-344 | Grows by `additional` bytes and keeps the old content. |
| DecimalBytes.WordsRoundTrip | internal/decimal/decimal.go:299 | `x.Bits()` read back gives x. |
| DecimalBytes.NotValue | internal/decimal/decimal.go:348-353 | Flipping every word subtracts the value from the all-ones value of the same width. |
| DecimalBytes.WordCountBound | internal/decimal/decimal.go:324-330 | At most n words exactly when the value is below 2^(64n). |
| DecimalBytes.WordBytes | internal/decimal/decimal.go:299-305 | Word k contributes bytes 8k to 8k+7 of the big-endian form. |
| DecimalBytes.BytesValueOf | internal/decimal/decimal.go:63 | The last w bytes read back as the value modulo 256^w. |
| DecimalBytes.SignBit | internal/decimal/decimal.go:64 | The leading byte's top bit is set exactly when the unsigned value reaches half the range. |
| DecimalBytes.PutTwosComplement | internal/decimal/decimal.go:293-314 | Into 16 zero bytes, `put` writes the 128-bit two's complement of every value that fits. |
| DecimalBytes.ReadTwosComplement | internal/decimal/decimal.go:57-81 | Sixteen two's-complement bytes decode to the value, clamped. |
| DecimalBytes.FromBytesWholeWords | internal/decimal/decimal.go:57-81 | On inputs of whole 8-byte words, `FromBytes` equals the intended decoding. |
| DecimalBytes.ClampFits | internal/decimal/decimal.go:280-287 | Every clamped value of at most 38 digits fits 16 bytes. |
| DecimalBytes.Int128RoundTrip | internal/decimal/decimal.go:85-87 | `FromInt128(BigIntToByte(x))` gives x when x has at most `precision` digits (`|x| < 10^precision`), and signed infinity otherwise. |
| DecimalBytes.TwosComplementRoundTrip | internal/decimal/decimal.go:64-71 | The intended decoding inverts two's complement at any width. |
| DecimalBytes.FromBytesShortNegative | internal/decimal/decimal.go:64-71 | As written, the single byte `0xff` decodes to negative infinity instead of -1. |
| DecimalBytes.AppendRoundTrip | internal/decimal/decimal_test.go:54-62 | A non-negative value reads back after `Append` when the top bit of its last word is clear. |
| DecimalBytes.AppendRoundTripNegative | internal/decimal/decimal_test.go:54-62 | A negative value reads back after `Append` when its magnitude is at most half its word range. |
| DecimalBytes.AppendTopBitFlips | internal/decimal/decimal.go:316-330 | 2^63 fills its only word, so after `Append` it reads back negative. |
| DecimalBytes.FromInt128Examples | internal/decimal/decimal_test.go:16-45 | The test vectors at precision 22: -1; -2^64; 2^126 and -2^127 clamped to infinity; 10^9. |
| SqlLexer.DecodeRune | internal/bind/sql_lexer.go:32 | The rune at `pos` and its width, with width 0 exactly at the end of the input. |
| SqlLexer.Lexer.constructor | internal/bind/positional_args.go:22-26 | The lexer starts at 0 in the raw state, with no parts and the invariant established. |
| SqlLexer.Flush | internal/bind/sql_lexer.go:42-48 | The pending slice, if any, becomes a text part and the lexer stops. The parts still tile the input read so far. |
| SqlLexer.QuoteState | internal/bind/sql_lexer.go:30-97 | The three quote states end after the first quote that is not doubled and return the raw state. At the end of the input they flush and stop. The invariant is kept. |
| SqlLexer.SkipQuoted | internal/bind/sql_lexer.go:31-50 | The loop ends at the literal's closing quote, or at the end of the input or a `RuneError`. |
| SqlLexer.OneLineCommentState | internal/bind/sql_lexer.go:99-119 | The comment ends after the first line break not taken by a backslash. At the end of the input it flushes and stops. |
| SqlLexer.SkipLineComment | internal/bind/sql_lexer.go:100-118 | The loop ends after a line break, or at the end of the input. |
| SqlLexer.MultilineCommentState | internal/bind/sql_lexer.go:121-154 | Stops where `CommentEnd` says, with the nesting level it says. It returns the raw state after the closing `*/` at level 0, and otherwise flushes and stops. |
| SqlLexer.SkipComment | internal/bind/sql_lexer.go:122-153 | The loop follows `CommentEnd`. |
| SqlLexer.CommentEnd | internal/bind/sql_lexer.go:121-154 | The end is within the input. A closed comment ends with `*/` at level 0. An unclosed one ends at the end of the input or after a `RuneError`. |
| SqlLexer.NestedCommentSkipped | internal/bind/sql_lexer.go:127-143 | Comments nest: an inner comment is skipped whole, and scanning resumes at the outer level. |
| SqlLexer.PlainCommentText | internal/bind/sql_lexer.go:122-153 | Text without openers or closers leaves the nesting level unchanged. |
| SqlLexer.NestedCommentExample | internal/bind/sql_lexer.go:121-154 | `/*/**/*/` ends after its second closer. |
| SqlLexer.TracedStep | internal/bind/positional_args.go:28-30 | A run of the state machine extended by one call is still a run. |
| SqlLexer.StoppedAt | internal/bind/positional_args.go:28-30 | A finished run stopped at the end of the input, or just after a `RuneError`. |
| SqlLexer.CommentOpener | internal/bind/positional_args.go:90-103 | `--` and `/*` open their comment states, reading the second rune too. Any other `-` or `/` is ordinary. |
| SqlLexer.RawScanFrom | internal/bind/positional_args.go:75-112 | Ordinary runes before a raw-state run belong to that run. |
| SqlLexer.SpliceExtend | internal/bind/positional_args.go:41-42 | Text after the last hole is written out as it is: splicing a longer text is splicing the shorter one and appending the rest. |
| PositionalArgs.PositionalArgsStateFn | internal/bind/positional_args.go:75-113 | The raw state reads ordinary runes until a quote, a comment opener, a `RuneError` or the end of the input. What it appends is exact: for each `?` it read, the text since the last cut (possibly empty) and a placeholder, then the pending text when it stops the lexer. The next part starts after the last `?`. |
| PositionalArgs.RawTurn | internal/bind/positional_args.go:76-111 | One turn of the loop keeps the loop invariant: the parts so far are the cuts at the `?` read since the state was entered. When the state ends, they are its final parts. |
| PositionalArgs.RawStay | internal/bind/positional_args.go:87-89 | Reading one more ordinary rune keeps the cuts exact. A `?` adds the text before it and a placeholder; any other rune adds nothing. |
| PositionalArgs.RawStop | internal/bind/positional_args.go:80-110 | The token that ends the raw state reads no `?`. A stop of the lexer adds the pending text. |
| PositionalArgs.MarksStep | internal/bind/positional_args.go:87-89 | One more rune adds a hole exactly when it is a `?`. Then the cuts grow by the text before it and a placeholder. |
| PositionalArgs.PositionalRune | internal/bind/positional_args.go:77-111 | One turn of the loop. An ordinary rune keeps the state going; a `?` appends the text since the last cut and a placeholder, any other rune nothing. A quote, a comment opener, a `RuneError` or the end of the input ends the state without reading a `?`, and only a stop of the lexer appends the pending text. |
| PositionalArgs.EmitPlaceholder | internal/bind/positional_args.go:87-89 | The text before the `?` and a placeholder are appended, and the next part starts after the `?`. |
| PositionalArgs.Lex | internal/bind/positional_args.go:22-30 | The lexer runs to its end. The parts read back as the input consumed and hold no numeric placeholder. They are exactly `Lexed`: the cuts at every `?` the raw state read, then the pending text. |
| PositionalArgs.Advance | internal/bind/positional_args.go:28-30 | One turn of the loop: the run is extended, and the position never falls back and strictly grows while the machine goes on. The parts stay the cuts at the `?` the raw state has read, and are `Lexed` once it stops. |
| PositionalArgs.TraceCuts | internal/bind/positional_args.go:28-30 | The cuts of a run one call longer are those of the shorter run followed by the call's, and the pending text once the lexer stops. |
| PositionalArgs.RunState | internal/bind/positional_args.go:29 | One state call is a valid step of the run. It appends the cuts at the `?` the raw state read, and the pending text when it stops the lexer. Quote and comment states append nothing else. |
| PositionalArgs.OriginalIsFlat | internal/bind/positional_args.go:75-113 | Read back as text, the parts are the slices they were cut from. |
| PositionalArgs.RewriteQuery | internal/bind/positional_args.go:19-73 | The parts read back as the query, up to its first `RuneError`, and are the cuts at the `?` the raw state read. The rewrite succeeds exactly when those `?` equal the arguments in number and every argument binds. Then the YQL is the query with the k-th such `?` replaced by `$p<k>` and every other rune kept, so a `?` in a literal or a comment stays. Otherwise the error is the first binding failure the placeholders reach, or `ErrInconsistentArgs`. |
| PositionalArgs.ExpectedMeaning | internal/bind/positional_args.go:39-72 | Success exactly when the counts agree and every argument binds. Then the arguments are sent bound as `$p0, $p1, ...`, with the comment prefix when there are any. |
| PositionalArgs.Substitute | internal/bind/positional_args.go:32-72 | The substitution loop computes `Expected`. |
| PositionalArgs.SubstitutePart | internal/bind/positional_args.go:40-57 | One part: text is copied, and a placeholder binds the next argument. An early return carries the query's error. |
| PositionalArgs.ExpectedOverrun | internal/bind/positional_args.go:44-48 | More placeholders than arguments is `ErrInconsistentArgs`. |
| PositionalArgs.ExpectedBindFails | internal/bind/positional_args.go:50-53 | The first argument reached that fails to bind is the query's error. |
| PositionalArgs.ExpectedAtEnd | internal/bind/positional_args.go:60-72 | Fewer placeholders than arguments is `ErrInconsistentArgs`. Otherwise the rewritten text, with the prefix only when there are placeholders. |
| PositionalArgs.PlaceholdersPrefix | internal/bind/positional_args.go:39-57 | The placeholders in a prefix of the parts are no more than in all of them. |
| PositionalArgs.RewrittenWithoutPlaceholders | internal/bind/positional_args.go:66-72 | Without placeholders the query text comes back unchanged. |
| PositionalArgs.RewrittenExample | internal/bind/positional_args.go:49-56 | `SELECT ?, ?` becomes `SELECT $p0, $p1`. |
| PositionalArgs.LexedMeaning | internal/bind/positional_args.go:39-58 | The parts of a finished run hold one placeholder per `?` of the raw state. Written out, they are the query read with the k-th of those `?` replaced by `$p<k>` and every other rune kept. |
| PositionalArgs.EmittedRewritten | internal/bind/positional_args.go:87-89 | The cuts at laid-out holes, written out, are the query up to the last hole with the k-th hole replaced by `$p<k>`. |
| PositionalArgs.EmittedAppend | internal/bind/positional_args.go:87-89 | Cutting at two runs of holes, one after the other, is cutting at the first and then at the second from where the first ended. |
| PositionalArgs.MarksInSplit | internal/bind/positional_args.go:87-89 | The `?` of two adjacent ranges are, in order, those of the whole range. |
| PositionalArgs.MarksInMeaning | internal/bind/positional_args.go:87 | The holes of a range are exactly its `?`, each one rune wide. |
| PositionalArgs.RawMarksMeaning | internal/bind/positional_args.go:80-89 | A `?` is a placeholder exactly when the raw state read it, so a `?` inside a quoted literal or a comment is not one. Every placeholder is one `?`. |
| NumericArgs.NumericArgsStateFn | internal/bind/numeric_args.go:75-120 | The raw state reads ordinary runes until a quote, a comment opener, a `$` before a digit, a `RuneError` or the end. It appends nothing while it reads. When it stops it cuts what `Stop` says: before a placeholder, the text up to the `$` (even when empty), and the next part starts after the `$`; when the lexer stops, the pending text. |
| NumericArgs.NumericRune | internal/bind/numeric_args.go:77-119 | One turn of the raw loop. An ordinary rune changes only the position. A rune that ends the raw state cuts what `Stop` says. |
| NumericArgs.DollarRune | internal/bind/numeric_args.go:87-96 | A `$` starts a placeholder exactly when a digit follows it. Then the text before it is cut, and the `$` stays pending. Otherwise it is ordinary text and nothing changes. |
| NumericArgs.CutBeforeDollar | internal/bind/numeric_args.go:89-93 | The text before the `$` is appended, and the `$` stays pending. |
| NumericArgs.NumericArgState | internal/bind/numeric_args.go:136-168 | Reads a run of digits and appends `ArgumentPart`. When a non-letter ends the digits, that is the placeholder with the number they spell. When a letter ends them, it is the `$`, the digits and the letter as text. The next part starts after what it read. |
| NumericArgs.ReadDigits | internal/bind/numeric_args.go:151-167 | The digits read, or none when a letter ended them. A terminating non-letter is left unread. |
| NumericArgs.EndNumber | internal/bind/numeric_args.go:138-150 | The deferred function appends the placeholder, or the text from the `$`. |
| NumericArgs.NumberRead | internal/bind/numeric_args.go:151-167 | The digits spell a number exactly when the last rune read is a digit. |
| NumericArgs.Lex | internal/bind/numeric_args.go:21-29 | The lexer runs to its end. Its parts are exactly `Lexed`: what every call of the run cut, in order. |
| NumericArgs.Advance | internal/bind/numeric_args.go:27-29 | One turn of the loop: the run is extended and the position grows while the machine goes on. The parts and the start of the pending text stay what the run cut. |
| NumericArgs.CuttingStep | internal/bind/numeric_args.go:27-29 | The cuts, holes and numbers of a run one call longer extend those of the shorter run by that call's. |
| NumericArgs.RunState | internal/bind/numeric_args.go:28 | One state call is a valid step. The parts and the start of the pending text change as `CallCut` says for that call. |
| NumericArgs.LiteralState | internal/bind/sql_lexer.go:30-154 | Quote and comment states return the raw state or stop. They cut nothing unless they stop, and then only the pending text. |
| NumericArgs.CuttingMeaning | internal/bind/numeric_args.go:75-168 | Written out, the parts of any run are the query text read with every spelled placeholder (its `$` and digits) replaced by the name of the argument it numbers, and every other rune kept. The holes are laid out in order, one per number read, and the numbers of the parts are those the run read. The pending text starts where the parts end; when the lexer stops, at the position. |
| NumericArgs.CallCutMeaning | internal/bind/numeric_args.go:75-168 | One state call keeps that correspondence. |
| NumericArgs.ArgumentMeaning | internal/bind/numeric_args.go:138-150 | The placeholder state's part fills the next hole with its number, or keeps the `$`, the digits and the letter as text. |
| NumericArgs.StopMeaning | internal/bind/numeric_args.go:87-110 | The text a stopping raw or literal state cuts is kept as it is. |
| NumericArgs.AppendNumber | internal/bind/numeric_args.go:138-145 | A spelled number fills a new hole over its `$` and digits. |
| NumericArgs.AppendText | internal/bind/numeric_args.go:87-110 | A text part written out extends the query text accounted for by its own text. |
| NumericArgs.DollarBefore | internal/bind/numeric_args.go:87-96 | The placeholder state is only entered just after a `$`. |
| NumericArgs.HolesMeaning | internal/bind/numeric_args.go:136-150 | The holes are exactly the spans of a `$` and digits from which the placeholder state spelled a number. |
| NumericArgs.HolesSpelled | internal/bind/numeric_args.go:87-168 | Each hole is a `$` and then digits only, followed by neither a digit nor a letter. |
| NumericArgs.ParsePositionalParameters | internal/bind/numeric_args.go:122-134 | The arguments are bound as `$p0, $p1, ...`, stopping at the first failure. |
| NumericArgs.RewriteQuery | internal/bind/numeric_args.go:20-73 | The parts read back as the query, up to its first `RuneError`, and are exactly `Lexed`. Binding comes first, and its error wins. Then every `$k` must be between 1 and the argument count, and the first one that is not is the error (`$0` has its own). On success the YQL is the query with each hole replaced by the name of the k-th bound argument and every other rune kept, so a `$1` in a literal or a comment and a `$1a` stay as written. Unreferenced arguments are still sent. |
| NumericArgs.ExpectedMeaning | internal/bind/numeric_args.go:34-72 | Success exactly when every argument binds and every number names one of them. |
| NumericArgs.FirstBadRefNone | internal/bind/numeric_args.go:50-57 | No error exactly when every number is between 1 and n. Otherwise the error belongs to the first one that is not. |
| NumericArgs.Substitute | internal/bind/numeric_args.go:31-72 | The second half of `RewriteQuery` computes `Expected`. |
| NumericArgs.WriteParts | internal/bind/numeric_args.go:45-65 | Fails exactly when some number names no argument, with the first such error. Otherwise the text is rewritten with each `$k` replaced by the k-th name. |
| NumericArgs.BadRefFirst | internal/bind/numeric_args.go:45-57 | A bad number met before any other is the query's error. |
| NumericArgs.NumbersPrefix | internal/bind/numeric_args.go:45-65 | The numbers of a prefix of the parts are a prefix of the numbers. |
| NumericArgs.FirstBadRefPrefix | internal/bind/numeric_args.go:45-65 | An error on a prefix of the numbers is the error on all of them. |
| NumericArgs.RewrittenWithoutNumbers | internal/bind/numeric_args.go:45-72 | Without placeholders the query text comes back unchanged. |
| NumericArgs.ReferenceExample | internal/bind/numeric_args.go:50-63 | Placeholders may name arguments in any order and skip some. `$4` of 3 is inconsistent, and `$0` is its own error. |
| BindParams.Itoa | internal/bind/positional_args.go:49 | Decimal digits with no leading zero. |
| BindParams.ItoaVal | internal/bind/positional_args.go:49 | The digits read back as the number. |
| BindParams.PName | internal/bind/params.go:387 | `$p<i>` starts with `$p`. |
| BindParams.PNameInjective | internal/bind/params.go:387 | Different positions give different names. |
| BindParams.Dollar | internal/bind/params.go:357-359 | A `$` is added unless the name already starts with one. |
| BindParams.ToYdbParam | internal/bind/params.go:339-362 | A `driver.NamedValue` is unwrapped once, and its non-empty name replaces the given one. A parameter is kept as is. Otherwise the value is converted: the result is a parameter exactly when the conversion succeeds and the name is not empty, and then its name is the name with `$` put before it when missing and its value the converted one. A conversion error comes first, then `errUnnamedParam`. |
| BindParams.ConversionErrorFirst | internal/bind/params.go:350-356 | A conversion failure is reported before a missing name. |
| BindParams.NamedValueOverrides | internal/bind/params.go:340-346 | A non-empty `NamedValue` name overrides the given one. An empty one leaves it. |
| BindParams.DollarIdempotent | internal/bind/params.go:357-361 | `x` and `$x` name the same parameter, and binding again under the produced name changes nothing. |
| BindParams.Converted | internal/bind/numeric_args.go:122-134 | On success, one parameter per argument. |
| BindParams.ConvertedEach | internal/bind/numeric_args.go:122-134 | Success exactly when every argument binds under its position's name. Then the result holds those parameters. Otherwise the first failure is the error. |
| BindParams.ConvertedPrefix | internal/bind/numeric_args.go:124-131 | Binding a prefix gives a prefix of the parameters. A failure on a prefix is the failure on the whole. |
| BindParams.ConvertedStep | internal/bind/numeric_args.go:124-131 | One more argument extends the bound prefix. |
| BindParams.ParamHandleNamedValue | internal/bind/params.go:402-430 | An unnamed value holding a parameter list passes it on, unless there are several arguments. An unnamed parameter is passed on. Any other unnamed value is `toYdbParam` under `$p<i>`, and a named value is `toYdbParam` under its name; either way the result is that one parameter or its error. |
| BindParams.ArgParams | internal/bind/params.go:370-392 | The type switch of `Params`: a parameter list alone is the result, and with other arguments it is `errMultipleQueryParameters`. An unnamed `sql.NamedArg` is `errUnnamedParam`. A plain value is bound as `$p<i>`. |
| BindParams.CollectedFirstError | internal/bind/params.go:366-394 | `Params` fails exactly when some argument fails, and then with the first failure. |
| BindParams.CollectedStop | internal/bind/params.go:390-392 | The first argument that fails decides the result. |
| BindParams.CollectedErrPersists | internal/bind/params.go:390-392 | Arguments after a failure change nothing. |
| BindParams.ParamListAlone | internal/bind/params.go:379-383 | A parameter list must be the only argument, and alone it is the result. |
| BindParams.PlainArgsArePositional | internal/bind/params.go:386-388 | With plain values only, `Params` binds exactly what the positional binding binds. |
| BindParams.Params | internal/bind/params.go:364-400 | Fails exactly when collecting fails, with the same error. Otherwise the result is sorted by name and a permutation of the collected parameters. |
| BindParams.NameLessAsymmetric | internal/bind/params.go:395-397 | The name order is asymmetric. |
| BindParams.NameLessTotal | internal/bind/params.go:395-397 | The name order is total. |
| BindParams.NameLessTransitive | internal/bind/params.go:395-397 | The name order is transitive. |
| BindParams.InsertCorrect | internal/bind/params.go:395-397 | Insertion keeps the list sorted and adds exactly the new element. |
| BindParams.SortByNameCorrect | internal/bind/params.go:395-397 | The sort orders by name and is a permutation. |
| TopicCommon.OffsetRange.constructor | internal/grpcwrapper/rawtopic/rawtopiccommon/rangeoffset.go:13-16 | The zero range. |
| TopicCommon.OffsetRange.FromProto | internal/grpcwrapper/rawtopic/rawtopiccommon/rangeoffset.go:18-27 | A nil message is the unexpected-protobuf error and leaves the range unchanged. Otherwise both offsets are copied, and `ToProto` gives the message back. |
| TopicCommon.OffsetRange.ToProto | internal/grpcwrapper/rawtopic/rawtopiccommon/rangeoffset.go:29-34 | The message carries both offsets. |
| TopicCommon.ToProtoInjective | internal/grpcwrapper/rawtopic/rawtopiccommon/rangeoffset.go:29-34 | Equal messages mean equal ranges, so `ToProto` loses nothing. |
| TopicReader.SessionIdFromInt64 | internal/grpcwrapper/rawtopic/rawtopicreader/messages.go:27-29 | The identifier has the given value. |
| TopicReader.SessionIdToInt64 | internal/grpcwrapper/rawtopic/rawtopicreader/messages.go:31-33 | The integer has the identifier's value. |
| TopicReader.SessionIdRoundTrip | internal/grpcwrapper/rawtopic/rawtopicreader/messages.go:25-33 | The two conversions are mutual inverses. |
| TopicReader.OptionalOffset.constructor | internal/grpcwrapper/rawtopic/rawtopicreader/messages.go:35-38 | The zero value: no value, offset 0. |
| TopicReader.OptionalOffset.FromInt64Pointer | internal/grpcwrapper/rawtopic/rawtopicreader/messages.go:40-48 | A nil pointer gives no value and offset -1. Otherwise the value is set. `ToInt64Pointer` gives the pointer back. |
| TopicReader.OptionalOffset.FromInt64 | internal/grpcwrapper/rawtopic/rawtopicreader/messages.go:50-52 | Sets the value, which `ToInt64` and `ToInt64Pointer` return. |
| TopicReader.OptionalOffset.ToInt64 | internal/grpcwrapper/rawtopic/rawtopicreader/messages.go:54-56 | Agrees with `ToInt64Pointer` whenever that holds a value. |
| TopicReader.OptionalOffset.ToInt64Pointer | internal/grpcwrapper/rawtopic/rawtopicreader/messages.go:58-66 | Non-nil exactly when a value is set, and then points to the offset. |
| TopicReader.InitRequestToProto | internal/grpcwrapper/rawtopic/rawtopicreader/messages.go:98-120 | The consumer is copied, and so is each topic's settings, in order: path and partition ids. |
| TopicReader.CopyIds | internal/grpcwrapper/rawtopic/rawtopicreader/messages.go:113-114 | The partition ids are copied unchanged. |
| TopicReader.GetTopics | internal/grpcwrapper/rawtopic/rawtopicreader/messages.go:128-135 | The topic paths, in order. |
| TopicReader.InitResponse.FromProto | internal/grpcwrapper/rawtopic/rawtopicreader/messages.go:153-155 | The session id, or `""` for a nil message. |
| TopicReader.ReadRequestToProto | internal/grpcwrapper/rawtopic/rawtopicreader/messages.go:167-169 | The byte size is carried over. |
| TopicReader.CollectMeaning | internal/grpcwrapper/rawtopic/rawtopicreader/messages.go:205-252 | A copy loop succeeds exactly when no element is nil and every element converts. Then it holds the converted elements in order. Otherwise the error belongs to the first failing element. |
| TopicReader.CollectStep | internal/grpcwrapper/rawtopic/rawtopicreader/messages.go:205-252 | One more element extends the copied prefix. |
| TopicReader.CollectErrPersists | internal/grpcwrapper/rawtopic/rawtopicreader/messages.go:205-252 | After a failure, the remaining elements change nothing. |
| TopicReader.ReadResponse.FromProto | internal/grpcwrapper/rawtopic/rawtopicreader/messages.go:199-257 | A nil message is its own error. Otherwise the byte size is copied. The partitions are copied with the nil-partition, nil-batch and nil-message errors, first failure first. On success the partition data is the converted tree. |
| TopicReader.ReadResponse.GetPartitionBatchMessagesCounts | internal/grpcwrapper/rawtopic/rawtopicreader/messages.go:186-197 | The partition count, the total number of batches and the total number of messages. |
| TopicReader.CopyBatches | internal/grpcwrapper/rawtopic/rawtopicreader/messages.go:214-221 | The batches are copied, and a nil batch is the nil-batch error. |
| TopicReader.CopyMessages | internal/grpcwrapper/rawtopic/rawtopicreader/messages.go:229-251 | The messages are copied, and a nil message is the nil-message error. |
| TopicReader.CopyMetadata | internal/grpcwrapper/rawtopic/rawtopicreader/messages.go:243-250 | The metadata items are copied in order, one per item: each keeps its key and value, and a nil item becomes an empty key with no value. |
| TopicReader.MessageCountIsAll | internal/grpcwrapper/rawtopic/rawtopicreader/messages.go:186-197 | The message count is the number of messages in all batches of all partitions. |
| TopicReader.BatchMessagesIsAll | internal/grpcwrapper/rawtopic/rawtopicreader/messages.go:191-193 | The per-partition count is the number of its batches' messages. |
| TopicReader.ReadResponseShape | internal/grpcwrapper/rawtopic/rawtopicreader/messages.go:205-252 | A converted response has one partition per message partition, one batch per batch, one message per message, and the ids and offsets copied. |
| TopicReader.NilMessageFails | internal/grpcwrapper/rawtopic/rawtopicreader/messages.go:230-234 | A nil message anywhere fails the whole response. |
| TopicReader.CommitOffsetRequestToProto | internal/grpcwrapper/rawtopic/rawtopicreader/messages.go:294-315 | One entry per partition, with its session id and every offset range's message, in order. |
| TopicReader.CommitOffsetResponse.FromProto | internal/grpcwrapper/rawtopic/rawtopicreader/messages.go:330-344 | A nil entry is an error. Otherwise the committed offsets are copied. A nil message has no entries. |
| TopicReader.CommittedMeaning | internal/grpcwrapper/rawtopic/rawtopicreader/messages.go:330-344 | Success exactly when no entry is nil. Then each entry's session id and committed offset are copied in order. |
| TopicReader.StatusRequestToProto | internal/grpcwrapper/rawtopic/rawtopicreader/messages.go:361-365 | The session id is carried over. |
| TopicReader.PartitionSessionStatusResponse.FromProto | internal/grpcwrapper/rawtopic/rawtopicreader/messages.go:377-387 | The session id is copied, 0 for a nil message. The range error occurs exactly when there are no offsets, and it leaves the range as it was. Otherwise the range is copied. |
| TopicReader.StartPartitionSessionRequest.FromProto | internal/grpcwrapper/rawtopic/rawtopicreader/messages.go:403-418 | A nil message, then a nil session, are errors that leave the session, the committed offset and the offset range unchanged. Otherwise the session and the committed offset are copied, and the offset range's result is the result; a nil range leaves the range as it was. |
| TopicReader.StartResponseToProto | internal/grpcwrapper/rawtopic/rawtopicreader/messages.go:434-442 | The session id is carried over. Each optional offset is present exactly when it has a value, and then equals it. |
| TopicReader.StopPartitionSessionRequest.FromProto | internal/grpcwrapper/rawtopic/rawtopicreader/messages.go:458-467 | Errors exactly on nil. Otherwise the id, the graceful flag and the committed offset are copied. |
| TopicReader.StopResponseToProto | internal/grpcwrapper/rawtopic/rawtopicreader/messages.go:475-479 | The session id is carried over. |
| YdbIssues.IssueFromProto | internal/grpcwrapper/rawydb/issues.go:43-51 | Computes `IssueOf`: a nil message is the error, and otherwise code, message and nested issues are copied. |
| YdbIssues.IssuesFromProto | internal/grpcwrapper/rawydb/issues.go:15-25 | Computes `IssuesOf`: the issues in order, stopping at the first failure. |
| YdbIssues.IssuesStep | internal/grpcwrapper/rawydb/issues.go:18-22 | One more issue extends the copied prefix. |
| YdbIssues.IssuesErrPersists | internal/grpcwrapper/rawydb/issues.go:18-22 | After a failure, the remaining issues change nothing. |
| YdbIssues.IssueOfOk | internal/grpcwrapper/rawydb/issues.go:43-51 | The copy succeeds exactly when no message in the tree is nil. |
| YdbIssues.IssuesOfOk | internal/grpcwrapper/rawydb/issues.go:15-25 | A list copies exactly when no message in any tree is nil. The result then has the same length and is pointwise the copies. |
| YdbIssues.CopyOfMessage | internal/grpcwrapper/rawydb/issues.go:43-51 | Copying the message of an issue gives the issue back. |
| YdbIssues.CopiesOfMessages | internal/grpcwrapper/rawydb/issues.go:15-25 | The same for lists. |
| YdbIssues.MessageOfCopy | internal/grpcwrapper/rawydb/issues.go:43-51 | A successful copy loses nothing: the message is that of its copy. |
| YdbIssues.MessagesOfCopies | internal/grpcwrapper/rawydb/issues.go:15-25 | The same for lists. |
| YdbIssues.CodeTextValue | internal/grpcwrapper/rawydb/issues.go:59 | The code is printed in decimal digits, with no leading zero, and reads back as the code. |
| YdbIssues.IssueString | internal/grpcwrapper/rawydb/issues.go:53-60 | Equals `IssueText`: message, code, and the nested issues in parentheses when there are any. |
| YdbIssues.IssuesString | internal/grpcwrapper/rawydb/issues.go:27-35 | Equals `IssuesText`: the texts joined by `, `. |
| YdbIssues.IssuesTextEmpty | internal/grpcwrapper/rawydb/issues.go:27-35 | The text is empty exactly for no issues. |
| YdbIssues.IssuesTextAppend | internal/grpcwrapper/rawydb/issues.go:27-35 | The text of two non-empty lists is the two texts joined by `, `. |
| YdbIssues.TextsOfAt | internal/grpcwrapper/rawydb/issues.go:29-32 | Each element is the text of its issue. |
| YdbIssues.JoinAppend | internal/grpcwrapper/rawydb/issues.go:34 | Joining two non-empty lists puts one separator between them. |
| YdbIssues.OccurrencesAppend | internal/grpcwrapper/rawydb/issues.go:53-60 | Character counts add over concatenation. |
| YdbIssues.IssueTextParens | internal/grpcwrapper/rawydb/issues.go:53-60 | Given messages without parentheses, an issue's text has one `(` and one `)` per issue that has children. |
| YdbIssues.IssuesTextParens | internal/grpcwrapper/rawydb/issues.go:27-35 | The same count for a list. |

## Left out

- `Wrappers.int64` and `Wrappers.uint32` bound the values the source stores. Other integer arithmetic is unbounded unless written out. The exception is `Parse`'s `integral--` on `uint32`, which is modelled with its wrap-around.
- Cluster.Next: the random source is the `draw` parameter, with `rand.Int(l)` taken as `draw % l`. Context cancellation is an `Option` error. An endpoint is modelled by its node identifier, address and location only.
- Cluster.Without: a nil snapshot, on which the source panics when it reads `clstr.prefer`, is not an input; the snapshot is a `Cluster` value.
- Cluster.Without: the model builds fresh sequences. The source's `prefer` and `fallback` slices may share backing arrays with the old snapshot; that aliasing is not modelled.
- BalancerConfig.CreateFromConfig: JSON decoding is left out. The decoded document, or `None` for a decode failure, is an input. Error messages are named error values without their text.
- BalancerConfig.PreferLocations: the bodies of `balancers.PreferLocations` and `PreferLocationsWithFallback` are not part of this model. The policy records the decoded list as it is and does not model how those functions use it.
- BalancerConfig.FromConfig: the error handler is modelled as the list of errors it is called with. `balancerConfig.Config` is a datatype of its strategy, locality and fallback flag.
- DecimalText.Format: requires `precision <= 37`, so precision 38 is not covered. There the 40-byte buffer overflows only for a negative value with scale 38: its 38 digits, the point, the zero before it and the sign take 41 bytes. Above precision 38 the buffer behaviour is not modelled either. A nil `*big.Int` is not modelled.
- DecimalBytes: `wordSize` is fixed at 8 bytes (a 64-bit platform). `*big.Int` aliasing (`put` writing through `complement`'s copy) is not modelled.
- DecimalBytes.Ensure: spare capacity of the input slice is not modelled. The new bytes are zero, and `put` overwrites all of them.
- DecimalText.Parse and DecimalBytes.FromBytes: the unused `scale` parameter of `FromBytes` and the error texts of `Parse` are not modelled. The errors are named values.
- SqlLexer: the source is a sequence of runes, each of width one. Multi-byte UTF-8 widths are not modelled, and invalid UTF-8 is modelled as the `RuneError` character itself.
- SqlLexer: the state functions are a datatype of the states, not function values.
- NumericArgs.NumericArgState: `strconv.Atoi` overflow, which panics in the source, is not modelled. A digit run is read as an unbounded number.
- NumericArgs.RewriteQuery: the type assertion to `table.ParameterOption` cannot fail, because every bound argument is a parameter, so its panic is not modelled.
- BindParams: `toValue` (the Go-to-YDB value conversion, `toType`, `asUUID`) is a parameter, and only its success or error is used.
- BindParams.Params: a `*params.Params` argument shares its backing array with the result, so the source's sort also reorders the caller's list. The model works on values and does not capture that aliasing.
- BindParams.Params: `sort.Slice` is modelled as an insertion sort. The contract states only what `sort.Slice` guarantees: sorted by name and a permutation. It does not state the relative order of equal names.
- TopicReader: times and codecs are not modelled; the write-session metadata and the byte payloads are copied as they are. `rawoptional.Duration` and `rawoptional.Time` (`MaxLag` and `ReadFrom`) are not part of this model, and neither is `WriteTimeHighWatermark`.
- TopicReader.ReadResponse.FromProto: on an error the source leaves a partly filled `PartitionData`. The model states only the error and the byte size in that case.
- TopicReader.CommitOffsetResponse.FromProto: on an error the partly filled list is not stated.
- YdbIssues.IssueFromProto: when the nested issues fail to copy, the source's receiver already holds the code and message and a partly filled issue list; that receiver state is not modelled. The result is the error alone.
- YdbIssues.IssuesFromProto: on an error the partly filled issue list is not modelled. The result is the error alone.
- YdbIssues.IssueString: `fmt.Sprintf("%v")` is modelled for a string message and a decimal code only.
- TopicCommon: `rawtopiccommon.Offset` is the `int64` it wraps. Its own file is not part of this model.
- `UpdateTokenRequest`/`UpdateTokenResponse` and the message interfaces are not modelled. They carry no logic.

## Findings

| source | as written | input that shows it | evidently intended | confidence | as-written member | corrected member |
|---|---|---|---|---|---|---|
| internal/decimal/decimal.go:150-157 | `integral` is decremented for every integral digit, leading zeros included, and wraps around as `uint32` once it reaches 0 at a zero digit | `Parse("01.5", 2, 1)` is infinity; `Parse("0001234", 2, 0)` is 1234, a 4-digit value in Decimal(2,0) | only significant digits count, so every finite result has at most `precision` digits | not executed | DecimalText.ParseLeadingZeroOverflows | DecimalText.ParseSignificantFits |
| internal/decimal/decimal.go:251-267 | with value 0 and scale 0 neither loop writes, and `bts[pos]` is read with `pos == len(bts)` | `Format(0, p, 0)` | the text `0` | not executed | DecimalText.FormatZeroWithoutScale | DecimalText.FormatParseRoundTrip |
| internal/decimal/decimal.go:64-71 | a set sign bit is complemented over the words of the unsigned value, not over the input's bytes | `FromBytes([]byte{0xff}, 10, 0)` is negative infinity | two's complement over the input, giving -1 | not executed | DecimalBytes.FromBytesShortNegative | DecimalBytes.TwosComplementRoundTrip |
