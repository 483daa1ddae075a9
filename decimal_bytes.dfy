/** The binary side of the YDB Decimal codec: a value travels as 16 bytes of
    big-endian two's complement (`FromInt128`, `BigIntToByte`), and `Append`
    writes the 64-bit words of a value. A `big.Int` is an unbounded `int`;
    its `Bits()` are the 64-bit words of its magnitude, least significant
    first (the word size is fixed at 8 bytes). */
module DecimalBytes {
  import opened Wrappers
  import opened Decimal

  type byte = x: int | 0 <= x < 256

  /** `wordSize`. */
  const WordSize: nat := 8
  /** 2^64, one more than the largest word. */
  const WordBase: nat := 0x1_0000_0000_0000_0000
  /** 2^127: the first value a 16-byte two's complement cannot hold. */
  const Half128: nat := 0x8000_0000_0000_0000_0000_0000_0000_0000
  /** `negMask`: the sign bit of the leading byte. */
  const NegMask: byte := 0x80

  // ---------------------------------------------------------------------------
  // Bytes and words
  // ---------------------------------------------------------------------------

  /** `SetBytes`: the big-endian unsigned value of `bts`. */
  function BytesValue(bts: seq<byte>): nat {
    if bts == [] then 0 else BytesValue(bts[..|bts| - 1]) * 256 + bts[|bts| - 1]
  }

  /** The last `w` bytes of `n`, big-endian. */
  function ToBytes(n: nat, w: nat): (r: seq<byte>)
    ensures |r| == w
  {
    if w == 0 then [] else ToBytes(n / 256, w - 1) + [n % 256]
  }

  /** `n` without its last `k` bytes: `n / 256^k` (see `DropBytesIsDiv`). */
  function DropBytes(n: nat, k: nat): nat {
    if k == 0 then n else DropBytes(n / 256, k - 1)
  }

  function Repeat(b: byte, n: nat): (r: seq<byte>)
    ensures |r| == n && forall i :: 0 <= i < n ==> r[i] == b
  {
    if n == 0 then [] else [b] + Repeat(b, n - 1)
  }

  /** `len(x.Bits())`: the number of 64-bit words of a magnitude. */
  function WordCount(v: nat): nat {
    if v == 0 then 0 else 1 + WordCount(v / WordBase)
  }

  /** `x.Bits()`: the words of a magnitude, least significant first. */
  function Words(v: nat): (r: seq<nat>)
    ensures |r| == WordCount(v)
    ensures forall i :: 0 <= i < |r| ==> r[i] < WordBase
  {
    if v == 0 then [] else [v % WordBase] + Words(v / WordBase)
  }

  /** The magnitude a word slice stands for. */
  function WordsValue(ws: seq<nat>): nat {
    if ws == [] then 0 else ws[0] + WordBase * WordsValue(ws[1..])
  }

  // ---------------------------------------------------------------------------
  // `not` and `complement`
  // ---------------------------------------------------------------------------

  /** `not`: every word of the magnitude flipped in place; the sign is left
      alone. */
  method Not(abs: array<nat>)
    requires forall i :: 0 <= i < abs.Length ==> abs[i] < WordBase
    modifies abs
    ensures forall i :: 0 <= i < abs.Length ==> abs[i] == WordBase - 1 - old(abs[i])
  {
    for i := 0 to abs.Length
      invariant forall j :: 0 <= j < i ==> abs[j] == WordBase - 1 - old(abs[j])
      invariant forall j :: i <= j < abs.Length ==> abs[j] == old(abs[j])
    {
      abs[i] := WordBase - 1 - abs[i];
    }
  }

  /** `not` applied to a `big.Int` of magnitude `v`: the words of `v` are
      exposed, flipped and read back. */
  method NotMagnitude(v: nat) returns (r: nat)
    ensures r == Power(WordBase, WordCount(v)) - 1 - v
  {
    var ws := Words(v);
    var abs := new nat[|ws|](i requires 0 <= i < |ws| => ws[i]);
    assert abs[..] == ws;
    Not(abs);
    r := WordsValue(abs[..]);
    NotValue(ws, abs[..]);
    WordsRoundTrip(v);
  }

  /** The two's complement `complement` computes for a negative value: over
      exactly the words of its magnitude. */
  function ComplementOf(x: int): (c: nat)
    requires x < 0
  {
    WordCountBound(-x, WordCount(-x));
    Power(WordBase, WordCount(-x)) + x
  }

  /** `complement`: a copy of `x`, its words flipped, negated, plus one. */
  method Complement(x: int) returns (c: int)
    requires x < 0
    ensures c == ComplementOf(x)
    ensures 0 < c < Power(WordBase, WordCount(-x))
  {
    var m := NotMagnitude(-x);
    var y := -(m as int);
    y := -y;
    c := y + 1;
    WordCountBound(-x, WordCount(-x));
  }

  /** What `put` writes the words of: the value, or its complement. */
  function Encoded(x: int): nat {
    if x < 0 then ComplementOf(x) else x
  }

  // ---------------------------------------------------------------------------
  // `FromBytes`, `FromInt128`
  // ---------------------------------------------------------------------------

  /** `FromBytes` as a function: a set sign bit subtracts 2^64 to the number of
      words of the unsigned value, and a magnitude from 10^precision up is
      infinity of the bytes' sign. */
  function FromBytesSpec(bts: seq<byte>, precision: uint32): int {
    if bts == [] then 0
    else
      var u := BytesValue(bts);
      var neg := bts[0] >= NegMask;
      var v := if neg then u - Power(WordBase, WordCount(u)) else u;
      if Abs(v) >= Power(10, precision as nat) then Signed(neg, Inf) else v
  }

  /** `FromBytes`, as the source writes it. */
  method FromBytes(bts: seq<byte>, precision: uint32, scale: uint32) returns (v: int)
    ensures v == FromBytesSpec(bts, precision)
  {
    if |bts| == 0 {
      return 0;
    }
    v := BytesValue(bts);
    var neg := bts[0] >= NegMask;
    if neg {
      var m := NotMagnitude(v);
      v := m + 1;
      v := -v;
    }
    var limit := Pow(10, precision);
    if Abs(v) >= limit {
      v := if neg then -Inf else Inf;
    }
  }

  /** Two's complement over all of `bts`, as the format intends. */
  function TwosComplement(bts: seq<byte>): int
    requires bts != []
  {
    BytesValue(bts) - (if bts[0] >= NegMask then Power(256, |bts|) else 0)
  }

  /** The intended decoding: two's complement over the whole input, then the
      same clamping to infinity. */
  function FromBytesIntended(bts: seq<byte>, precision: uint32): int {
    if bts == [] then 0
    else
      var v := TwosComplement(bts);
      if Abs(v) >= Power(10, precision as nat) then Signed(bts[0] >= NegMask, Inf) else v
  }

  /** `FromInt128`: `FromBytes` over the 16 bytes, which decodes as intended. */
  method FromInt128(p: seq<byte>, precision: uint32, scale: uint32) returns (v: int)
    requires |p| == 16
    ensures v == FromBytesIntended(p, precision)
  {
    v := FromBytes(p, precision, scale);
    FromBytesWholeWords(p, precision);
  }

  // ---------------------------------------------------------------------------
  // `BigIntToByte`, `put`, `Append`, `size`
  // ---------------------------------------------------------------------------

  /** `BigIntToByte`'s clamping: a finite non-error value of `precision` digits
      or more becomes infinity of its sign. */
  function Clamp(x: int, precision: uint32): int {
    if !IsInf(x) && !IsNaN(x) && !IsErr(x) && Abs(x) >= Power(10, precision as nat) then Signed(x < 0, Inf)
    else x
  }

  /** `put` stays inside `data` exactly when the words it writes fit. */
  predicate PutFits(x: int, length: nat) {
    8 * WordCount(Encoded(x)) <= length
  }

  /** What `put` leaves in `data`: the words of the encoded value at the end,
      and, once anything was written, the sign's pad byte before them. */
  function PutSpec(x: int, data: seq<byte>): seq<byte>
    requires PutFits(x, |data|)
  {
    var w := 8 * WordCount(Encoded(x));
    if w == 0 then data
    else Repeat(if x < 0 then 0xff else 0, |data| - w) + ToBytes(Encoded(x), w)
  }

  /** `put`, as the source writes it: the words, then the padding. */
  method Put(x: int, data: array<byte>)
    requires PutFits(x, data.Length)
    modifies data
    ensures data[..] == PutSpec(x, old(data[..]))
  {
    var neg := x < 0;
    var y := x;
    if neg {
      y := Complement(x);
    }
    assert y == Encoded(x);
    ghost var before := data[..];
    var i := PutWords(y, data);
    ghost var words := data[..];
    assert words[..i] == before[..i];
    var pad: byte := if neg then 0xff else 0;
    PadFront(data, i, pad);
    assert data[i..] == words[i..];
  }

  /** `put`'s last loop: once a word was written (`i` short of the end), the
      cells before `i` become `pad`. */
  method PadFront(data: array<byte>, i: nat, pad: byte)
    requires i <= data.Length
    modifies data
    ensures i == data.Length ==> data[..] == old(data[..])
    ensures i < data.Length ==> data[..] == Repeat(pad, i) + old(data[i..])
  {
    var k := i;
    while 0 < k && k < data.Length
      invariant 0 <= k <= i
      invariant i == data.Length ==> k == i
      invariant forall m :: k <= m < i ==> data[m] == pad
      invariant forall m :: 0 <= m < k || i <= m < data.Length ==> data[m] == old(data[m])
    {
      k := k - 1;
      data[k] := pad;
    }
    if i < data.Length {
      assert k == 0;
      assert data[..] == Repeat(pad, i) + old(data[i..]);
    }
  }

  /** `put`'s outer loop: each word of `y`, least significant first, written
      backwards from the end of `data`. */
  method PutWords(y: nat, data: array<byte>) returns (i: int)
    requires 8 * WordCount(y) <= data.Length
    modifies data
    ensures i == data.Length - 8 * WordCount(y)
    ensures data[i..] == ToBytes(y, 8 * WordCount(y))
    ensures forall j :: 0 <= j < i ==> data[j] == old(data[j])
  {
    var ws := Words(y);
    i := data.Length;
    for k := 0 to |ws|
      invariant i == data.Length - 8 * k
      invariant data[i..] == ToBytes(y, 8 * k)
      invariant forall j :: 0 <= j < i ==> data[j] == old(data[j])
    {
      PutWord(ws[k], data, i);
      WordBytes(y, k);
      i := i - 8;
    }
  }

  /** `put`'s inner loop: the eight bytes of word `d`, least significant
      first, in the cells just before `end`. */
  method PutWord(d: nat, data: array<byte>, end: nat)
    requires 8 <= end <= data.Length
    modifies data
    ensures data[end - 8..] == ToBytes(d, 8) + old(data[end..])
    ensures forall j :: 0 <= j < end - 8 ==> data[j] == old(data[j])
  {
    var i := end;
    var v := d;
    ghost var tail := data[end..];
    for j := 0 to WordSize
      invariant i == end - j
      invariant v == DropBytes(d, j)
      invariant data[i..] == ToBytes(d, j) + tail
      invariant forall m :: 0 <= m < i ==> data[m] == old(data[m])
    {
      ghost var before := data[i..];
      i := i - 1;
      data[i] := v % 256;
      assert data[i..] == [v % 256] + before;
      PutWordStep(d, j, v, tail, before, data[i..]);
      v := v / 256;
    }
  }

  /** One turn of `put`'s inner loop: the byte written before the ones so
      far is the next byte of `d`. */
  lemma PutWordStep(d: nat, j: nat, v: nat, tail: seq<byte>, before: seq<byte>, after: seq<byte>)
    requires v == DropBytes(d, j) && before == ToBytes(d, j) + tail && after == [v % 256] + before
    ensures after == ToBytes(d, j + 1) + tail && v / 256 == DropBytes(d, j + 1)
  {
    ToBytesPrepend(d, j);
    DropBytesStep(d, j);
    assert [v % 256] + (ToBytes(d, j) + tail) == [v % 256] + ToBytes(d, j) + tail;
  }

  /** `BigIntToByte`: the clamped value `put` into a zeroed 16-byte array.
      `None` is the panic of `put` indexing below the array when the clamped
      value needs more than two words, which a precision above 38 lets
      through; up to precision 38 the value always fits. */
  method BigIntToByte(x: int, precision: uint32, scale: uint32) returns (p: Option<seq<byte>>)
    ensures p.None? <==> !PutFits(Clamp(x, precision), 16)
    ensures p.Some? ==> p.value == PutSpec(Clamp(x, precision), Repeat(0, 16))
    ensures precision <= 38 ==> p.Some?
  {
    var y := x;
    if !IsInf(x) && !IsNaN(x) && !IsErr(x) {
      var limit := Pow(10, precision);
      if Abs(x) >= limit {
        y := if x < 0 then -Inf else Inf;
      }
    }
    if precision <= 38 {
      ClampFits(x, precision);
      PutTwosComplement(y);
    }
    if Size(y) > 16 {
      return None;
    }
    var data := new byte[16](_ => 0);
    assert data[..] == Repeat(0, 16);
    Put(y, data);
    return Some(data[..]);
  }

  /** Above precision 38 the clamp lets through values that need three
      words: `10^39 - 1` at precision 39 makes `put` panic. */
  lemma PutPanicsAbovePrecision38()
    ensures !PutFits(Clamp(Power(10, 39) - 1, 39), 16)
  {
    InfIsPower();
    PowerAdd(10, 35, 4);
    var x := Power(10, 39) - 1;
    assert x == Inf * 10000 - 1;
    assert Clamp(x, 39) == x;
    assert x / WordBase / WordBase > 0;
    assert WordCount(x) >= 3;
  }

  /** `size`: the bytes `put` writes for `x`. */
  function Size(x: int): (n: nat)
    ensures n % 8 == 0
    ensures PutFits(x, n)
  {
    8 * WordCount(Encoded(x))
  }

  /** `Append`: `p` grown by `size(x)` bytes, all of which `put` fills. */
  method Append(p: seq<byte>, x: int) returns (r: seq<byte>)
    ensures r == p + ToBytes(Encoded(x), Size(x))
  {
    var n := |p|;
    var grown := Ensure(p, Size(x));
    var data := new byte[|grown| - n](i requires 0 <= i < |grown| - n => grown[n + i]);
    Put(x, data);
    assert data[..] == ToBytes(Encoded(x), Size(x));
    r := grown[..n] + data[..];
  }

  /** `ensure`: `additional` more bytes; fresh ones are zero, and whatever
      spare capacity held is left out here because `put` overwrites it. */
  method Ensure(data: seq<byte>, additional: nat) returns (r: seq<byte>)
    ensures |r| == |data| + additional && r[..|data|] == data
  {
    r := data + Repeat(0, additional);
  }

  // ---------------------------------------------------------------------------
  // Lemmas: words and bytes
  // ---------------------------------------------------------------------------

  lemma {:induction false} WordsRoundTrip(v: nat)
    ensures WordsValue(Words(v)) == v
  {
    if v > 0 {
      WordsRoundTrip(v / WordBase);
      assert Words(v)[1..] == Words(v / WordBase);
    }
  }

  /** Flipping every word subtracts the magnitude from the all-ones value of
      the same width. */
  lemma {:induction false} NotValue(ws: seq<nat>, flipped: seq<nat>)
    requires |flipped| == |ws|
    requires forall i :: 0 <= i < |ws| ==> ws[i] < WordBase && flipped[i] == WordBase - 1 - ws[i]
    ensures WordsValue(flipped) == Power(WordBase, |ws|) - 1 - WordsValue(ws)
  {
    if ws != [] {
      NotValue(ws[1..], flipped[1..]);
      var p := Power(WordBase, |ws| - 1);
      var v := WordsValue(ws[1..]);
      assert WordsValue(flipped) == WordBase - 1 - ws[0] + WordBase * (p - 1 - v);
      assert WordBase * (p - 1 - v) == WordBase * p - WordBase - WordBase * v;
    }
  }

  /** A magnitude has at most `n` words exactly when it is below 2^(64 n). */
  lemma {:induction false} WordCountBound(v: nat, n: nat)
    ensures WordCount(v) <= n <==> v < Power(WordBase, n)
  {
    if v == 0 {
    } else if n > 0 {
      WordCountBound(v / WordBase, n - 1);
    }
  }

  lemma {:induction false} DropBytesStep(n: nat, k: nat)
    ensures DropBytes(n, k + 1) == DropBytes(n, k) / 256
  {
    if k > 0 {
      DropBytesStep(n / 256, k - 1);
    }
  }

  lemma {:induction false} DropBytesAdd(n: nat, s: nat, t: nat)
    ensures DropBytes(DropBytes(n, s), t) == DropBytes(n, s + t)
  {
    if s > 0 {
      DropBytesAdd(n / 256, s - 1, t);
    }
  }

  /** Dropping `k` bytes is dividing by 256^k. */
  lemma {:induction false} DropBytesIsDiv(n: nat, k: nat)
    ensures DropBytes(n, k) == n / Power(256, k)
  {
    if k > 0 {
      DropBytesIsDiv(n / 256, k - 1);
      DivDiv(n, 256, Power(256, k - 1));
    } else {
      assert Power(256, 0) == 1;
    }
  }

  /** A word is eight bytes. */
  lemma WordIsEightBytes()
    ensures Power(256, 8) == WordBase
  {
    assert Power(256, 2) == 65536;
    assert Power(256, 4) == 65536 * 65536 by {
      PowerAdd(256, 2, 2);
    }
    PowerAdd(256, 4, 4);
  }

  lemma {:induction false} WordsAreBytes(n: nat)
    ensures Power(256, 8 * n) == Power(WordBase, n)
  {
    if n > 0 {
      WordsAreBytes(n - 1);
      PowerAdd(256, 8, 8 * (n - 1));
      WordIsEightBytes();
      assert 8 * n == 8 + 8 * (n - 1);
    }
  }

  /** `put`'s inner loop prepends the next byte. */
  lemma {:induction false} ToBytesPrepend(n: nat, k: nat)
    ensures ToBytes(n, k + 1) == [DropBytes(n, k) % 256] + ToBytes(n, k)
  {
    if k > 0 {
      ToBytesPrepend(n / 256, k - 1);
    }
  }

  /** The last `m + t` bytes are the `t` bytes above the last `m`. */
  lemma {:induction false} ToBytesSplit(n: nat, m: nat, t: nat)
    ensures ToBytes(n, m + t) == ToBytes(DropBytes(n, m), t) + ToBytes(n, m)
  {
    if m > 0 {
      ToBytesSplit(n / 256, m - 1, t);
      assert m + t - 1 == m - 1 + t;
    } else {
      assert ToBytes(n, 0) == [];
    }
  }

  /** The last `w` bytes only depend on the value modulo 256^w. */
  lemma {:induction false} ToBytesMod(n: nat, w: nat)
    ensures ToBytes(n, w) == ToBytes(n % Power(256, w), w)
  {
    if w > 0 {
      var p := Power(256, w - 1);
      var m := n % (256 * p);
      ModStep(n, p);
      ToBytesMod(n / 256, w - 1);
      assert ToBytes(m, w) == ToBytes(m / 256, w - 1) + [m % 256];
    }
  }

  lemma ModStep(n: nat, p: nat)
    requires p > 0
    ensures (n % (256 * p)) / 256 == (n / 256) % p
    ensures (n % (256 * p)) % 256 == n % 256
  {
    DivDiv(n, 256, p);
    DivUnique(n % (256 * p), 256, (n / 256) % p, n % 256);
  }

  /** Two words further up: dropping eight bytes is dropping a word. */
  lemma {:induction false} DropWords(c: nat, k: nat)
    ensures DropBytes(c, 8 * k) == c / Power(WordBase, k)
  {
    DropBytesIsDiv(c, 8 * k);
    WordsAreBytes(k);
  }

  /** Word `k` of a magnitude is its bytes `8k` to `8k + 7`. */
  lemma {:induction false} WordAt(c: nat, k: nat)
    requires k < WordCount(c)
    ensures Words(c)[k] == DropBytes(c, 8 * k) % WordBase
  {
    if k > 0 {
      WordAt(c / WordBase, k - 1);
      DropBytesAdd(c, 8, 8 * (k - 1));
      DropWords(c, 1);
      assert Power(WordBase, 1) == WordBase;
      assert 8 + 8 * (k - 1) == 8 * k;
    } else {
      assert DropBytes(c, 0) == c;
    }
  }

  /** One round of `put`'s outer loop: word `k`'s eight bytes go in front. */
  lemma WordBytes(c: nat, k: nat)
    requires k < WordCount(c)
    ensures ToBytes(Words(c)[k], 8) + ToBytes(c, 8 * k) == ToBytes(c, 8 * (k + 1))
  {
    ToBytesSplit(c, 8 * k, 8);
    WordAt(c, k);
    ToBytesMod(DropBytes(c, 8 * k), 8);
    ToBytesMod(Words(c)[k], 8);
    WordIsEightBytes();
    assert Words(c)[k] % WordBase == Words(c)[k];
    assert 8 * k + 8 == 8 * (k + 1);
  }

  /** The bytes of a value read back as the value modulo 256^w. */
  lemma {:induction false} BytesValueOf(n: nat, w: nat)
    ensures BytesValue(ToBytes(n, w)) == n % Power(256, w)
  {
    if w > 0 {
      var p := Power(256, w - 1);
      BytesValueOf(n / 256, w - 1);
      assert ToBytes(n, w)[..w - 1] == ToBytes(n / 256, w - 1);
      DivDiv(n, 256, p);
    } else {
      assert n % 1 == 0;
    }
  }

  lemma {:induction false} BytesAppend(a: seq<byte>, b: seq<byte>)
    ensures BytesValue(a + b) == BytesValue(a) * Power(256, |b|) + BytesValue(b)
  {
    if b != [] {
      var b' := b[..|b| - 1];
      assert (a + b)[..|a + b| - 1] == a + b';
      assert (a + b)[|a + b| - 1] == b[|b| - 1];
      BytesAppend(a, b');
      ShiftAppend(BytesValue(a), Power(256, |b'|), BytesValue(b'), 256, b[|b| - 1]);
    } else {
      assert a + b == a;
    }
  }

  lemma {:induction false} BytesBound(bts: seq<byte>)
    ensures BytesValue(bts) < Power(256, |bts|)
  {
    if bts != [] {
      BytesBound(bts[..|bts| - 1]);
    }
  }

  /** The sign bit of the leading byte is set exactly when the unsigned value
      reaches half the range. */
  lemma SignBit(bts: seq<byte>)
    requires bts != []
    ensures bts[0] >= NegMask <==> 2 * BytesValue(bts) >= Power(256, |bts|)
  {
    var rest := bts[1..];
    var p := Power(256, |rest|);
    assert bts == [bts[0]] + rest;
    BytesAppend([bts[0]], rest);
    assert BytesValue([bts[0]]) == bts[0] by {
      assert [bts[0]][..0] == [];
    }
    BytesBound(rest);
    assert Power(256, |bts|) == 256 * p;
    if bts[0] >= NegMask {
      MulMonotone(bts[0], 128, p);
    } else {
      MulMonotone(127, bts[0], p);
    }
  }

  lemma {:induction false} AllOnes(k: nat)
    ensures ToBytes(Power(256, k) - 1, k) == Repeat(0xff, k)
  {
    if k > 0 {
      var p := Power(256, k - 1);
      DivUnique(Power(256, k) - 1, 256, p - 1, 255);
      AllOnes(k - 1);
      assert Repeat(0xff, k) == Repeat(0xff, k - 1) + [0xff];
    }
  }

  lemma {:induction false} ToBytesZero(k: nat)
    ensures ToBytes(0, k) == Repeat(0, k)
  {
    if k > 0 {
      ToBytesZero(k - 1);
      assert Repeat(0, k) == Repeat(0, k - 1) + [0];
    }
  }

  // ---------------------------------------------------------------------------
  // Lemmas: the 16-byte encoding
  // ---------------------------------------------------------------------------

  /** 128-bit two's complement of a value in range. */
  function Wrap128(x: int): nat
    requires -(Half128 as int) <= x < Half128
  {
    if x < 0 then x + 2 * Half128 else x
  }

  lemma Range128()
    ensures Power(WordBase, 2) == 2 * Half128
    ensures Power(256, 16) == 2 * Half128
    ensures WordBase <= Half128
  {
    WordsAreBytes(2);
  }

  /** `put` into 16 zero bytes writes 128-bit two's complement for every value
      that 16 bytes can hold. */
  lemma PutTwosComplement(x: int)
    requires -(Half128 as int) <= x < Half128
    ensures PutFits(x, 16)
    ensures PutSpec(x, Repeat(0, 16)) == ToBytes(Wrap128(x), 16)
  {
    Range128();
    if x >= 0 {
      PutNonNegative(x);
    } else if -x < WordBase {
      PutOneWordNegative(x);
    } else {
      PutTwoWordNegative(x);
    }
  }

  lemma PutNonNegative(x: nat)
    requires x < Half128
    ensures PutFits(x, 16)
    ensures PutSpec(x, Repeat(0, 16)) == ToBytes(x, 16)
  {
    Range128();
    var n := WordCount(x);
    WordCountBound(x, 2);
    WordCountBound(x, n);
    var w := 8 * n;
    ToBytesSplit(x, w, 16 - w);
    DropWords(x, n);
    DivBounds(x, Power(WordBase, n));
    ToBytesZero(16 - w);
    if n == 0 {
      ToBytesZero(16);
    }
  }

  lemma PutOneWordNegative(x: int)
    requires -(WordBase as int) < x < 0
    ensures PutFits(x, 16)
    ensures PutSpec(x, Repeat(0, 16)) == ToBytes(x + 2 * Half128, 16)
  {
    Range128();
    WordCountBound(-x, 0);
    WordCountBound(-x, 1);
    assert WordCount(-x) == 1;
    assert Power(WordBase, 1) == WordBase;
    var c := WordBase + x;
    assert Encoded(x) == c;
    WordCountBound(c, 0);
    WordCountBound(c, 1);
    var v := x + 2 * Half128;
    assert v == WordBase * (WordBase - 1) + c;
    ToBytesSplit(v, 8, 8);
    DropWords(v, 1);
    DivUnique(v, WordBase, WordBase - 1, c);
    ToBytesMod(v, 8);
    ToBytesMod(c, 8);
    WordIsEightBytes();
    WordIsEightBytes();
    AllOnes(8);
  }

  lemma PutTwoWordNegative(x: int)
    requires -(Half128 as int) <= x <= -(WordBase as int)
    ensures PutFits(x, 16)
    ensures PutSpec(x, Repeat(0, 16)) == ToBytes(x + 2 * Half128, 16)
  {
    Range128();
    WordCountBound(-x, 1);
    WordCountBound(-x, 2);
    assert Power(WordBase, 1) == WordBase;
    var c := 2 * Half128 + x;
    assert Encoded(x) == c;
    WordCountBound(c, 1);
    WordCountBound(c, 2);
  }

  /** Sixteen bytes of two's complement decode to the value, clamped. */
  lemma ReadTwosComplement(x: int, precision: uint32)
    requires -(Half128 as int) <= x < Half128
    ensures FromBytesIntended(ToBytes(Wrap128(x), 16), precision)
            == if Abs(x) >= Power(10, precision as nat) then Signed(x < 0, Inf) else x
  {
    Range128();
    var bts := ToBytes(Wrap128(x), 16);
    BytesValueOf(Wrap128(x), 16);
    DivUnique(Wrap128(x), 2 * Half128, 0, Wrap128(x));
    SignBit(bts);
  }

  /** On whole words `FromBytes` is two's complement. */
  lemma FromBytesWholeWords(bts: seq<byte>, precision: uint32)
    requires |bts| % 8 == 0
    ensures FromBytesSpec(bts, precision) == FromBytesIntended(bts, precision)
  {
    if bts != [] && bts[0] >= NegMask {
      var u := BytesValue(bts);
      var m := |bts| / 8;
      SignBit(bts);
      BytesBound(bts);
      WordsAreBytes(m);
      WordsAreBytes(m - 1);
      assert |bts| == 8 * m;
      PowerAdd(256, 8 * (m - 1), 8);
      WordIsEightBytes();
      assert Power(256, |bts|) == Power(WordBase, m - 1) * WordBase;
      WordCountBound(u, m);
      WordCountBound(u, m - 1);
    }
  }

  /** Every clamped value of at most 38 digits fits the 16 bytes. */
  lemma ClampFits(x: int, precision: uint32)
    requires precision <= 38
    ensures -(Half128 as int) <= Clamp(x, precision) < Half128
  {
    InfIsPower();
    PowerMonotone(10, precision as nat, 38);
    PowerAdd(10, 35, 3);
    var y := Clamp(x, precision);
    assert Abs(y) <= ErrValue || Abs(y) < Power(10, precision as nat);
  }

  /** `FromInt128(BigIntToByte(x))` is `x` for a value of at most `precision`
      digits, and infinity of its sign otherwise. */
  lemma Int128RoundTrip(x: int, precision: uint32)
    requires precision <= 38
    ensures PutFits(Clamp(x, precision), 16)
    ensures FromBytesIntended(PutSpec(Clamp(x, precision), Repeat(0, 16)), precision)
            == if Abs(x) >= Power(10, precision as nat) then Signed(x < 0, Inf) else x
  {
    var y := Clamp(x, precision);
    ClampFits(x, precision);
    PutTwosComplement(y);
    ReadTwosComplement(y, precision);
    InfIsPower();
  }

  /** The intended decoding inverts two's complement at any width. */
  lemma TwosComplementRoundTrip(x: int, w: nat)
    requires w > 0 && -Power(256, w) <= 2 * x < Power(256, w)
    ensures TwosComplement(ToBytes(if x < 0 then x + Power(256, w) else x, w)) == x
  {
    var v := if x < 0 then x + Power(256, w) else x;
    BytesValueOf(v, w);
    DivUnique(v, Power(256, w), 0, v);
    SignBit(ToBytes(v, w));
  }

  // ---------------------------------------------------------------------------
  // Findings and examples
  // ---------------------------------------------------------------------------

  /** A negative value in fewer bytes than a word: `FromBytes` complements a
      whole word, so one `0xff` byte reads as negative infinity, not -1. */
  lemma FromBytesShortNegative()
    ensures FromBytesSpec([0xff], 10) == -Inf
    ensures FromBytesIntended([0xff], 10) == -1
  {
    assert BytesValue([0xff]) == 255 by {
      assert [0xff][..0] == [];
    }
    assert WordCount(255) == 1;
    assert Power(WordBase, 1) == WordBase;
    assert Power(256, 1) == 256;
    assert Power(10, 10) == 10000000000;
  }

  /** `Append` writes the words with no sign byte: a non-negative value reads
      back when the top bit of its last word is clear. */
  lemma AppendRoundTrip(x: nat, precision: uint32)
    requires 2 * x < Power(WordBase, WordCount(x))
    ensures FromBytesSpec(ToBytes(x, Size(x)), precision)
            == if x >= Power(10, precision as nat) then Inf else x
  {
    var n := WordCount(x);
    var bts := ToBytes(x, 8 * n);
    WordsAreBytes(n);
    WordCountBound(x, n);
    if n > 0 {
      BytesValueOf(x, 8 * n);
      DivUnique(x, Power(256, 8 * n), 0, x);
      SignBit(bts);
    }
  }

  /** The same for a negative value whose magnitude is at most half its word
      range: its complement has the top bit set. */
  lemma AppendRoundTripNegative(x: int, precision: uint32)
    requires x < 0 && -2 * x <= Power(WordBase, WordCount(-x))
    ensures FromBytesSpec(ToBytes(Encoded(x), Size(x)), precision)
            == if -x >= Power(10, precision as nat) then -Inf else x
  {
    var n := WordCount(-x);
    var p := Power(WordBase, n);
    var c := Encoded(x);
    WordCountBound(-x, n);
    WordCountBound(c, n);
    assert n > 0;
    WordCountBound(c, n - 1);
    assert Power(WordBase, n) == WordBase * Power(WordBase, n - 1);
    assert WordCount(c) == n;
    var bts := ToBytes(c, 8 * n);
    WordsAreBytes(n);
    BytesValueOf(c, 8 * n);
    DivUnique(c, p, 0, c);
    SignBit(bts);
  }

  /** 2^63 fills its only word, so `Append` makes it read back negative. */
  lemma AppendTopBitFlips()
    ensures FromBytesSpec(ToBytes(0x8000_0000_0000_0000, Size(0x8000_0000_0000_0000)), 30)
            == -0x8000_0000_0000_0000
  {
    var x := 0x8000_0000_0000_0000;
    var bts := ToBytes(x, 8);
    TopBitWord();
    WordIsEightBytes();
    BytesValueOf(x, 8);
    DivUnique(x, WordBase, 0, x);
    SignBit(bts);
    TenToThirty();
  }

  lemma TopBitWord()
    ensures WordCount(0x8000_0000_0000_0000) == 1
    ensures Size(0x8000_0000_0000_0000) == 8
    ensures Power(WordBase, 1) == WordBase
  {
    assert 0x8000_0000_0000_0000 / WordBase == 0;
  }

  lemma TenToThirty()
    ensures Power(10, 30) > WordBase
  {
    assert Power(10, 5) == 100000;
    PowerAdd(10, 5, 5);
    PowerAdd(10, 10, 10);
    PowerAdd(10, 20, 10);
  }

  /** The codec's test vectors at precision 22: all ones is -1, the high word
      of ones is -2^64, 2^126 is beyond the precision and so is -2^127. */
  lemma FromInt128Examples()
    ensures FromBytesIntended(ToBytes(Wrap128(-1), 16), 22) == -1
    ensures FromBytesIntended(ToBytes(Wrap128(-(WordBase as int)), 16), 22) == -(WordBase as int)
    ensures FromBytesIntended(ToBytes(Wrap128(Half128 / 2), 16), 22) == Inf
    ensures FromBytesIntended(ToBytes(Wrap128(-(Half128 as int)), 16), 22) == -Inf
    ensures FromBytesIntended(ToBytes(Wrap128(1000000000), 16), 22) == 1000000000
  {
    var p := Power(10, 22);
    assert p == 10000000000000000000000 by {
      PowerAdd(10, 11, 11);
      assert Power(10, 11) == 100000000000;
    }
    ReadTwosComplement(-1, 22);
    ReadTwosComplement(-(WordBase as int), 22);
    ReadTwosComplement(Half128 / 2, 22);
    ReadTwosComplement(-(Half128 as int), 22);
    ReadTwosComplement(1000000000, 22);
  }
}
