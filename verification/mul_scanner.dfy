/** Day 3: a corrupted memory dump. Part 1 adds up the products of every
    well-formed `mul(a,b)` instruction; part 2 also skips each region from
    `don't()` through the next `do()` (or to the end of the dump). */
module MulScanner {
  import opened Wrappers
  import opened TextLines

  /** Values of nom's `u32` parser are below 2^32; larger numbers are a
      parse error, not a wrap-around. */
  const U32Limit: nat := 0x1_0000_0000

  predicate IsDigit(c: char) {
    '0' <= c <= '9'
  }

  predicate AllDigits(d: string) {
    forall i :: 0 <= i < |d| ==> IsDigit(d[i])
  }

  // ---------------------------------------------------------------------------
  // Decimal numbers
  // ---------------------------------------------------------------------------

  function DigitOf(c: char): nat
    requires IsDigit(c)
  {
    (c as int - '0' as int) as nat
  }

  function DigitChar(n: nat): (c: char)
    requires n < 10
    ensures IsDigit(c) && DigitOf(c) == n
  {
    ('0' as int + n) as char
  }

  /** The number a digit string denotes, most significant digit first. */
  function Value(d: string): nat
    requires AllDigits(d)
  {
    if |d| == 0 then 0 else 10 * Value(d[..|d| - 1]) + DigitOf(d[|d| - 1])
  }

  /** The length of the leading run of digits. */
  function DigitRun(s: string): (n: nat)
    ensures n <= |s| && AllDigits(s[..n])
    ensures n < |s| ==> !IsDigit(s[n])
  {
    if |s| == 0 || !IsDigit(s[0]) then 0
    else
      var n := 1 + DigitRun(s[1..]);
      assert forall i :: 0 < i < n ==> s[..n][i] == s[1..][..n - 1][i - 1];
      n
  }

  /** A run of `n` digits followed by a non-digit (or the end) is the
      leading run. */
  lemma {:induction false} DigitRunIs(s: string, n: nat)
    requires n <= |s| && AllDigits(s[..n]) && (n == |s| || !IsDigit(s[n]))
    ensures DigitRun(s) == n
    decreases n
  {
    if n > 0 {
      assert s[..n][0] == s[0];
      assert s[1..][..n - 1] == s[..n][1..];
      DigitRunIs(s[1..], n - 1);
    }
  }

  /** nom's `character::complete::u32`: the whole leading run of digits,
      which must be non-empty and fit in 32 bits; on success the value and
      the number of characters consumed. */
  function ParseU32(s: string): (r: Option<(nat, nat)>)
    ensures r.Some? ==> var (v, n) := r.value;
      1 <= n <= |s| && AllDigits(s[..n]) && v == Value(s[..n]) && v < U32Limit
  {
    var n := DigitRun(s);
    if n == 0 || Value(s[..n]) >= U32Limit then None
    else Some((Value(s[..n]), n))
  }

  /** A numeral that fits reads back as its value. */
  lemma {:induction false} ParseU32Digits(s: string, x: string)
    requires |x| >= 1 && AllDigits(x) && Value(x) < U32Limit
    requires |x| <= |s| && s[..|x|] == x && (|x| == |s| || !IsDigit(s[|x|]))
    ensures ParseU32(s) == Some((Value(x), |x|))
  {
    DigitRunIs(s, |x|);
  }

  // ---------------------------------------------------------------------------
  // parse_mul and parse_dont; the rest of the input is the text after the
  // characters they consume
  // ---------------------------------------------------------------------------

  /** The part of `parse_mul` after `mul(`: a `u32`, `,`, a `u32`, `)`. */
  function MulOperands(t: string): (r: Option<((nat, nat), nat)>)
    ensures r.Some? ==> var ((a, b), n) := r.value;
      a < U32Limit && b < U32Limit && 0 < n <= |t| && forall q :: 0 <= q < n ==> t[q] != 'd'
  {
    match ParseU32(t)
    case None => None
    case Some((a, i)) =>
      if i == |t| || t[i] != ',' then None
      else
        match ParseU32(t[i + 1..])
        case None => None
        case Some((b, j)) =>
          var k := i + 1 + j;
          if k == |t| || t[k] != ')' then None
          else
            assert forall q :: 0 <= q < i ==> t[..i][q] == t[q];
            assert forall q :: i < q < k ==> t[i + 1..][..j][q - i - 1] == t[q];
            Some(((a, b), k + 1))
  }

  /** `parse_mul`: `mul(`, a `u32`, `,`, a `u32`, `)`; on success the
      operands and the number of characters consumed, none of them a `d`. */
  function ParseMul(s: string): (r: Option<((nat, nat), nat)>)
    ensures r.Some? ==> var ((a, b), n) := r.value;
      StartsWith(s, "mul(") && a < U32Limit && b < U32Limit && 4 < n <= |s|
      && forall q :: 0 <= q < n ==> s[q] != 'd'
  {
    if !StartsWith(s, "mul(") then None
    else
      match MulOperands(s[4..])
      case None => None
      case Some((m, n)) =>
        assert forall q :: 0 <= q < 4 ==> s[..4][q] != 'd';
        assert forall q :: 4 <= q < n + 4 ==> s[4..][q - 4] == s[q];
        Some((m, n + 4))
  }

  /** Nothing but `mul(` starts an instruction. */
  lemma {:induction false} NotMul(s: string)
    requires |s| > 0 && s[0] != 'm'
    ensures ParseMul(s) == None
  {
  }

  /** The text of `mul(x,y)` for numerals `x` and `y`. */
  function MulText(x: string, y: string): string {
    "mul(" + x + "," + y + ")"
  }

  /** A numeral `parse_u32` accepts. */
  predicate Numeral(x: string) {
    |x| >= 1 && AllDigits(x) && Value(x) < U32Limit
  }

  /** `MulOperands` succeeds once each of its pieces does. */
  lemma {:induction false} MulOperandsOf(t: string, a: nat, i: nat, b: nat, j: nat)
    requires ParseU32(t) == Some((a, i)) && i < |t| && t[i] == ','
    requires ParseU32(t[i + 1..]) == Some((b, j)) && i + 1 + j < |t| && t[i + 1 + j] == ')'
    ensures MulOperands(t) == Some(((a, b), i + j + 2))
  {
  }

  /** Operands `x` and `y` written out at the start of `t` read back. */
  lemma {:induction false} MulOperandsAt(t: string, x: string, y: string)
    requires Numeral(x) && Numeral(y)
    requires |x| + |y| + 2 <= |t| && t[..|x|] == x && t[|x|] == ','
    requires t[|x| + 1..][..|y|] == y && t[|x| + 1 + |y|] == ')'
    ensures MulOperands(t) == Some(((Value(x), Value(y)), |x| + |y| + 2))
  {
    var i := |x|;
    var j := |y|;
    ParseU32Digits(t, x);
    assert t[i + 1..][j] == ')';
    ParseU32Digits(t[i + 1..], y);
    MulOperandsOf(t, Value(x), i, Value(y), j);
  }

  /** `parse_mul` succeeds once `mul(` and its operands do. */
  lemma {:induction false} ParseMulOf(s: string, m: (nat, nat), n: nat, total: nat)
    requires StartsWith(s, "mul(") && MulOperands(s[4..]) == Some((m, n)) && total == n + 4
    ensures ParseMul(s) == Some((m, total))
  {
  }

  /** Where the pieces of `mul(x,y)` sit in its text. */
  lemma {:induction false} MulTextPieces(x: string, y: string, rest: string)
    ensures var s := MulText(x, y) + rest;
      StartsWith(s, "mul(") && |s| >= |x| + |y| + 6 && |MulText(x, y)| == |x| + |y| + 6
      && s[4..][..|x|] == x && s[4..][|x|] == ','
      && s[4..][|x| + 1..][..|y|] == y && s[4..][|x| + 1 + |y|] == ')'
  {
    var s := MulText(x, y) + rest;
    assert s[..4] == "mul(";
    var t := s[4..];
    assert t == x + "," + y + ")" + rest;
    assert t[..|x|] == x && t[|x|] == ',' && t[|x| + 1..][..|y|] == y && t[|x| + 1 + |y|] == ')';
  }

  /** `parse_mul` reads back every instruction it could have been given. */
  lemma {:induction false} ParseMulText(x: string, y: string, rest: string)
    requires Numeral(x) && Numeral(y)
    ensures ParseMul(MulText(x, y) + rest) == Some(((Value(x), Value(y)), |MulText(x, y)|))
  {
    var s := MulText(x, y) + rest;
    MulTextOperands(x, y, rest);
    ParseMulOf(s, (Value(x), Value(y)), |x| + |y| + 2, |MulText(x, y)|);
  }

  /** The operands of `mul(x,y)` read back after its `mul(`. */
  lemma {:induction false} MulTextOperands(x: string, y: string, rest: string)
    requires Numeral(x) && Numeral(y)
    ensures var s := MulText(x, y) + rest;
      StartsWith(s, "mul(") && |MulText(x, y)| == |x| + |y| + 6
      && MulOperands(s[4..]) == Some(((Value(x), Value(y)), |x| + |y| + 2))
  {
    var s := MulText(x, y) + rest;
    MulTextPieces(x, y, rest);
    MulOperandsAt(s[4..], x, y);
  }

  /** Whatever `parse_mul` accepts is `mul(`, two numerals, `,` and `)`. */
  lemma {:induction false} ParseMulShape(s: string) returns (x: string, y: string)
    requires ParseMul(s).Some?
    ensures Numeral(x) && Numeral(y)
    ensures ParseMul(s).value.0 == (Value(x), Value(y))
    ensures s[..ParseMul(s).value.1] == MulText(x, y)
  {
    var t := s[4..];
    var i := ParseU32(t).value.1;
    var j := ParseU32(t[i + 1..]).value.1;
    x := t[..i];
    y := t[i + 1..][..j];
    assert s[..ParseMul(s).value.1] == s[..4] + t[..i] + [t[i]] + t[i + 1..][..j] + [t[i + 1 + j]];
  }

  /** The first index at which `pat` occurs in `t`: `take_until`. */
  function Find(t: string, pat: string): (r: Option<nat>)
    requires |pat| > 0
    ensures r.Some? ==> r.value + |pat| <= |t| && StartsWith(t[r.value..], pat)
    ensures forall j :: 0 <= j < (if r.Some? then r.value else |t|) ==> !StartsWith(t[j..], pat)
    decreases |t|
  {
    if |t| < |pat| then None
    else if StartsWith(t, pat) then Some(0)
    else
      match Find(t[1..], pat)
      case None =>
        assert forall j :: 0 < j < |t| ==> t[j..] == t[1..][j - 1..];
        None
      case Some(i) =>
        assert forall j :: 0 < j <= i + 1 ==> t[j..] == t[1..][j - 1..];
        Some(i + 1)
  }

  /** `parse_dont`: `don't()` and then everything through the next `do()`,
      or, when no `do()` follows, everything up to the end provided that is
      at least one character; on success the number of characters
      consumed. */
  function ParseDont(s: string): (r: Option<nat>)
    ensures r.Some? ==> StartsWith(s, "don't()") && 7 < r.value <= |s|
  {
    if !StartsWith(s, "don't()") then None
    else
      match Find(s[7..], "do()")
      case Some(i) => Some(7 + i + 4)
      case None => if |s| > 7 then Some(|s|) else None
  }

  /** Nothing but `don't()` starts a disabled region. */
  lemma {:induction false} NotDont(s: string)
    requires |s| > 0 && s[0] != 'd'
    ensures ParseDont(s) == None
  {
  }

  /** A disabled region ends with the first `do()` after the `don't()`. */
  lemma {:induction false} ParseDontSpan(y: string, rest: string)
    requires forall j :: 0 <= j < |y| ==> !StartsWith((y + "do()")[j..], "do()")
    ensures ParseDont("don't()" + y + "do()" + rest) == Some(|y| + 11)
  {
    var t := y + "do()" + rest;
    DontThen(y, rest);
    forall j | 0 <= j < |y| ensures !StartsWith(t[j..], "do()") {
      assert t[j..][..4] == (y + "do()")[j..][..4];
    }
    assert t[|y|..][..4] == "do()";
    FindFirst(t, "do()", |y|);
  }

  /** A disabled region closed by `do()` splits after its `don't()`. */
  lemma {:induction false} DontThen(y: string, rest: string)
    ensures var s := "don't()" + y + "do()" + rest;
      StartsWith(s, "don't()") && s[7..] == y + "do()" + rest
  {
    var s := "don't()" + y + "do()" + rest;
    assert s[..7] == "don't()";
    assert s[7..] == y + "do()" + rest;
  }

  /** `Find` reports the first position where the pattern starts. */
  lemma {:induction false} FindFirst(t: string, pat: string, i: nat)
    requires |pat| > 0 && i + |pat| <= |t| && StartsWith(t[i..], pat)
    requires forall j :: 0 <= j < i ==> !StartsWith(t[j..], pat)
    ensures Find(t, pat) == Some(i)
  {
  }

  /** Without a later `do()`, a disabled region runs to the end. */
  lemma {:induction false} ParseDontToEnd(y: string)
    requires |y| > 0 && forall j :: 0 <= j < |y| ==> !StartsWith(y[j..], "do()")
    ensures ParseDont("don't()" + y) == Some(7 + |y|)
  {
    assert ("don't()" + y)[..7] == "don't()" && ("don't()" + y)[7..] == y;
  }

  // ---------------------------------------------------------------------------
  // The scanners
  // ---------------------------------------------------------------------------

  /** The loop of `many1(alt((parse_mul, value(None, anychar))))`, with the
      `None`s flattened away: a `mul` where one parses, otherwise skip one
      character; it stops only when the input is exhausted. */
  function Scan(s: string): seq<(nat, nat)>
    decreases |s|
  {
    if |s| == 0 then []
    else
      match ParseMul(s)
      case Some((m, n)) => [m] + Scan(s[n..])
      case None => Scan(s[1..])
  }

  /** The same loop with `parse_dont` tried first. */
  function Scan2(s: string): seq<(nat, nat)>
    decreases |s|
  {
    if |s| == 0 then []
    else
      match ParseDont(s)
      case Some(n) => Scan2(s[n..])
      case None =>
        match ParseMul(s)
        case Some((m, n)) => [m] + Scan2(s[n..])
        case None => Scan2(s[1..])
  }

  /** `parse_input`: `many1` fails on the empty input; otherwise the
      scanner consumes everything, so the `is_empty` assertion holds. */
  function ParseInput(s: string): (r: Option<seq<(nat, nat)>>)
    ensures r.None? <==> |s| == 0
  {
    if |s| == 0 then None else Some(Scan(s))
  }

  /** `parse_input2`. */
  function ParseInput2(s: string): (r: Option<seq<(nat, nat)>>)
    ensures r.None? <==> |s| == 0
  {
    if |s| == 0 then None else Some(Scan2(s))
  }

  /** The sum of the products. */
  function Total(ms: seq<(nat, nat)>): nat {
    if |ms| == 0 then 0 else ms[0].0 * ms[0].1 + Total(ms[1..])
  }

  /** `process_part1`. */
  function Part1(s: string): Option<nat> {
    match ParseInput(s)
    case None => None
    case Some(ms) => Some(Total(ms))
  }

  /** `process_part2`. */
  function Part2(s: string): Option<nat> {
    match ParseInput2(s)
    case None => None
    case Some(ms) => Some(Total(ms))
  }

  // ---------------------------------------------------------------------------
  // What the scanners find
  // ---------------------------------------------------------------------------

  /** A text none of whose characters can start an instruction. */
  predicate Noise(x: string) {
    forall i :: 0 <= i < |x| ==> x[i] != 'm' && x[i] != 'd'
  }

  /** Characters that cannot start a `mul` are skipped one by one. */
  lemma {:induction false} ScanNoise(x: string, s: string)
    requires Noise(x)
    ensures Scan(x + s) == Scan(s)
    ensures Scan2(x + s) == Scan2(s)
    decreases |x|
  {
    if |x| > 0 {
      var t := x + s;
      assert t[1..] == x[1..] + s;
      NotMul(t);
      NotDont(t);
      ScanNoise(x[1..], s);
    } else {
      assert x + s == s;
    }
  }

  /** An instruction in the text is found, and scanning resumes after it. */
  lemma {:induction false} ScanMul(x: string, y: string, s: string)
    requires Numeral(x) && Numeral(y)
    ensures Scan(MulText(x, y) + s) == [(Value(x), Value(y))] + Scan(s)
    ensures Scan2(MulText(x, y) + s) == [(Value(x), Value(y))] + Scan2(s)
  {
    var t := MulText(x, y) + s;
    ParseMulText(x, y, s);
    assert t[0] == 'm';
    NotDont(t);
    assert t[|MulText(x, y)|..] == s;
  }

  /** Everything between `don't()` and the next `do()` is skipped. */
  lemma {:induction false} ScanDisabled(y: string, s: string)
    requires forall j :: 0 <= j < |y| ==> !StartsWith((y + "do()")[j..], "do()")
    ensures Scan2("don't()" + y + "do()" + s) == Scan2(s)
  {
    ParseDontSpan(y, s);
    assert ("don't()" + y + "do()" + s)[|y| + 11..] == s;
  }

  /** A `don't()` with no `do()` after it disables the rest of the input. */
  lemma {:induction false} ScanDisabledToEnd(y: string)
    requires |y| > 0 && forall j :: 0 <= j < |y| ==> !StartsWith(y[j..], "do()")
    ensures Scan2("don't()" + y) == []
  {
    ParseDontToEnd(y);
  }

  /** The decimal numeral of `n`, without leading zeros. */
  function Show(n: nat): (d: string)
    ensures |d| >= 1 && AllDigits(d) && Value(d) == n
  {
    if n < 10 then [DigitChar(n)]
    else
      var p := Show(n / 10);
      var d := p + [DigitChar(n % 10)];
      assert d[..|d| - 1] == p;
      d
  }

  /** The text of a list of instructions, back to back. */
  function ShowAll(ms: seq<(nat, nat)>): string {
    if |ms| == 0 then [] else MulText(Show(ms[0].0), Show(ms[0].1)) + ShowAll(ms[1..])
  }

  /** Scanning finds exactly the instructions a text was written with. */
  lemma {:induction false} ScanShowAll(ms: seq<(nat, nat)>)
    requires forall i :: 0 <= i < |ms| ==> ms[i].0 < U32Limit && ms[i].1 < U32Limit
    ensures Scan(ShowAll(ms)) == ms
    decreases |ms|
  {
    if |ms| > 0 {
      ScanShowAll(ms[1..]);
      var x, y := Show(ms[0].0), Show(ms[0].1);
      ScanMul(x, y, ShowAll(ms[1..]));
    }
  }

  // ---------------------------------------------------------------------------
  // Part 2 counts a part of what part 1 counts
  // ---------------------------------------------------------------------------

  /** No instruction that starts before `k` runs past it, so the part-1
      scan passes through position `k`. */
  predicate Aligned(s: string, k: nat)
    requires k <= |s|
  {
    forall j :: 0 <= j < k && ParseMul(s[j..]).Some? ==> j + ParseMul(s[j..]).value.1 <= k
  }

  /** One step of the part-1 scan. */
  lemma {:induction false} ScanStep(s: string)
    requires |s| > 0
    ensures ParseMul(s).Some? ==> Scan(s) == [ParseMul(s).value.0] + Scan(s[ParseMul(s).value.1..])
    ensures ParseMul(s).None? ==> Scan(s) == Scan(s[1..])
  {
  }

  /** Alignment survives skipping `c` characters before the position. */
  lemma {:induction false} AlignedShift(s: string, c: nat, k: nat)
    requires c <= k <= |s| && Aligned(s, k)
    ensures Aligned(s[c..], k - c)
  {
    forall j | 0 <= j < k - c && ParseMul(s[c..][j..]).Some?
      ensures j + ParseMul(s[c..][j..]).value.1 <= k - c
    {
      assert s[c..][j..] == s[c + j..];
    }
  }

  /** The part-1 scan of `s` ends with the part-1 scan from `k` on. */
  lemma {:induction false} ScanThrough(s: string, k: nat) returns (p: seq<(nat, nat)>)
    requires k <= |s| && Aligned(s, k)
    ensures Scan(s) == p + Scan(s[k..])
    decreases k
  {
    if k == 0 {
      p := [];
    } else {
      var c := StepLength(s, k);
      var head := if ParseMul(s).Some? then [ParseMul(s).value.0] else [];
      var tail := s[c..];
      var q := ScanThrough(tail, k - c);
      DropDrop(s, c, k);
      p := head + q;
      AppendAssoc(head, q, Scan(s[k..]));
    }
  }

  lemma {:induction false} DropDrop(s: string, c: nat, k: nat)
    requires c <= k <= |s|
    ensures s[c..][k - c..] == s[k..]
  {
  }

  lemma {:induction false} AppendAssoc<T>(a: seq<T>, b: seq<T>, c: seq<T>)
    ensures a + (b + c) == (a + b) + c
  {
  }

  /** How far one step of the part-1 scan moves, and that it stays aligned. */
  lemma {:induction false} StepLength(s: string, k: nat) returns (c: nat)
    requires 0 < k <= |s| && Aligned(s, k)
    ensures 0 < c <= k && Aligned(s[c..], k - c)
    ensures c == if ParseMul(s).Some? then ParseMul(s).value.1 else 1
    ensures Scan(s) == (if ParseMul(s).Some? then [ParseMul(s).value.0] else []) + Scan(s[c..])
  {
    ScanStep(s);
    assert s[0..] == s;
    c := if ParseMul(s).Some? then ParseMul(s).value.1 else 1;
    AlignedShift(s, c, k);
  }

  /** An instruction never runs over a `d`. */
  lemma {:induction false} MulBeforeD(s: string, j: nat, e: nat)
    requires j <= e < |s| && s[e] == 'd' && ParseMul(s[j..]).Some?
    ensures j + ParseMul(s[j..]).value.1 <= e
  {
    assert s[j..][e - j] == s[e];
  }

  /** Nothing the part-1 scan finds straddles the end of a disabled region. */
  lemma {:induction false} DontAligned(s: string)
    requires ParseDont(s).Some?
    ensures Aligned(s, ParseDont(s).value)
  {
    var k := ParseDont(s).value;
    var t := s[7..];
    if Find(t, "do()").Some? {
      var i := Find(t, "do()").value;
      assert k == 7 + i + 4;
      assert t[i..][..4] == "do()";
      assert s[k - 4..k] == t[i..][..4];
      forall j | 0 <= j < k && ParseMul(s[j..]).Some?
        ensures j + ParseMul(s[j..]).value.1 <= k
      {
        if j > k - 4 {
          assert s[j..][0] == s[k - 4..k][j - k + 4];
          NotMul(s[j..]);
        } else {
          assert s[k - 4] == s[k - 4..k][0];
          MulBeforeD(s, j, k - 4);
        }
      }
    }
  }

  /** `a` is `b` with some entries left out. */
  predicate Subseq(a: seq<(nat, nat)>, b: seq<(nat, nat)>)
    decreases |b|
  {
    |a| == 0 || (|b| > 0 && ((a[0] == b[0] && Subseq(a[1..], b[1..])) || Subseq(a, b[1..])))
  }

  lemma {:induction false} SubseqPrefix(a: seq<(nat, nat)>, p: seq<(nat, nat)>, b: seq<(nat, nat)>)
    requires Subseq(a, b)
    ensures Subseq(a, p + b)
    decreases |p|
  {
    if |p| > 0 {
      SubseqPrefix(a, p[1..], b);
      assert (p + b)[1..] == p[1..] + b;
    } else {
      assert p + b == b;
    }
  }

  lemma {:induction false} SubseqTotal(a: seq<(nat, nat)>, b: seq<(nat, nat)>)
    requires Subseq(a, b)
    ensures Total(a) <= Total(b)
    decreases |b|
  {
    if |a| > 0 {
      if a[0] == b[0] && Subseq(a[1..], b[1..]) {
        SubseqTotal(a[1..], b[1..]);
      } else {
        SubseqTotal(a, b[1..]);
      }
    }
  }

  /** Every instruction part 2 finds, part 1 finds too, in the same order. */
  lemma {:induction false} Scan2Within(s: string)
    ensures Subseq(Scan2(s), Scan(s))
    decreases |s|
  {
    if |s| > 0 {
      match ParseDont(s)
      case Some(k) =>
        Scan2Within(s[k..]);
        DontAligned(s);
        var p := ScanThrough(s, k);
        SubseqPrefix(Scan2(s[k..]), p, Scan(s[k..]));
      case None =>
        match ParseMul(s)
        case Some((m, c)) =>
          Scan2Within(s[c..]);
          assert ([m] + Scan2(s[c..]))[1..] == Scan2(s[c..]);
        case None =>
          Scan2Within(s[1..]);
    }
  }

  /** Both parts fail exactly on the empty input, and part 2 never exceeds
      part 1. */
  lemma {:induction false} Part2WithinPart1(s: string)
    ensures Part1(s).None? <==> |s| == 0
    ensures Part2(s).None? <==> |s| == 0
    ensures |s| > 0 ==> Part2(s).value <= Part1(s).value
  {
    if |s| > 0 {
      Scan2Within(s);
      SubseqTotal(Scan2(s), Scan(s));
    }
  }
}
