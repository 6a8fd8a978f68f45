/** Amounts in fen (pkg/money/money.go): checked arithmetic, the decimal printer and the parser. */
module Money {
  import opened MachineInts
  import opened Decimals

  const FEN_PER_YUAN: uint64 := 100

  datatype Error = Empty | Malformed | OutOfRange | Overflow
  datatype Result = Ok(fen: int64) | Failed(error: Error)

  function Magnitude(v: int64): (r: uint64)
    ensures r as int == if v < 0 then -(v as int) else v as int
  {
    if v < 0 then (-(v + 1)) as uint64 + 1 else v as uint64
  }

  // ---------------------------------------------------------------- arithmetic

  /** The sum, exactly when it fits. */
  method Add(left: int64, right: int64) returns (r: Result)
    ensures r == if FitsInt64(left as int + right as int) then Ok((left as int + right as int) as int64) else Failed(Overflow)
  {
    if (right > 0 && left > MAX_INT64 - right) || (right < 0 && left < MIN_INT64 - right) {
      return Failed(Overflow);
    }
    return Ok(left + right);
  }

  /** bits.Mul64: the high and low halves of the 128-bit product. */
  function Mul64(x: uint64, y: uint64): (r: (uint64, uint64))
    ensures r.0 as int * 0x1_0000_0000_0000_0000 + r.1 as int == x as int * y as int
  {
    var product := x as int * y as int;
    ProductBound(x as int, y as int, 0x1_0000_0000_0000_0000);
    ((product / 0x1_0000_0000_0000_0000) as uint64, (product % 0x1_0000_0000_0000_0000) as uint64)
  }

  lemma ProductBound(x: int, y: int, b: int)
    requires 0 <= x < b && 0 <= y < b
    ensures 0 <= x * y < b * b
  {
    assert 0 <= x * y;
    assert x * y <= x * b by { assert x * (b - y) >= 0; }
    assert x * b < b * b by { assert (b - x) * b > 0; }
  }

  lemma ProductMagnitude(x: int, y: int, mx: int, my: int)
    requires mx == if x < 0 then -x else x
    requires my == if y < 0 then -y else y
    ensures x * y == if (x < 0) != (y < 0) then -(mx * my) else mx * my
  {
  }

  /** The product, exactly when it fits, including products of magnitude 2^63 of either sign. */
  method Multiply(f: int64, qty: int64) returns (r: Result)
    ensures r == if FitsInt64(f as int * qty as int) then Ok((f as int * qty as int) as int64) else Failed(Overflow)
  {
    if qty == 0 || f == 0 {
      return Ok(0);
    }
    ProductMagnitude(f as int, qty as int, Magnitude(f) as int, Magnitude(qty) as int);
    var (overflow, product) := Mul64(Magnitude(f), Magnitude(qty));
    var negative := (f < 0) != (qty < 0);
    var limit := MAX_INT64 as uint64;
    if negative {
      limit := limit + 1;
    }
    if overflow != 0 || product > limit {
      return Failed(Overflow);
    }
    var result := Wrap(product);
    if negative && product != 0x8000_0000_0000_0000 {
      result := -result;
    }
    return Ok(result);
  }

  // ---------------------------------------------------------------- digits

  /** The verb %02d, below one hundred. */
  function TwoDigits(n: nat): (s: string)
    requires n < 100
    ensures |s| == 2 && Digits(s) && Value(s) == n
  {
    var s := [Digit(n / 10), Digit(n % 10)];
    assert s[..1] == [s[0]];
    assert Value(s[..1]) == 10 * Value([]) + DigitValue(s[0]);
    s
  }

  function YuanString(f: int64): string {
    var magnitude := Magnitude(f);
    (if f < 0 then "-" else "") + Decimal((magnitude / FEN_PER_YUAN) as nat) + "." + TwoDigits((magnitude % FEN_PER_YUAN) as nat)
  }

  method AllDigits(s: string) returns (ok: bool)
    ensures ok <==> Digits(s)
  {
    for i := 0 to |s|
      invariant Digits(s[..i])
    {
      if s[i] < '0' || s[i] > '9' {
        return false;
      }
    }
    return true;
  }

  // ---------------------------------------------------------------- the notation

  /** The characters Go's unicode.IsSpace holds for. */
  predicate IsSpace(c: char) {
    c in {'\t', '\n', '\U{0B}', '\U{0C}', '\r', ' ', '\U{85}', '\U{A0}', '\U{1680}',
          '\U{2028}', '\U{2029}', '\U{202F}', '\U{205F}', '\U{3000}'} || '\U{2000}' <= c <= '\U{200A}'
  }

  ghost predicate Spaces(s: string) {
    forall i :: 0 <= i < |s| ==> IsSpace(s[i])
  }

  /** One way of reading a text as an amount: surrounding space, an optional sign, digits, and
      optionally a point with at most two more digits. Both digit groups may be empty. */
  datatype Reading = Reading(lead: string, sign: string, whole: string, point: string, frac: string, trail: string) {
    ghost predicate Valid() {
      && Spaces(lead) && Spaces(trail)
      && (sign == "" || sign == "-" || sign == "+")
      && Digits(whole) && Digits(frac)
      && |frac| <= 2
      && (point == "." || (point == "" && frac == "" && whole != ""))
    }

    function Body(): string { whole + point + frac }

    function Text(): string { lead + (sign + Body()) + trail }

    /** The amount in fen; one digit after the point counts tens. */
    ghost function Amount(): int
      requires Valid()
    {
      var magnitude := 100 * Value(whole) + (if |frac| == 1 then 10 * Value(frac) else Value(frac));
      if sign == "-" then -magnitude else magnitude
    }
  }

  /** The text denotes the amount. */
  ghost predicate Denotes(s: string, amount: int) {
    exists r: Reading :: r.Valid() && r.Text() == s && r.Amount() == amount
  }

  // ---------------------------------------------------------------- library string functions

  function TrimLeft(s: string): string {
    if s != [] && IsSpace(s[0]) then TrimLeft(s[1..]) else s
  }

  function TrimRight(s: string): string {
    if s != [] && IsSpace(s[|s| - 1]) then TrimRight(s[..|s| - 1]) else s
  }

  /** strings.TrimSpace */
  function TrimSpace(s: string): string {
    TrimRight(TrimLeft(s))
  }

  /** strings.Split at every point. */
  function Split(s: string): (parts: seq<string>)
    ensures parts != []
  {
    if s == [] then [""]
    else if s[0] == '.' then [""] + Split(s[1..])
    else var rest := Split(s[1..]); [[s[0]] + rest[0]] + rest[1..]
  }

  /** strings.TrimLeft of zeros. */
  function TrimZeros(s: string): string {
    if s != [] && s[0] == '0' then TrimZeros(s[1..]) else s
  }

  /** The number of bytes of a string, which is what Go's len counts. */
  function ByteLen(s: string): nat {
    if s == [] then 0
    else (if s[0] < '\U{80}' then 1 else if s[0] < '\U{800}' then 2 else if s[0] < '\U{10000}' then 3 else 4) + ByteLen(s[1..])
  }

  lemma {:induction false} LeftTrimmed(s: string) returns (lead: string)
    ensures Spaces(lead) && s == lead + TrimLeft(s)
    ensures TrimLeft(s) != [] ==> !IsSpace(TrimLeft(s)[0])
  {
    lead := [];
    if s != [] && IsSpace(s[0]) {
      var rest := LeftTrimmed(s[1..]);
      lead := [s[0]] + rest;
    }
  }

  lemma {:induction false} RightTrimmed(s: string) returns (trail: string)
    ensures Spaces(trail) && s == TrimRight(s) + trail
  {
    trail := [];
    if s != [] && IsSpace(s[|s| - 1]) {
      var rest := RightTrimmed(s[..|s| - 1]);
      trail := rest + [s[|s| - 1]];
    }
  }

  lemma {:induction false} TrimLeftSkips(lead: string, s: string)
    requires Spaces(lead)
    requires s == [] || !IsSpace(s[0])
    ensures TrimLeft(lead + s) == s
  {
    if lead == [] {
      assert lead + s == s;
    } else {
      assert (lead + s)[1..] == lead[1..] + s;
      TrimLeftSkips(lead[1..], s);
    }
  }

  lemma {:induction false} TrimRightSkips(s: string, trail: string)
    requires Spaces(trail)
    requires s == [] || !IsSpace(s[|s| - 1])
    ensures TrimRight(s + trail) == s
  {
    if trail == [] {
      assert s + trail == s;
    } else {
      var n := |trail| - 1;
      assert (s + trail)[..|s + trail| - 1] == s + trail[..n];
      TrimRightSkips(s, trail[..n]);
    }
  }

  lemma {:induction false} SplitOnce(s: string)
    ensures |Split(s)| == 1 ==> s == Split(s)[0]
  {
    if s != [] && s[0] != '.' {
      SplitOnce(s[1..]);
      assert s == [s[0]] + s[1..];
    }
  }

  lemma {:induction false} SplitJoins(s: string)
    ensures |Split(s)| == 1 ==> s == Split(s)[0]
    ensures |Split(s)| == 2 ==> s == Split(s)[0] + "." + Split(s)[1]
  {
    SplitOnce(s);
    if s != [] && |Split(s)| == 2 {
      var rest := Split(s[1..]);
      assert s == [s[0]] + s[1..];
      if s[0] == '.' {
        SplitOnce(s[1..]);
        assert Split(s) == [""] + rest;
        assert "" + "." + rest[0] == ['.'] + rest[0];
      } else {
        SplitJoins(s[1..]);
        assert Split(s) == [[s[0]] + rest[0]] + rest[1..];
        assert [s[0]] + rest[0] + "." + rest[1] == [s[0]] + (rest[0] + "." + rest[1]);
      }
    }
  }

  lemma {:induction false} SplitDigits(s: string, rest: string)
    requires Digits(s)
    ensures Split(s) == [s]
    ensures Split(s + "." + rest) == [s] + Split(rest)
  {
    if s == [] {
      assert (s + "." + rest)[1..] == rest;
    } else {
      SplitDigits(s[1..], rest);
      assert (s + "." + rest)[1..] == s[1..] + "." + rest;
      assert [s[0]] + s[1..] == s;
    }
  }

  lemma {:induction false} DigitsAreBytes(s: string)
    ensures ByteLen(s) >= |s|
    ensures Digits(s) ==> ByteLen(s) == |s|
  {
    if s != [] {
      DigitsAreBytes(s[1..]);
    }
  }

  lemma {:induction false} LeadingZero(s: string)
    requires Digits(s)
    ensures Digits("0" + s) && Value("0" + s) == Value(s)
  {
    if s == [] {
      assert "0" + s == "0";
      assert "0"[..0] == "";
    } else {
      var n := |s| - 1;
      assert ("0" + s)[..n + 1] == "0" + s[..n];
      LeadingZero(s[..n]);
    }
  }

  lemma {:induction false} ZerosDoNotCount(s: string)
    requires Digits(s)
    ensures Digits(TrimZeros(s)) && Value(TrimZeros(s)) == Value(s)
  {
    if s != [] && s[0] == '0' {
      ZerosDoNotCount(s[1..]);
      LeadingZero(s[1..]);
      assert "0" + s[1..] == s;
    }
  }

  lemma AppendTwo(s: string, pair: string)
    requires Digits(s) && Digits(pair) && |pair| == 2
    ensures Digits(s + pair) && Value(s + pair) == 100 * Value(s) + Value(pair)
  {
    assert (s + pair)[..|s| + 1] == s + [pair[0]];
    assert (s + [pair[0]])[..|s|] == s;
    assert pair[..1] == [pair[0]] && [pair[0]][..0] == [];
    assert Value([pair[0]]) == DigitValue(pair[0]);
  }

  // ---------------------------------------------------------------- reading a text back

  function SignOf(s: string): string {
    if s != [] && (s[0] == '-' || s[0] == '+') then s[..1] else ""
  }

  lemma TrimFindsCore(lead: string, core: string, trail: string)
    requires Spaces(lead) && Spaces(trail)
    requires core != "" && !IsSpace(core[0]) && !IsSpace(core[|core| - 1])
    ensures TrimSpace(lead + core + trail) == core
  {
    assert lead + core + trail == lead + (core + trail);
    TrimLeftSkips(lead, core + trail);
    TrimRightSkips(core, trail);
  }

  lemma BodyEdges(r: Reading)
    requires r.Valid()
    ensures var body := r.Body();
            && body != ""
            && (body[0] == '.' || IsDigit(body[0]))
            && (body[|body| - 1] == '.' || IsDigit(body[|body| - 1]))
  {
    var body := r.Body();
    assert r.whole != "" ==> body[0] == r.whole[0];
    assert r.frac != "" ==> body[|body| - 1] == r.frac[|r.frac| - 1];
    assert r.point == "" ==> body == r.whole;
    assert r.point == "." ==> body[|r.whole|] == '.';
  }

  lemma SplitBody(r: Reading)
    requires r.Valid()
    ensures Split(r.Body()) == if r.point == "." then [r.whole, r.frac] else [r.whole]
  {
    SplitDigits(r.whole, r.frac);
    SplitDigits(r.frac, "");
    if r.point == "" {
      assert r.Body() == r.whole;
    }
  }

  lemma TrimReading(r: Reading)
    requires r.Valid()
    ensures TrimSpace(r.Text()) == r.sign + r.Body()
  {
    BodyEdges(r);
    var body := r.Body();
    var core := r.sign + body;
    assert core[|core| - 1] == body[|body| - 1];
    TrimFindsCore(r.lead, core, r.trail);
  }

  lemma SignReading(sign: string, body: string)
    requires sign == "" || sign == "-" || sign == "+"
    requires body != "" && (body[0] == '.' || IsDigit(body[0]))
    ensures SignOf(sign + body) == sign && (sign + body)[|sign|..] == body
  {
  }

  /** Every reading of a text has the parts that trimming, taking the sign off and splitting find. */
  lemma ReadBack(r: Reading)
    requires r.Valid()
    ensures var core := TrimSpace(r.Text());
            && SignOf(core) == r.sign
            && core[|SignOf(core)|..] == r.Body() != ""
            && Split(r.Body()) == if r.point == "." then [r.whole, r.frac] else [r.whole]
  {
    BodyEdges(r);
    SplitBody(r);
    TrimReading(r);
    SignReading(r.sign, r.Body());
  }

  lemma SpacesDenoteNothing(s: string, a: int)
    ensures Spaces(s) ==> !Denotes(s, a)
  {
    if Spaces(s) {
      assert s + [] == s;
      TrimLeftSkips(s, []);
      forall r: Reading | r.Valid() && r.Text() == s ensures false {
        ReadBack(r);
      }
    }
  }

  // ---------------------------------------------------------------- the parser

  /** The unsigned text splits into acceptable parts. */
  ghost predicate GoodBody(body: string) {
    var parts := Split(body);
    && body != ""
    && |parts| <= 2
    && Digits(parts[0])
    && (|parts| == 2 ==> Digits(parts[1]) && |parts[1]| <= 2)
  }

  ghost function BodyReading(body: string): Reading {
    var parts := Split(body);
    Reading("", "", parts[0], if |parts| == 2 then "." else "", if |parts| == 2 then parts[1] else "", "")
  }

  lemma GoodBodyReads(body: string)
    requires GoodBody(body)
    ensures BodyReading(body).Valid() && BodyReading(body).Body() == body
  {
    SplitJoins(body);
    assert Split(body)[0] + "" + "" == Split(body)[0];
  }

  /** What is left of a text after trimming and taking the sign off. */
  function BodyOf(s: string): string {
    var core := TrimSpace(s);
    core[|SignOf(core)|..]
  }

  ghost function SignedAmount(s: string): int
    requires GoodBody(BodyOf(s))
  {
    GoodBodyReads(BodyOf(s));
    var amount := BodyReading(BodyOf(s)).Amount();
    if SignOf(TrimSpace(s)) == "-" then 0 - amount else amount
  }

  lemma GoodBodyDenotes(s: string, lead: string, core: string, trail: string, body: string)
    requires Spaces(lead) && Spaces(trail) && s == lead + core + trail
    requires core == SignOf(core) + body && GoodBody(body)
    ensures BodyReading(body).Valid()
    ensures Denotes(s, if SignOf(core) == "-" then 0 - BodyReading(body).Amount() else BodyReading(body).Amount())
  {
    GoodBodyReads(body);
    var r := BodyReading(body).(lead := lead, sign := SignOf(core), trail := trail);
    assert r.Body() == BodyReading(body).Body();
    assert r.Valid() && r.Text() == s;
  }

  lemma Trimmed(s: string) returns (lead: string, trail: string)
    ensures Spaces(lead) && Spaces(trail) && s == lead + TrimSpace(s) + trail
  {
    lead := LeftTrimmed(s);
    trail := RightTrimmed(TrimLeft(s));
  }

  lemma SignAndBody(core: string)
    ensures core == SignOf(core) + core[|SignOf(core)|..]
  {
  }

  lemma GoodCoreDenotes(s: string)
    requires GoodBody(BodyOf(s))
    ensures BodyReading(BodyOf(s)).Valid() && Denotes(s, SignedAmount(s))
  {
    var lead, trail := Trimmed(s);
    SignAndBody(TrimSpace(s));
    GoodBodyDenotes(s, lead, TrimSpace(s), trail, BodyOf(s));
  }

  /** Every reading of a text has the amount of its body, signed. */
  lemma ReadingAmount(r: Reading)
    requires r.Valid()
    ensures GoodBody(BodyOf(r.Text())) && r.Amount() == SignedAmount(r.Text())
  {
    ReadBack(r);
    GoodBodyReads(r.Body());
  }

  /** A text denotes an amount exactly when what is left of it after trimming and taking the sign
      off is a good body, and then it denotes that of the body, signed, and no other. */
  lemma DenotesIffGoodBody(s: string, a: int)
    ensures Denotes(s, a) <==> GoodBody(BodyOf(s)) && a == SignedAmount(s)
  {
    if GoodBody(BodyOf(s)) {
      GoodCoreDenotes(s);
    }
    if Denotes(s, a) {
      var r: Reading :| r.Valid() && r.Text() == s && r.Amount() == a;
      ReadingAmount(r);
    }
  }

  /** A text denotes at most one amount. */
  lemma DenotesOne(s: string, a: int, b: int)
    requires Denotes(s, a) && Denotes(s, b)
    ensures a == b
  {
    DenotesIffGoodBody(s, a);
    DenotesIffGoodBody(s, b);
  }

  /** strconv.ParseUint(s, 10, 64) on a non-empty digit string. */
  method ParseUint(s: string) returns (ok: bool, v: uint64)
    requires Digits(s) && s != ""
    ensures ok <==> Value(s) < 0x1_0000_0000_0000_0000
    ensures ok ==> v as int == Value(s)
  {
    if Value(s) < 0x1_0000_0000_0000_0000 {
      return true, Value(s) as uint64;
    }
    return false, 0;
  }

  /** The signed amount of a magnitude, if it fits. */
  method Signed(negative: bool, text: string) returns (r: Result)
    requires Digits(text)
    ensures var amount: int := if negative then 0 - Value(text) else Value(text);
            r == if FitsInt64(amount) then Ok(amount as int64) else Failed(OutOfRange)
  {
    var normalized := TrimZeros(text);
    ZerosDoNotCount(text);
    if normalized == "" {
      return Ok(0);
    }
    var ok, value := ParseUint(normalized);
    if !ok {
      return Failed(OutOfRange);
    }
    var limit := MAX_INT64 as uint64;
    if negative {
      limit := limit + 1;
    }
    if value > limit {
      return Failed(OutOfRange);
    }
    var result := Wrap(value);
    if negative && value != 0x8000_0000_0000_0000 {
      result := -result;
    }
    return Ok(result);
  }

  /** The digits of the two parts, with two for the fraction, if they are digits. */
  method PadAndJoin(intPart: string, frac: string) returns (ok: bool, text: string)
    requires ByteLen(frac) <= 2
    ensures ok <==> Digits(intPart) && Digits(frac)
    ensures ok ==> |frac| <= 2 && Digits(text)
    ensures ok ==> Value(text) == 100 * Value(intPart) + (if |frac| == 1 then 10 * Value(frac) else Value(frac))
  {
    var fracPart := frac;
    DigitsAreBytes(frac);
    if fracPart == "" {
      fracPart := "00";
    } else if ByteLen(fracPart) == 1 {
      fracPart := fracPart + "0";
    }
    PaddedFraction(frac);
    assert Value("00") == 0 by { TwoZeros(); }
    var intOk := AllDigits(intPart);
    var fracOk := AllDigits(fracPart);
    if !intOk || !fracOk {
      return false, "";
    }
    AppendTwo(intPart, fracPart);
    return true, intPart + fracPart;
  }

  /** The digits of the amount, with two for the fen, if the body is good. */
  method BodyDigits(value: string) returns (ok: bool, text: string)
    requires value != ""
    ensures ok <==> GoodBody(value)
    ensures ok ==> Digits(text) && BodyReading(value).Valid() && Value(text) == BodyReading(value).Amount()
  {
    var parts := Split(value);
    if |parts| > 2 {
      return false, "";
    }
    var intPart := parts[0];
    if intPart == "" {
      intPart := "0";
    }
    var fracPart := "";
    if |parts| == 2 {
      fracPart := parts[1];
    }
    DigitsAreBytes(fracPart);
    if ByteLen(fracPart) > 2 {
      return false, "";
    }
    ok, text := PadAndJoin(intPart, fracPart);
    LeadingZero("");
    assert "0" + "" == "0";
    if ok {
      GoodBodyReads(value);
    }
  }

  lemma TwoZeros()
    ensures Digits("00") && Value("00") == 0
  {
    assert "00"[..1] == "0" && "0"[..0] == "";
    assert Value("0") == 10 * Value("") + 0;
  }

  /** Padding one digit on the right makes it count tens. */
  lemma PaddedFraction(frac: string)
    ensures Digits(frac + "0") <==> Digits(frac)
    ensures Digits(frac) ==> Value(frac + "0") == 10 * Value(frac)
  {
    assert forall i :: 0 <= i < |frac| ==> (frac + "0")[i] == frac[i];
    assert (frac + "0")[..|frac|] == frac;
  }

  /** What the parser's answer says about the text: the amount it denotes, if that fits; that it
      denotes one that does not fit; that it is blank; or that it denotes none. */
  ghost predicate Answers(s: string, r: Result) {
    match r
    case Ok(fen) => Denotes(s, fen as int)
    case Failed(Empty) => Spaces(s)
    case Failed(OutOfRange) => exists a :: Denotes(s, a) && !FitsInt64(a)
    case Failed(Malformed) => !Spaces(s) && forall a :: !Denotes(s, a)
    case Failed(Overflow) => false
  }

  /** So an answer is right for a text in one way only. */
  lemma AnswerIsExact(s: string, r: Result, a: int)
    requires Answers(s, r) && Denotes(s, a)
    ensures r == if FitsInt64(a) then Ok(a as int64) else Failed(OutOfRange)
  {
    SpacesDenoteNothing(s, a);
    if r.Ok? {
      DenotesOne(s, a, r.fen as int);
    } else if r.error.OutOfRange? {
      var b :| Denotes(s, b) && !FitsInt64(b);
      DenotesOne(s, a, b);
    }
  }

  /** The parser succeeds exactly on the texts that denote an int64. */
  lemma AcceptedIffDenotesInt64(s: string, r: Result)
    requires Answers(s, r)
    ensures r.Ok? <==> exists a :: Denotes(s, a) && FitsInt64(a)
  {
    forall a | Denotes(s, a) && FitsInt64(a) ensures r.Ok? {
      AnswerIsExact(s, r, a);
    }
  }

  method ParseYuan(s: string) returns (r: Result)
    ensures Answers(s, r)
  {
    var value := TrimSpace(s);
    TrimmedToNothing(s);
    if value == "" {
      return Failed(Empty);
    }
    var negative := false;
    if value[0] == '-' {
      negative := true;
      value := value[1..];
    } else if value[0] == '+' {
      value := value[1..];
    }
    assert value == BodyOf(s);
    forall a ensures Denotes(s, a) <==> GoodBody(value) && a == SignedAmount(s) {
      DenotesIffGoodBody(s, a);
    }
    if value == "" {
      return Failed(Malformed);
    }
    var ok, text := BodyDigits(value);
    if !ok {
      return Failed(Malformed);
    }
    r := Signed(negative, text);
    assert Denotes(s, if negative then 0 - Value(text) else Value(text));
  }

  lemma TrimmedToNothing(s: string)
    ensures TrimSpace(s) == "" <==> Spaces(s)
  {
    var lead, trail := Trimmed(s);
    if Spaces(s) {
      assert s + [] == s;
      TrimLeftSkips(s, []);
    }
    assert TrimSpace(s) == "" ==> s == lead + trail;
  }

  // ---------------------------------------------------------------- the round trip

  lemma PrintedReading(f: int64) returns (r: Reading)
    ensures r.Valid() && r.Text() == YuanString(f) && r.Amount() == f as int
    ensures r.lead == "" && r.trail == "" && r.point == "." && |r.frac| == 2
    ensures r.sign == (if f < 0 then "-" else "") && r.whole == Decimal((Magnitude(f) / FEN_PER_YUAN) as nat)
  {
    var (magnitude, sign) := (Magnitude(f), if f < 0 then "-" else "");
    var (whole, frac) := (Decimal((magnitude / FEN_PER_YUAN) as nat), TwoDigits((magnitude % FEN_PER_YUAN) as nat));
    r := Reading("", sign, whole, ".", frac, "");
    PlainText(sign, whole, frac);
    assert r.Valid();
  }

  lemma PlainText(sign: string, whole: string, frac: string)
    ensures Reading("", sign, whole, ".", frac, "").Text() == sign + whole + "." + frac
  {
    assert "" + (sign + (whole + "." + frac)) + "" == sign + whole + "." + frac;
  }

  /** The printed form of an amount denotes it, for every int64. */
  lemma PrintedDenotes(f: int64)
    ensures Denotes(YuanString(f), f as int)
  {
    var r := PrintedReading(f);
  }

  /** The form amounts are printed in: a minus sign for negative amounts and nothing else in front, no
      leading zero but that of a whole part of zero, a point and two digits. */
  ghost predicate Canonical(s: string, r: Reading) {
    && r.Valid() && r.Text() == s
    && r.lead == "" && r.trail == "" && r.point == "." && |r.frac| == 2
    && (r.sign == "-" <==> r.Amount() < 0) && r.sign != "+"
    && r.whole != "" && (r.whole[0] == '0' ==> r.whole == "0")
  }

  lemma {:induction false} LargeValue(s: string)
    requires Digits(s) && s != "" && s[0] != '0'
    ensures Value(s) > 0 && (|s| > 1 ==> Value(s) >= 10)
  {
    if |s| > 1 {
      LargeValue(s[..|s| - 1]);
    } else {
      assert s[..0] == "";
    }
  }

  lemma DecimalSnoc(n: nat, d: nat)
    requires n > 0 && d < 10
    ensures Decimal(10 * n + d) == Decimal(n) + [Digit(d)]
  {
    assert (10 * n + d) / 10 == n && (10 * n + d) % 10 == d;
  }

  lemma {:induction false} DecimalIsUnique(s: string)
    requires Digits(s) && s != "" && (s[0] == '0' ==> s == "0")
    ensures s == Decimal(Value(s))
  {
    var n := |s| - 1;
    if n == 0 {
      assert s[..0] == "" && s == [s[0]];
    } else {
      LargeValue(s);
      DecimalIsUnique(s[..n]);
      DecimalSnoc(Value(s[..n]), DigitValue(s[n]));
      assert s == s[..n] + [s[n]];
    }
  }

  lemma TwoDigitsAreUnique(s: string)
    requires Digits(s) && |s| == 2
    ensures Value(s) < 100 && s == TwoDigits(Value(s))
  {
    assert s[..1] == [s[0]] && s == [s[0], s[1]];
    assert Value(s[..1]) == 10 * Value([]) + DigitValue(s[0]);
  }

  /** An amount is printed as the one canonical text that denotes it. */
  lemma PrintsCanonically(f: int64, s: string)
    ensures s == YuanString(f) <==> exists r :: Canonical(s, r) && r.Amount() == f as int
  {
    PrintedIsCanonical(f);
    forall r | Canonical(s, r) && r.Amount() == f as int ensures s == YuanString(f) {
      CanonicalIsPrinted(f, s, r);
    }
  }

  lemma PrintedIsCanonical(f: int64)
    ensures exists r :: Canonical(YuanString(f), r) && r.Amount() == f as int
  {
    var r := PrintedReading(f);
    assert Canonical(YuanString(f), r);
  }

  lemma CanonicalIsPrinted(f: int64, s: string, r: Reading)
    requires Canonical(s, r) && r.Amount() == f as int
    ensures s == YuanString(f)
  {
    DecimalIsUnique(r.whole);
    TwoDigitsAreUnique(r.frac);
    PlainText(r.sign, r.whole, r.frac);
    var magnitude := Magnitude(f) as int;
    assert magnitude == 100 * Value(r.whole) + Value(r.frac);
    assert magnitude / 100 == Value(r.whole) && magnitude % 100 == Value(r.frac);
  }

  /** Parsing what was printed gives the amount back, the minimum included. */
  method RoundTrip(f: int64) returns (r: Result)
    ensures r == Ok(f)
  {
    r := ParseYuan(YuanString(f));
    PrintedDenotes(f);
    AnswerIsExact(YuanString(f), r, f as int);
  }

  lemma PrintingIsInjective(f: int64, g: int64)
    requires YuanString(f) == YuanString(g)
    ensures f == g
  {
    PrintedDenotes(f);
    PrintedDenotes(g);
    DenotesOne(YuanString(f), f as int, g as int);
  }
}
