/** The type-conversion tools: a value converts from its text only when
    printing the parsed value reproduces the text exactly. */
module Convert {
  import opened Errors

  /** The integer types the daemon converts to (`pid_t` is `int`). */
  datatype IntType = Int | UInt | Long | ULong

  function MinOf(t: IntType): int {
    match t
    case Int => -0x8000_0000
    case UInt => 0
    case Long => -0x8000_0000_0000_0000
    case ULong => 0
  }

  function MaxOf(t: IntType): int {
    match t
    case Int => 0x7FFF_FFFF
    case UInt => 0xFFFF_FFFF
    case Long => 0x7FFF_FFFF_FFFF_FFFF
    case ULong => 0xFFFF_FFFF_FFFF_FFFF
  }

  predicate InRange(t: IntType, v: int) {
    MinOf(t) <= v <= MaxOf(t)
  }

  function TypeName(t: IntType): string {
    match t
    case Int => "int"
    case UInt => "unsigned int"
    case Long => "long"
    case ULong => "unsigned long"
  }

  const StringName: string := "std::string"

  // ---------------------------------------------------------------------
  // printing

  predicate IsDigit(c: char) {
    '0' <= c <= '9'
  }

  function DigitChar(d: nat): (c: char)
    requires d < 10
    ensures IsDigit(c)
  {
    (48 + d) as char
  }

  function DigitVal(c: char): nat
    requires IsDigit(c)
  {
    (c as int) - 48
  }

  /** The decimal digits of `n`, most significant first, no leading zero. */
  function NatToDigits(n: nat): (s: string)
    ensures |s| > 0
    decreases n
  {
    if n < 10 then [DigitChar(n)] else NatToDigits(n / 10) + [DigitChar(n % 10)]
  }

  /** What streaming an integer prints. */
  function IntToString(v: int): string {
    if v < 0 then "-" + NatToDigits(-v) else NatToDigits(v)
  }

  // ---------------------------------------------------------------------
  // parsing

  /** Non-empty decimal digits without a leading zero (a lone "0" allowed). */
  predicate Canonical(s: string) {
    && |s| > 0
    && (forall k :: 0 <= k < |s| ==> IsDigit(s[k]))
    && (s[0] != '0' || |s| == 1)
  }

  function DigitsValue(s: string): nat
    requires forall k :: 0 <= k < |s| ==> IsDigit(s[k])
  {
    if |s| == 0 then 0 else DigitsValue(s[..|s| - 1]) * 10 + DigitVal(s[|s| - 1])
  }

  /** The value text denotes when streamed into an integer and printed back
      unchanged, if any. */
  function ParseExact(s: string): Option<int> {
    if |s| > 0 && s[0] == '-' && Canonical(s[1..]) && s[1..] != "0" then Some(-(DigitsValue(s[1..]) as int))
    else if Canonical(s) then Some(DigitsValue(s))
    else None
  }

  /** `convert<T>(std::string)` for an integer type T. */
  function ConvertInt(t: IntType, s: string): (r: Result<int>)
    ensures r.Ok? ==> InRange(t, r.value)
    ensures r.Err? ==> r.error == TypeError(TypeName(t), StringName, "")
  {
    match ParseExact(s)
    case Some(v) =>
      if InRange(t, v) then Ok(v) else Err(TypeError(TypeName(t), StringName, ""))
    case None => Err(TypeError(TypeName(t), StringName, ""))
  }

  // ---------------------------------------------------------------------
  // the round trip

  lemma {:induction false} DigitsRoundTrip(n: nat)
    ensures Canonical(NatToDigits(n))
    ensures DigitsValue(NatToDigits(n)) == n
    decreases n
  {
    if n >= 10 {
      DigitsRoundTrip(n / 10);
      var s := NatToDigits(n);
      var p := NatToDigits(n / 10);
      assert s == p + [DigitChar(n % 10)];
      assert s[..|s| - 1] == p;
      assert s[0] == p[0];
    }
  }

  lemma {:induction false} LeadingDigitPositive(s: string)
    requires Canonical(s) && s[0] != '0'
    ensures DigitsValue(s) > 0
    decreases |s|
  {
    if |s| > 1 {
      var p := s[..|s| - 1];
      assert p[0] == s[0];
      LeadingDigitPositive(p);
    }
  }

  lemma {:induction false} CanonicalRoundTrip(s: string)
    requires Canonical(s)
    ensures NatToDigits(DigitsValue(s)) == s
    decreases |s|
  {
    var d := DigitVal(s[|s| - 1]);
    assert DigitChar(d) == s[|s| - 1];
    if |s| > 1 {
      var p := s[..|s| - 1];
      assert p[0] == s[0];
      LeadingDigitPositive(p);
      CanonicalRoundTrip(p);
      var n := DigitsValue(s);
      assert n == DigitsValue(p) * 10 + d;
      assert n / 10 == DigitsValue(p) && n % 10 == d;
      assert s == p + [s[|s| - 1]];
    }
  }

  /** Printing then converting returns every in-range value. */
  lemma IntRoundTrip(t: IntType, v: int)
    requires InRange(t, v)
    ensures ConvertInt(t, IntToString(v)) == Ok(v)
  {
    var s := IntToString(v);
    if v < 0 {
      DigitsRoundTrip(-v);
      assert s[0] == '-' && s[1..] == NatToDigits(-v);
      assert DigitsValue("0") == 0;
      assert s[1..] != "0";
      assert ParseExact(s) == Some(v);
    } else {
      DigitsRoundTrip(v);
      assert IsDigit(s[0]);
      assert ParseExact(s) == Some(v);
    }
  }

  /** Only the exact printed form converts: whatever text converts is the
      printing of its value (no sign "+", no leading zeros, no spaces, no
      "-0", nothing trailing). */
  lemma ConvertIsExact(t: IntType, s: string)
    requires ConvertInt(t, s).Ok?
    ensures s == IntToString(ConvertInt(t, s).value)
  {
    if |s| > 0 && s[0] == '-' && Canonical(s[1..]) && s[1..] != "0" {
      CanonicalRoundTrip(s[1..]);
      assert s[1..][0] != '0';
      LeadingDigitPositive(s[1..]);
      assert s == "-" + s[1..];
    } else {
      CanonicalRoundTrip(s);
    }
  }

  /** Text of an out-of-range value is rejected, as the stream saturates
      and prints something else. */
  lemma OutOfRangeRejected(t: IntType, v: int)
    requires !InRange(t, v)
    ensures ConvertInt(t, IntToString(v)).Err?
  {
    if ConvertInt(t, IntToString(v)).Ok? {
      ConvertIsExact(t, IntToString(v));
      PrintingInjective(ConvertInt(t, IntToString(v)).value, v);
    }
  }

  lemma PrintingInjective(a: int, b: int)
    requires IntToString(a) == IntToString(b)
    ensures a == b
  {
    if a < 0 && b < 0 {
      assert NatToDigits(-a) == IntToString(a)[1..] == NatToDigits(-b);
      DigitsRoundTrip(-a);
      DigitsRoundTrip(-b);
    } else if a >= 0 && b >= 0 {
      DigitsRoundTrip(a);
      DigitsRoundTrip(b);
    } else if a < 0 {
      DigitsRoundTrip(b);
    } else {
      DigitsRoundTrip(a);
    }
  }

  /** The default throttle temperature converts. */
  lemma ThresholdConverts()
    ensures ConvertInt(ULong, "66000") == Ok(66000)
  {
    assert NatToDigits(6) == "6";
    assert NatToDigits(66) == "66";
    assert NatToDigits(660) == "660";
    assert NatToDigits(6600) == "6600";
    assert NatToDigits(66000) == "66000";
    IntRoundTrip(ULong, 66000);
  }

  /** A leading zero is not the printed form, so it does not convert. */
  lemma LeadingZeroRejected()
    ensures ConvertInt(ULong, "066000").Err?
  {
    assert "066000"[0] == '0' && "066000"[0] != '-';
    assert ParseExact("066000") == None;
  }

  /** The default maximum nice value converts. */
  lemma NegativeConverts()
    ensures ConvertInt(Int, "-21") == Ok(-21)
  {
    assert NatToDigits(2) == "2";
    assert NatToDigits(21) == "21";
    IntRoundTrip(Int, -21);
  }

  /** A negative value is out of range for an unsigned type. */
  lemma NegativeUnsignedRejected()
    ensures ConvertInt(ULong, "-1").Err?
  {
    assert "-1"[1..] == "1";
    assert DigitsValue("1") == 1;
    assert ParseExact("-1") == Some(-1);
  }

  // ---------------------------------------------------------------------
  // bool, char, string and vectors

  /** Booleans print as "true" / "false". */
  function BoolToString(b: bool): (s: string)
    ensures s == "true" || s == "false"
  {
    if b then "true" else "false"
  }

  /** `convert<bool>(std::string)`: only the exact words convert. */
  function ConvertBool(s: string): (r: Result<bool>)
    ensures r.Err? ==> r.error == TypeError("bool", StringName, "")
  {
    if s == "true" then Ok(true)
    else if s == "false" then Ok(false)
    else Err(TypeError("bool", StringName, ""))
  }

  lemma BoolRoundTrip(b: bool, s: string)
    ensures ConvertBool(BoolToString(b)) == Ok(b)
    ensures ConvertBool(s).Ok? ==> BoolToString(ConvertBool(s).value) == s
  {
  }

  predicate IsSpace(c: char) {
    c == ' ' || c == '\t' || c == '\n' || c == 11 as char || c == 12 as char || c == '\r'
  }

  /** `convert<char>(std::string)`: extraction skips white space and reads
      one character, so only a single non-blank character converts. */
  function ConvertChar(s: string): (r: Result<char>)
    ensures r.Err? ==> r.error == TypeError("char", StringName, "")
  {
    if |s| == 1 && !IsSpace(s[0]) then Ok(s[0]) else Err(TypeError("char", StringName, ""))
  }

  lemma CharRoundTrip(c: char, s: string)
    ensures !IsSpace(c) ==> ConvertChar([c]) == Ok(c)
    ensures ConvertChar(s).Ok? ==> [ConvertChar(s).value] == s
  {
  }

  /** `convert<T>(std::vector<std::string>)` for an integer type T: element
      by element, the first failure propagating. */
  function ConvertAll(t: IntType, v: seq<string>): (r: Result<seq<int>>)
    ensures r.Ok? <==> forall k :: 0 <= k < |v| ==> ConvertInt(t, v[k]).Ok?
    ensures r.Ok? ==> |r.value| == |v| && forall k :: 0 <= k < |v| ==> r.value[k] == ConvertInt(t, v[k]).value
    ensures r.Err? ==> r.error == TypeError(TypeName(t), StringName, "")
    decreases |v|
  {
    if |v| == 0 then Ok([])
    else
      var head :- ConvertInt(t, v[0]);
      var tail :- ConvertAll(t, v[1..]);
      assert forall k :: 1 <= k < |v| ==> v[k] == v[1..][k - 1];
      Ok([head] + tail)
  }

  /** One element converted in front of a converted rest. */
  lemma ConvertAllCons(t: IntType, v: seq<string>, head: int, tail: seq<int>)
    requires |v| > 0 && ConvertInt(t, v[0]) == Ok(head) && ConvertAll(t, v[1..]) == Ok(tail)
    ensures ConvertAll(t, v) == Ok([head] + tail)
  {
  }

  /** Printing a list of in-range values and converting it back is the
      identity. */
  lemma {:induction false} ConvertAllRoundTrip(t: IntType, xs: seq<int>)
    requires forall k :: 0 <= k < |xs| ==> InRange(t, xs[k])
    ensures ConvertAll(t, PrintAll(xs)) == Ok(xs)
    decreases |xs|
  {
    if |xs| > 0 {
      var printed := PrintAll(xs);
      IntRoundTrip(t, xs[0]);
      assert printed[0] == IntToString(xs[0]);
      assert printed[1..] == PrintAll(xs[1..]);
      ConvertAllRoundTrip(t, xs[1..]);
      ConvertAllCons(t, printed, xs[0], xs[1..]);
      assert xs == [xs[0]] + xs[1..];
    }
  }

  /** `convert<T>(std::vector<std::string>)` for any element conversion:
      element by element, the first failure propagating. */
  function ConvertEach<T>(conv: string -> Result<T>, v: seq<string>): (r: Result<seq<T>>)
    ensures r.Ok? <==> forall k :: 0 <= k < |v| ==> conv(v[k]).Ok?
    ensures r.Ok? ==> |r.value| == |v| && forall k :: 0 <= k < |v| ==> r.value[k] == conv(v[k]).value
    ensures r.Err? ==> exists k :: 0 <= k < |v| && conv(v[k]) == Err(r.error)
                                   && forall j :: 0 <= j < k ==> conv(v[j]).Ok?
    decreases |v|
  {
    if |v| == 0 then Ok([])
    else
      var head :- conv(v[0]);
      var tail :- ConvertEach(conv, v[1..]);
      assert forall k :: 1 <= k < |v| ==> v[k] == v[1..][k - 1];
      Ok([head] + tail)
  }

  function PrintAll(xs: seq<int>): (r: seq<string>)
    ensures |r| == |xs|
  {
    if |xs| == 0 then [] else [IntToString(xs[0])] + PrintAll(xs[1..])
  }
}
