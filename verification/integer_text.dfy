/** Integer text as the client handles it: the `^-?\d+$` check that
    `setCount` applies to the user's input, and the decimal rendering of the
    counter value that `getCount` displays. */
module IntegerText {

  /** `\d` in a JavaScript regular expression without the `u` flag: an ASCII digit. */
  predicate IsDigit(c: char) {
    '0' <= c <= '9'
  }

  /** `\d+`: one or more ASCII digits. */
  predicate IsDigits(s: string) {
    |s| > 0 && forall i :: 0 <= i < |s| ==> IsDigit(s[i])
  }

  /** The language of `^-?\d+$`: an optional leading minus, then digits, and
      nothing else (without the `m` flag `$` only matches at the very end). */
  predicate IsIntegerLiteral(s: string) {
    IsDigits(s) || (|s| > 0 && s[0] == '-' && IsDigits(s[1..]))
  }

  /** How `setCount` judges its input: emptiness first, then the pattern. */
  datatype Verdict = Empty | Malformed | WellFormed

  function CheckInput(s: string): (v: Verdict)
    ensures v == WellFormed <==> IsIntegerLiteral(s)
    ensures v == Empty <==> s == ""
    ensures v == Malformed <==> s != "" && !IsIntegerLiteral(s)
  {
    if s == "" then Empty
    else if !IsIntegerLiteral(s) then Malformed
    else WellFormed
  }

  /** The states of a left-to-right matcher for `^-?\d+$`. */
  datatype MatchState = Start | AfterSign | InDigits | Dead

  function Step(st: MatchState, c: char): MatchState {
    match st
    case Start => if c == '-' then AfterSign else if IsDigit(c) then InDigits else Dead
    case AfterSign => if IsDigit(c) then InDigits else Dead
    case InDigits => if IsDigit(c) then InDigits else Dead
    case Dead => Dead
  }

  /** Appending one character to a prefix keeps it in the language exactly
      when the prefix was empty, a bare sign, or already a literal, and the
      character is a digit. */
  lemma ExtendLiteral(t: string, c: char)
    ensures IsIntegerLiteral(t + [c]) <==> (t == "" || t == "-" || IsIntegerLiteral(t)) && IsDigit(c)
  {
    var u := t + [c];
    assert u[..|t|] == t && u[|t|] == c;
    if |t| > 0 && t[0] == '-' {
      assert u[1..] == t[1..] + [c];
    }
  }

  /** Runs the pattern over the input one character at a time, the way the
      regular-expression engine scans it, and accepts exactly the language
      of `^-?\d+$`. */
  method MatchesIntegerPattern(s: string) returns (accepted: bool)
    ensures accepted <==> IsIntegerLiteral(s)
  {
    var st := Start;
    var i := 0;
    while i < |s|
      invariant 0 <= i <= |s|
      invariant st == Start <==> i == 0
      invariant st == AfterSign <==> s[..i] == "-"
      invariant st == InDigits <==> IsIntegerLiteral(s[..i])
      invariant st == Dead <==> i > 0 && s[..i] != "-" && !IsIntegerLiteral(s[..i])
    {
      assert s[..i+1] == s[..i] + [s[i]];
      ExtendLiteral(s[..i], s[i]);
      st := Step(st, s[i]);
      i := i + 1;
    }
    assert s[..i] == s;
    accepted := st == InDigits;
  }

  /** The character for a digit value below ten. */
  function DigitChar(d: nat): (c: char)
    requires d < 10
    ensures IsDigit(c)
  {
    "0123456789"[d]
  }

  /** The value of an ASCII digit. */
  function DigitValue(c: char): (d: nat)
    requires IsDigit(c)
    ensures d < 10
  {
    (c as int) - ('0' as int)
  }

  /** `value.toString()` for a non-negative count: its decimal digits, most
      significant first, without leading zeros. */
  function Decimal(n: nat): (s: string)
    ensures IsDigits(s)
    ensures s[0] == '0' ==> n == 0 && |s| == 1
    decreases n
  {
    if n < 10 then [DigitChar(n)] else Decimal(n / 10) + [DigitChar(n % 10)]
  }

  /** The number a string of digits denotes. */
  function DigitsValue(s: string): nat
    requires forall i :: 0 <= i < |s| ==> IsDigit(s[i])
  {
    if |s| == 0 then 0 else 10 * DigitsValue(s[..|s| - 1]) + DigitValue(s[|s| - 1])
  }

  /** Reading back the rendered count gives the count. */
  lemma {:induction false} DecimalRoundTrip(n: nat)
    ensures DigitsValue(Decimal(n)) == n
    decreases n
  {
    var s := Decimal(n);
    if n < 10 {
      assert s[..|s| - 1] == [];
    } else {
      DecimalRoundTrip(n / 10);
      assert s[..|s| - 1] == Decimal(n / 10);
    }
  }

  /** Rendering is injective: two counts display the same text only when equal. */
  lemma DecimalInjective(m: nat, n: nat)
    requires Decimal(m) == Decimal(n)
    ensures m == n
  {
    DecimalRoundTrip(m);
    DecimalRoundTrip(n);
  }

  /** Examples at the edges of `^-?\d+$`: "12.5", "abc", "" and a bare sign
      are refused; "0", "42" and "-7" pass (negatives are not refused here). */
  lemma PatternExamples()
    ensures CheckInput("") == Empty
    ensures CheckInput("12.5") == Malformed
    ensures CheckInput("abc") == Malformed
    ensures CheckInput("-") == Malformed
    ensures CheckInput("+1") == Malformed
    ensures CheckInput(" 1") == Malformed
    ensures CheckInput("0") == WellFormed
    ensures CheckInput("42") == WellFormed
    ensures CheckInput("-7") == WellFormed
  {
    assert !IsDigit('.') && !IsDigit('a') && !IsDigit('+') && !IsDigit(' ') && !IsDigit('-');
    assert "12.5"[2] == '.' && "abc"[0] == 'a' && " 1"[0] == ' ' && "-"[0] == '-' && "+1"[0] == '+';
    assert "-"[1..] == "";
    assert "-7"[1..] == "7";
  }
}
