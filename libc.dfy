/** The few behaviours of the C library that the object and value code relies
    on, stated over `seq<char>`: the text of a NUL-terminated buffer (what
    `strlen` measures and `printf` with `%s` or `%.*s` prints), ASCII
    `tolower`, and `printf` with `%lld`. */
module LibC {

  /** The text a C character buffer denotes: its characters up to, and not
      including, the first NUL, or all of them when it holds none. */
  function CText(s: seq<char>): (r: seq<char>)
    ensures r <= s
    ensures '\0' !in r
    ensures |r| < |s| ==> s[|r|] == '\0'
  {
    if s == [] || s[0] == '\0' then [] else [s[0]] + CText(s[1..])
  }

  /** A buffer that holds `text` followed by a terminator denotes `text`,
      whatever follows the terminator. */
  lemma TerminatedText(text: seq<char>, rest: seq<char>)
    requires '\0' !in text
    ensures CText(text + ['\0'] + rest) == text
  {
    var s := text + ['\0'] + rest;
    assert s[|text|] == '\0';
    assert s[..|text|] == text;
  }

  /** Appending a terminator to a buffer does not change the text it denotes. */
  lemma {:induction false} TerminatorKeepsText(s: seq<char>)
    ensures CText(s + ['\0']) == CText(s)
  {
    if s != [] && s[0] != '\0' {
      TerminatorKeepsText(s[1..]);
      assert (s + ['\0'])[1..] == s[1..] + ['\0'];
    }
  }

  predicate IsUpper(c: char) { 'A' <= c <= 'Z' }

  /** `tolower` in the "C" locale: A to Z become a to z, nothing else changes. */
  function ToLower(c: char): (r: char)
    ensures !IsUpper(r)
    ensures r == c <==> !IsUpper(c)
    ensures IsUpper(c) ==> r as int == c as int + ('a' as int - 'A' as int)
  {
    if IsUpper(c) then (c as int + ('a' as int - 'A' as int)) as char else c
  }

  /** Every character of `s` passed through `ToLower`. */
  function Lowered(s: seq<char>): (r: seq<char>)
    ensures |r| == |s|
    ensures forall i :: 0 <= i < |s| ==> r[i] == ToLower(s[i])
  {
    seq(|s|, i requires 0 <= i < |s| => ToLower(s[i]))
  }

  /** Lowering twice is lowering once: lowered bytes are already canonical. */
  lemma LoweredIdempotent(s: seq<char>)
    ensures Lowered(Lowered(s)) == Lowered(s)
  {
  }

  /** Lowering never creates or removes a terminator, so it leaves the
      position of the first NUL where it was. */
  lemma LoweredKeepsText(s: seq<char>)
    ensures CText(Lowered(s)) == Lowered(CText(s))
  {
    var t := CText(s);
    var lt := Lowered(t);
    var ls := Lowered(s);
    assert ls[..|t|] == lt;
    if |t| < |s| {
      assert ls[|t|] == '\0';
      TerminatedText(lt, ls[|t| + 1..]);
      assert ls == lt + ['\0'] + ls[|t| + 1..];
    } else {
      assert t == s;
      assert '\0' !in lt;
    }
  }

  // ---- printf("%lld") ----

  function DigitChar(d: nat): (c: char)
    requires d < 10
    ensures '0' <= c <= '9'
  {
    ('0' as int + d) as char
  }

  predicate AllDigits(s: seq<char>)
  {
    forall k :: 0 <= k < |s| ==> '0' <= s[k] <= '9'
  }

  /** The decimal digits of `n`, most significant first, without leading zeros. */
  function NatText(n: nat): (r: seq<char>)
    ensures |r| >= 1 && AllDigits(r)
    ensures r[0] == '0' ==> n == 0
    decreases n
  {
    if n < 10 then [DigitChar(n)] else NatText(n / 10) + [DigitChar(n % 10)]
  }

  /** What `printf("%lld", i)` prints: an optional minus sign and the digits
      of the magnitude. */
  function DecimalText(i: int): (r: seq<char>)
    ensures |r| >= 1
    ensures r[0] == '-' <==> i < 0
    ensures i >= 0 ==> '0' <= r[0] <= '9'
  {
    if i < 0 then ['-'] + NatText(-i) else NatText(i)
  }

  /** Reference reading of a digit string, independent of `NatText`. */
  function DigitsValue(s: seq<char>): nat
    requires AllDigits(s)
  {
    if s == [] then 0 else DigitsValue(s[..|s| - 1]) * 10 + (s[|s| - 1] as int - '0' as int)
  }

  predicate IsDecimal(s: seq<char>)
  {
    if |s| > 0 && s[0] == '-' then |s| > 1 && AllDigits(s[1..]) else |s| > 0 && AllDigits(s)
  }

  /** The integer a well-formed decimal denotes. */
  function DecimalValue(s: seq<char>): int
    requires IsDecimal(s)
  {
    if s[0] == '-' then -(DigitsValue(s[1..]) as int) else DigitsValue(s)
  }

  lemma {:induction false} NatTextValue(n: nat)
    ensures DigitsValue(NatText(n)) == n
    decreases n
  {
    var r := NatText(n);
    if n >= 10 {
      NatTextValue(n / 10);
      assert r[..|r| - 1] == NatText(n / 10);
    }
  }

  /** Reading back what `%lld` prints gives the integer printed. */
  lemma DecimalRoundTrip(i: int)
    ensures IsDecimal(DecimalText(i))
    ensures DecimalValue(DecimalText(i)) == i
  {
    if i < 0 {
      NatTextValue(-i);
      assert DecimalText(i)[1..] == NatText(-i);
    } else {
      NatTextValue(i);
    }
  }

  /** Distinct integers print differently. */
  lemma DecimalTextInjective(i: int, j: int)
    requires DecimalText(i) == DecimalText(j)
    ensures i == j
  {
    DecimalRoundTrip(i);
    DecimalRoundTrip(j);
  }
}
