/** JavaScript string operations the row store relies on: `trim()` and `String(number)`. */
module Text {

  /** The WhiteSpace and LineTerminator code points of ECMAScript, which `String.prototype.trim` removes. */
  predicate IsTrimSpace(c: char) {
    || c == '\t' || c == '\n' || c == '\U{000B}' || c == '\U{000C}' || c == '\r'
    || c == ' ' || c == '\U{00A0}' || c == '\U{1680}' || ('\U{2000}' <= c <= '\U{200A}')
    || c == '\U{2028}' || c == '\U{2029}' || c == '\U{202F}' || c == '\U{205F}'
    || c == '\U{3000}' || c == '\U{FEFF}'
  }

  /** Drops the leading white space. */
  function TrimStart(s: string): (r: string)
    ensures |r| <= |s|
  {
    if s != [] && IsTrimSpace(s[0]) then TrimStart(s[1..]) else s
  }

  /** Drops the trailing white space. */
  function TrimEnd(s: string): (r: string)
    ensures |r| <= |s|
  {
    if s != [] && IsTrimSpace(s[|s| - 1]) then TrimEnd(s[..|s| - 1]) else s
  }

  /** `s.trim()`. */
  function Trim(s: string): (r: string)
    ensures |r| <= |s|
  {
    TrimEnd(TrimStart(s))
  }

  /** `TrimStart` keeps a suffix, everything it cuts off is white space, and what it keeps does not start with white space. */
  lemma {:induction false} TrimStartSpec(s: string)
    ensures var r := TrimStart(s);
      && r == s[|s| - |r|..]
      && (forall k :: 0 <= k < |s| - |r| ==> IsTrimSpace(s[k]))
      && (r == [] || !IsTrimSpace(r[0]))
  {
    if s != [] && IsTrimSpace(s[0]) {
      TrimStartSpec(s[1..]);
      var r := TrimStart(s);
      forall k | 0 <= k < |s| - |r|
        ensures IsTrimSpace(s[k])
      {
        if k > 0 {
          assert s[k] == s[1..][k - 1];
        }
      }
    }
  }

  /** `TrimEnd` keeps a prefix, everything it cuts off is white space, and what it keeps does not end with white space. */
  lemma {:induction false} TrimEndSpec(s: string)
    ensures var r := TrimEnd(s);
      && r == s[..|r|]
      && (forall k :: |r| <= k < |s| ==> IsTrimSpace(s[k]))
      && (r == [] || !IsTrimSpace(r[|r| - 1]))
  {
    if s != [] && IsTrimSpace(s[|s| - 1]) {
      TrimEndSpec(s[..|s| - 1]);
      var r := TrimEnd(s);
      forall k | |r| <= k < |s|
        ensures IsTrimSpace(s[k])
      {
        if k < |s| - 1 {
          assert s[k] == s[..|s| - 1][k];
        }
      }
    }
  }

  /** `trim()` keeps a contiguous part of `s`, cuts off only white space on either side, and what it keeps
      neither starts nor ends with white space. */
  lemma TrimSpec(s: string)
    ensures exists lo: nat, hi: nat ::
      && lo <= hi <= |s|
      && Trim(s) == s[lo..hi]
      && (forall k :: 0 <= k < lo ==> IsTrimSpace(s[k]))
      && (forall k :: hi <= k < |s| ==> IsTrimSpace(s[k]))
    ensures Trim(s) == [] || (!IsTrimSpace(Trim(s)[0]) && !IsTrimSpace(Trim(s)[|Trim(s)| - 1]))
  {
    var t := TrimStart(s);
    var r := Trim(s);
    var lo := |s| - |t|;
    var hi := lo + |r|;
    assert t == s[lo..] && forall k :: 0 <= k < lo ==> IsTrimSpace(s[k]) by {
      TrimStartSpec(s);
    }
    assert r == t[..|r|] && (forall k :: |r| <= k < |t| ==> IsTrimSpace(t[k])) && (r == [] || !IsTrimSpace(r[|r| - 1])) by {
      TrimEndSpec(t);
    }
    assert r == s[lo..hi];
    assert forall k :: hi <= k < |s| ==> IsTrimSpace(s[k]) by {
      forall k | hi <= k < |s|
        ensures IsTrimSpace(s[k])
      {
        assert s[k] == t[k - lo];
      }
    }
    if r != [] {
      assert !IsTrimSpace(r[0]) by {
        TrimStartSpec(s);
        assert r[0] == t[0];
      }
    }
  }

  /** A string that neither starts nor ends with white space is its own trim. */
  lemma TrimUnpadded(s: string)
    requires s != [] && !IsTrimSpace(s[0]) && !IsTrimSpace(s[|s| - 1])
    ensures Trim(s) == s
  {
  }

  /** Trimming twice is trimming once. */
  lemma TrimIdempotent(s: string)
    ensures Trim(Trim(s)) == Trim(s)
  {
    TrimSpec(s);
    if Trim(s) != [] {
      TrimUnpadded(Trim(s));
    }
  }

  predicate IsDigit(c: char) {
    '0' <= c <= '9'
  }

  function DigitChar(d: nat): (c: char)
    requires d < 10
    ensures IsDigit(c)
  {
    ('0' as int + d) as char
  }

  /** The decimal numeral of `n`, as JavaScript writes a non-negative integer. */
  function DecimalText(n: nat): (r: string)
    ensures r != [] && forall k :: 0 <= k < |r| ==> IsDigit(r[k])
  {
    if n < 10 then [DigitChar(n)] else DecimalText(n / 10) + [DigitChar(n % 10)]
  }

  predicate AllDigits(s: string) {
    forall k :: 0 <= k < |s| ==> IsDigit(s[k])
  }

  /** The number a string of decimal digits denotes, most significant digit first. */
  function DecimalValue(s: string): nat
    requires AllDigits(s)
  {
    if |s| == 0 then 0 else DecimalValue(s[..|s| - 1]) * 10 + (s[|s| - 1] as int - '0' as int)
  }

  /** `DecimalText(n)` denotes `n` and has no leading zero. */
  lemma {:induction false} DecimalTextValue(n: nat)
    ensures AllDigits(DecimalText(n)) && DecimalValue(DecimalText(n)) == n
    ensures DecimalText(n)[0] != '0' || n == 0
  {
    if n >= 10 {
      DecimalTextValue(n / 10);
      var t := DecimalText(n);
      assert t[..|t| - 1] == DecimalText(n / 10);
    }
  }

  /** Distinct numbers get distinct numerals. */
  lemma DecimalTextInjective(m: nat, n: nat)
    requires DecimalText(m) == DecimalText(n)
    ensures m == n
  {
    DecimalTextValue(m);
    DecimalTextValue(n);
  }

  /** Up to `count` decimal digits of a fraction in [0, 1), stopping once the expansion ends. */
  function FractionDigits(f: real, count: nat): (r: string)
    requires 0.0 <= f < 1.0
    ensures forall k :: 0 <= k < |r| ==> IsDigit(r[k])
    ensures f != 0.0 && count > 0 ==> r != []
    decreases count
  {
    if count == 0 || f == 0.0 then ""
    else
      var scaled := f * 10.0;
      var d := scaled.Floor;
      [DigitChar(d)] + FractionDigits(scaled - d as real, count - 1)
  }

  /** `String(x)` for a number: a sign, the integer part in decimal and, for a non-integer, a point and its fraction digits. */
  function NumberText(x: real): (r: string)
    ensures r != [] && (r[0] == '-' || IsDigit(r[0])) && IsDigit(r[|r| - 1])
    ensures (r[0] == '-') <==> x < 0.0
  {
    var magnitude := if x < 0.0 then -x else x;
    var whole := magnitude.Floor;
    var fraction := magnitude - whole as real;
    var body := DecimalText(whole) + (if fraction == 0.0 then "" else "." + FractionDigits(fraction, 20));
    assert IsDigit(body[0]) && IsDigit(body[|body| - 1]);
    (if x < 0.0 then "-" else "") + body
  }

  /** A number's text carries no surrounding white space, so trimming it changes nothing. */
  lemma NumberTextIsTrimmed(x: real)
    ensures Trim(NumberText(x)) == NumberText(x)
  {
    TrimUnpadded(NumberText(x));
  }
}
