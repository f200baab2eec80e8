/**
 The Python string built-ins the converter relies on, on strings as sequences
 of characters: `str.isspace`, `str.strip() == ""`, `str.split()` with no
 separator, `" ".join`, `str(n)` for an integer and `int(token)`.
 */
module Text {
  import opened Wrappers

  /** `ch.isspace()`: ASCII whitespace, the separators U+001C..U+001F and the Unicode spaces. */
  predicate IsSpace(ch: char) {
    || ch == ' '
    || ('\t' <= ch <= '\r')
    || ('\U{1c}' <= ch <= '\U{1f}')
    || ch == '\U{85}' || ch == '\U{a0}' || ch == '\U{1680}'
    || ('\U{2000}' <= ch <= '\U{200a}')
    || ch == '\U{2028}' || ch == '\U{2029}' || ch == '\U{202f}' || ch == '\U{205f}' || ch == '\U{3000}'
  }

  /** `s.strip() == ""`: the line holds whitespace only. */
  predicate IsBlank(s: string) {
    forall j | 0 <= j < |s| :: IsSpace(s[j])
  }

  /** A piece `split()` can return: non-empty, without whitespace. */
  predicate IsToken(t: string) {
    t != [] && forall j | 0 <= j < |t| :: !IsSpace(t[j])
  }

  /** Length of the run of non-space characters at the start of s. */
  function TokenLength(s: string): (n: nat)
    ensures n <= |s|
    ensures forall j | 0 <= j < n :: !IsSpace(s[j])
    ensures n < |s| ==> IsSpace(s[n])
  {
    if s == [] || IsSpace(s[0]) then 0 else 1 + TokenLength(s[1..])
  }

  /** `s.split()`: the maximal runs of non-space characters, in order. */
  function Words(s: string): (ws: seq<string>)
    ensures forall i | 0 <= i < |ws| :: IsToken(ws[i])
    decreases |s|
  {
    if s == [] then []
    else if IsSpace(s[0]) then Words(s[1..])
    else
      var n := TokenLength(s);
      [s[..n]] + Words(s[n..])
  }

  /** `" ".join(ts)`. */
  function Join(ts: seq<string>): string {
    if ts == [] then ""
    else if |ts| == 1 then ts[0]
    else ts[0] + " " + Join(ts[1..])
  }

  /** A line is blank exactly when `split()` finds nothing in it. */
  lemma {:induction false} BlankIffNoWords(s: string)
    ensures IsBlank(s) <==> Words(s) == []
    decreases |s|
  {
    if s != [] {
      if IsSpace(s[0]) {
        BlankIffNoWords(s[1..]);
        assert IsBlank(s) <==> IsBlank(s[1..]) by {
          if IsBlank(s[1..]) {
            forall j | 0 <= j < |s| ensures IsSpace(s[j]) {
              if j > 0 { assert s[j] == s[1..][j - 1]; }
            }
          }
        }
      } else {
        assert !IsBlank(s);
      }
    }
  }

  /** The leading run of a token followed by a separator is the token itself. */
  lemma {:induction false} TokenLengthOfToken(t: string, rest: string)
    requires IsToken(t)
    requires rest == [] || IsSpace(rest[0])
    ensures TokenLength(t + rest) == |t|
    decreases |t|
  {
    if |t| > 1 {
      assert (t + rest)[1..] == t[1..] + rest;
      TokenLengthOfToken(t[1..], rest);
    } else {
      assert (t + rest)[1..] == rest;
    }
  }

  /** A token, a space, then anything: `split()` gives the token, then the words of the rest. */
  lemma WordsOfSeparated(t: string, tail: string)
    requires IsToken(t)
    ensures Words(t + " " + tail) == [t] + Words(tail)
  {
    var s := t + " " + tail;
    assert s == t + (" " + tail);
    TokenLengthOfToken(t, " " + tail);
    assert s[..|t|] == t;
    assert s[|t|..] == " " + tail;
    assert (" " + tail)[1..] == tail;
  }

  /** `split()` undoes `" ".join` on tokens. */
  lemma {:induction false} WordsOfJoin(ts: seq<string>)
    requires forall i | 0 <= i < |ts| :: IsToken(ts[i])
    ensures Words(Join(ts)) == ts
    decreases |ts|
  {
    if |ts| == 1 {
      var t := ts[0];
      TokenLengthOfToken(t, []);
      assert t + [] == t;
      assert t[|t|..] == [];
    } else if |ts| > 1 {
      WordsOfSeparated(ts[0], Join(ts[1..]));
      WordsOfJoin(ts[1..]);
      assert ts == [ts[0]] + ts[1..];
    }
  }

  /** Joining one more token puts a single space before it. */
  lemma {:induction false} JoinSnoc(ts: seq<string>, t: string)
    requires ts != []
    ensures Join(ts + [t]) == Join(ts) + " " + t
    decreases |ts|
  {
    if |ts| > 1 {
      assert (ts + [t])[1..] == ts[1..] + [t];
      JoinSnoc(ts[1..], t);
    } else {
      assert (ts + [t])[1..] == [t];
    }
  }

  predicate IsDigit(ch: char) {
    '0' <= ch <= '9'
  }

  predicate AllDigits(s: string) {
    s != [] && forall j | 0 <= j < |s| :: IsDigit(s[j])
  }

  function DigitChar(d: nat): (ch: char)
    requires d < 10
  {
    ('0' as int + d) as char
  }

  function DigitValue(ch: char): nat
    requires IsDigit(ch)
  {
    ch as int - '0' as int
  }

  /** Decimal digits of n, most significant first, without leading zeros. */
  function NatToString(n: nat): (s: string)
    ensures AllDigits(s)
    decreases n
  {
    if n < 10 then [DigitChar(n)] else NatToString(n / 10) + [DigitChar(n % 10)]
  }

  /** `str(x)` for an integer x. */
  function IntToString(x: int): (s: string)
    ensures IsToken(s)
  {
    if x < 0 then "-" + NatToString(-x) else NatToString(x)
  }

  /** The value of a string of decimal digits. */
  function DigitsValue(s: string): nat
    requires AllDigits(s)
    decreases |s|
  {
    if |s| == 1 then DigitValue(s[0])
    else 10 * DigitsValue(s[..|s| - 1]) + DigitValue(s[|s| - 1])
  }

  /** `int(token)` for a token: an optional sign, then ASCII decimal digits; None where Python raises ValueError. */
  function ParseInt(s: string): (r: Option<int>)
    ensures r.Some? ==> IsToken(s)
    ensures AllDigits(s) ==> r == Some(DigitsValue(s) as int)
    ensures r.Some? && r.value < 0 ==> s[0] == '-'
  {
    if |s| > 0 && (s[0] == '-' || s[0] == '+') then
      if AllDigits(s[1..]) then
        Some(if s[0] == '-' then 0 - DigitsValue(s[1..]) as int else DigitsValue(s[1..]))
      else None
    else if AllDigits(s) then Some(DigitsValue(s))
    else None
  }

  lemma {:induction false} DigitsOfNatToString(n: nat)
    ensures DigitsValue(NatToString(n)) == n
    decreases n
  {
    if n >= 10 {
      var s := NatToString(n);
      DigitsOfNatToString(n / 10);
      assert s[..|s| - 1] == NatToString(n / 10);
    }
  }

  /** `int("-" + digits)` is the negated value of the digits. */
  lemma ParseIntOfNegated(s: string)
    requires AllDigits(s)
    ensures ParseInt("-" + s) == Some(0 - DigitsValue(s) as int)
  {
    var t := "-" + s;
    assert |t| > 0 && t[0] == '-';
    assert t[1..] == s;
  }

  /** `int(str(x)) == x`. */
  lemma ParseIntOfIntToString(x: int)
    ensures ParseInt(IntToString(x)) == Some(x)
  {
    if x < 0 {
      var s := NatToString(-x);
      DigitsOfNatToString(-x);
      assert IntToString(x) == "-" + s;
      ParseIntOfNegated(s);
    } else {
      var s := NatToString(x);
      DigitsOfNatToString(x);
      assert IntToString(x) == s;
    }
  }
}
