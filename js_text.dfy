/** The JavaScript string primitives the two widgets rely on, as pure functions:
    `split`, `trim`, `toLowerCase`, `includes` and the numeric test that
    `isNaN`/`parseFloat` perform on a tag part or an input value. */
module JsText {

  datatype Option<+T> = None | Some(value: T)

  // ---------------------------------------------------------------------------
  // split

  /** `s.split(sep)` for a one-character separator: the pieces between
      separators, empty ones included; the empty string gives one empty piece. */
  function Split(s: string, sep: char): (r: seq<string>)
    ensures |r| >= 1
    ensures forall k :: 0 <= k < |r| ==> sep !in r[k]
    decreases |s|
  {
    if s == [] then [""]
    else
      var rest := Split(s[1..], sep);
      if s[0] == sep then [""] + rest
      else [[s[0]] + rest[0]] + rest[1..]
  }

  /** `parts.join(sep)` for a one-character separator. */
  function Join(parts: seq<string>, sep: char): string
  {
    if parts == [] then ""
    else if |parts| == 1 then parts[0]
    else parts[0] + [sep] + Join(parts[1..], sep)
  }

  /** Splitting loses nothing: joining the pieces back gives the text. */
  lemma {:induction false} JoinSplit(s: string, sep: char)
    ensures Join(Split(s, sep), sep) == s
    decreases |s|
  {
    if s != [] {
      var rest := Split(s[1..], sep);
      JoinSplit(s[1..], sep);
      if s[0] == sep {
        assert ([""] + rest)[1..] == rest;
        assert s == [sep] + s[1..];
      } else {
        var r := [[s[0]] + rest[0]] + rest[1..];
        if |rest| == 1 {
          assert s == [s[0]] + s[1..];
        } else {
          assert r[1..] == rest[1..];
          assert Join(rest, sep) == rest[0] + [sep] + Join(rest[1..], sep);
          assert s == [s[0]] + s[1..];
        }
      }
    }
  }

  // ---------------------------------------------------------------------------
  // trim

  /** The characters `trim` removes: ECMAScript WhiteSpace (TAB, VT, FF, SP,
      NBSP, ZWNBSP and the other Zs spaces) and LineTerminator (LF, CR, LS, PS). */
  predicate IsWhiteSpace(c: char)
  {
    c == '\t' || c == '\n' || c == '\U{000B}' || c == '\U{000C}' || c == '\r' ||
    c == ' ' || c == '\U{00A0}' || c == '\U{1680}' || ('\U{2000}' <= c <= '\U{200A}') ||
    c == '\U{2028}' || c == '\U{2029}' || c == '\U{202F}' || c == '\U{205F}' ||
    c == '\U{3000}' || c == '\U{FEFF}'
  }

  /** True when `s` neither starts nor ends with white space. */
  predicate IsTrimmed(s: string)
  {
    s == [] || (!IsWhiteSpace(s[0]) && !IsWhiteSpace(s[|s| - 1]))
  }

  /** Drops the leading white space: the result is the longest suffix of `s`
      that does not start with white space. */
  function TrimStart(s: string): (r: string)
    ensures |r| <= |s| && r == s[|s| - |r|..]
    ensures r == [] || !IsWhiteSpace(r[0])
    ensures forall i :: 0 <= i < |s| - |r| ==> IsWhiteSpace(s[i])
  {
    if s != [] && IsWhiteSpace(s[0]) then TrimStart(s[1..]) else s
  }

  /** Drops the trailing white space: the result is the longest prefix of `s`
      that does not end with white space. */
  function TrimEnd(s: string): (r: string)
    ensures |r| <= |s| && r == s[..|r|]
    ensures r == [] || !IsWhiteSpace(r[|r| - 1])
    ensures forall i :: |r| <= i < |s| ==> IsWhiteSpace(s[i])
  {
    if s != [] && IsWhiteSpace(s[|s| - 1]) then TrimEnd(s[..|s| - 1]) else s
  }

  /** `s.trim()`: white space removed from both ends, nothing else touched. */
  function Trim(s: string): (r: string)
    ensures IsTrimmed(r)
    ensures |r| <= |s|
    ensures forall c :: c in r ==> c in s
    ensures r == [] <==> forall i :: 0 <= i < |s| ==> IsWhiteSpace(s[i])
  {
    var t := TrimStart(s);
    var r := TrimEnd(t);
    assert forall c :: c in r ==> c in t;
    assert t != [] ==> !IsWhiteSpace(t[0]);
    r
  }

  /** Trimming a trimmed text changes nothing. */
  lemma TrimIdempotent(s: string)
    requires IsTrimmed(s)
    ensures Trim(s) == s
  {
  }

  /** White space in front of a text is all that `TrimStart` removes. */
  lemma {:induction false} TrimStartPadded(w: string, s: string)
    requires forall i :: 0 <= i < |w| ==> IsWhiteSpace(w[i])
    ensures TrimStart(w + s) == TrimStart(s)
    decreases |w|
  {
    if w != [] {
      assert (w + s)[1..] == w[1..] + s;
      TrimStartPadded(w[1..], s);
    } else {
      assert w + s == s;
    }
  }

  /** White space behind a text is all that `TrimEnd` removes. */
  lemma {:induction false} TrimEndPadded(s: string, w: string)
    requires forall i :: 0 <= i < |w| ==> IsWhiteSpace(w[i])
    ensures TrimEnd(s + w) == TrimEnd(s)
    decreases |w|
  {
    if w != [] {
      assert (s + w)[..|s + w| - 1] == s + w[..|w| - 1];
      TrimEndPadded(s, w[..|w| - 1]);
    } else {
      assert s + w == s;
    }
  }

  /** `TrimStart` stops inside a text that is not all white space, so what
      follows that text is kept. */
  lemma {:induction false} TrimStartAppend(s: string, w: string)
    requires TrimStart(s) != []
    ensures TrimStart(s + w) == TrimStart(s) + w
    decreases |s|
  {
    assert s != [] && (s + w)[0] == s[0];
    if IsWhiteSpace(s[0]) {
      assert (s + w)[1..] == s[1..] + w;
      assert TrimStart(s) == TrimStart(s[1..]);
      TrimStartAppend(s[1..], w);
    } else {
      assert TrimStart(s) == s;
    }
  }

  /** `trim` ignores white space added at either end. */
  lemma TrimPadded(w1: string, s: string, w2: string)
    requires forall i :: 0 <= i < |w1| ==> IsWhiteSpace(w1[i])
    requires forall i :: 0 <= i < |w2| ==> IsWhiteSpace(w2[i])
    ensures Trim(w1 + s + w2) == Trim(s)
  {
    assert w1 + s + w2 == w1 + (s + w2);
    TrimStartPadded(w1, s + w2);
    if TrimStart(s) == [] {
      assert forall i :: 0 <= i < |s| ==> IsWhiteSpace(s[i]);
      TrimStartPadded(s, w2);
      assert w2 == w2 + [];
      TrimStartPadded(w2, []);
    } else {
      TrimStartAppend(s, w2);
      TrimEndPadded(TrimStart(s), w2);
    }
  }

  // ---------------------------------------------------------------------------
  // toLowerCase

  /** Lower-casing of one character; only the ASCII letters A-Z change. */
  function LowerChar(c: char): (d: char)
    ensures IsWhiteSpace(d) <==> IsWhiteSpace(c)
    ensures (d == ';') <==> (c == ';')
    ensures !('A' <= d <= 'Z')
    ensures !('A' <= c <= 'Z') ==> d == c
    ensures 'A' <= c <= 'Z' ==> d as int == c as int + 32
  {
    if 'A' <= c <= 'Z' then (c as int - 'A' as int + 'a' as int) as char else c
  }

  /** `s.toLowerCase()`, character by character. */
  function ToLowerCase(s: string): (r: string)
    ensures |r| == |s|
    ensures forall i :: 0 <= i < |s| ==> r[i] == LowerChar(s[i])
  {
    seq(|s|, i requires 0 <= i < |s| => LowerChar(s[i]))
  }

  /** True when lower-casing `s` leaves it as it is. */
  predicate IsLowerCase(s: string)
  {
    forall i :: 0 <= i < |s| ==> !('A' <= s[i] <= 'Z')
  }

  /** A lower-cased text is lower case, and lower-casing it again changes nothing. */
  lemma LowerIsLower(s: string)
    ensures IsLowerCase(ToLowerCase(s))
    ensures ToLowerCase(ToLowerCase(s)) == ToLowerCase(s)
  {
  }

  /** Lower-casing keeps white space where it is. */
  lemma {:induction false} TrimStartLower(s: string)
    ensures TrimStart(ToLowerCase(s)) == ToLowerCase(TrimStart(s))
    decreases |s|
  {
    var l := ToLowerCase(s);
    if s != [] && IsWhiteSpace(s[0]) {
      assert l[1..] == ToLowerCase(s[1..]);
      TrimStartLower(s[1..]);
    }
  }

  lemma {:induction false} TrimEndLower(s: string)
    ensures TrimEnd(ToLowerCase(s)) == ToLowerCase(TrimEnd(s))
    decreases |s|
  {
    var l := ToLowerCase(s);
    if s != [] && IsWhiteSpace(s[|s| - 1]) {
      assert l[..|s| - 1] == ToLowerCase(s[..|s| - 1]);
      TrimEndLower(s[..|s| - 1]);
    }
  }

  /** Trimming and lower-casing commute: `s.toLowerCase().trim()` is
      `s.trim().toLowerCase()`. */
  lemma TrimLowerCommute(s: string)
    ensures Trim(ToLowerCase(s)) == ToLowerCase(Trim(s))
  {
    TrimStartLower(s);
    TrimEndLower(TrimStart(s));
  }

  // ---------------------------------------------------------------------------
  // includes

  /** The characters of `q` from index `k` on agree with those of `s` from
      index `i + k` on. */
  predicate AgreeFrom(s: string, q: string, i: nat, k: nat)
    requires i + |q| <= |s|
    decreases |q| - k
  {
    k >= |q| || (s[i + k] == q[k] && AgreeFrom(s, q, i, k + 1))
  }

  /** `q` occurs in `s` at index `i` or later, searching left to right as
      `String.prototype.includes` does. */
  predicate IncludesFrom(s: string, q: string, i: nat)
    decreases |s| - i
  {
    i + |q| <= |s| && (AgreeFrom(s, q, i, 0) || IncludesFrom(s, q, i + 1))
  }

  /** `s.includes(q)`. */
  predicate Includes(s: string, q: string)
  {
    IncludesFrom(s, q, 0)
  }

  /** `q` occurs in `s` starting at index `i`. */
  predicate OccursAt(s: string, q: string, i: int)
  {
    0 <= i <= |s| - |q| && s[i..i + |q|] == q
  }

  lemma {:induction false} AgreeFromIff(s: string, q: string, i: nat, k: nat)
    requires i + |q| <= |s| && k <= |q|
    ensures AgreeFrom(s, q, i, k) <==> s[i + k..i + |q|] == q[k..]
    decreases |q| - k
  {
    if k < |q| {
      AgreeFromIff(s, q, i, k + 1);
      assert s[i + k..i + |q|] == [s[i + k]] + s[i + k + 1..i + |q|];
      assert q[k..] == [q[k]] + q[k + 1..];
    }
  }

  lemma {:induction false} IncludesFromIff(s: string, q: string, i: nat)
    ensures IncludesFrom(s, q, i) <==> exists j :: i <= j && OccursAt(s, q, j)
    decreases |s| - i
  {
    if i + |q| <= |s| {
      AgreeFromIff(s, q, i, 0);
      IncludesFromIff(s, q, i + 1);
      if exists j :: i <= j && OccursAt(s, q, j) {
        var j :| i <= j && OccursAt(s, q, j);
        if j > i {
          assert i + 1 <= j && OccursAt(s, q, j);
        }
      }
      if AgreeFrom(s, q, i, 0) {
        assert OccursAt(s, q, i);
      }
    }
  }

  /** `Includes` holds exactly when `q` occurs at some index of `s`. */
  lemma IncludesAt(s: string, q: string)
    ensures Includes(s, q) <==> exists i :: OccursAt(s, q, i)
  {
    IncludesFromIff(s, q, 0);
  }

  /** Occurrence is transitive: a text containing `b`, where `b` contains `a`,
      contains `a`. */
  lemma IncludesTransitive(a: string, b: string, c: string)
    requires Includes(b, a) && Includes(c, b)
    ensures Includes(c, a)
  {
    IncludesAt(b, a);
    IncludesAt(c, b);
    var i :| OccursAt(b, a, i);
    var j :| OccursAt(c, b, j);
    forall k | 0 <= k < |a|
      ensures c[j + i..j + i + |a|][k] == a[k]
    {
      assert c[j..j + |b|][i + k] == b[i..i + |a|][k];
    }
    assert OccursAt(c, a, j + i);
    IncludesAt(c, a);
  }

  // ---------------------------------------------------------------------------
  // numbers

  predicate IsDigit(c: char)
  {
    '0' <= c <= '9'
  }

  predicate AllDigits(s: string)
  {
    forall i :: 0 <= i < |s| ==> IsDigit(s[i])
  }

  /** The value of a string of decimal digits; the empty string is 0. */
  function DigitsValue(s: string): nat
    requires AllDigits(s)
  {
    if s == [] then 0 else 10 * DigitsValue(s[..|s| - 1]) + (s[|s| - 1] as int - '0' as int)
  }

  /** The value of the digits after a decimal point: ".d1d2..." is
      (d1 + (d2 + ...) / 10) / 10. */
  function FractionValue(s: string): (r: real)
    requires AllDigits(s)
    ensures 0.0 <= r <= 1.0
  {
    if s == [] then 0.0 else ((s[0] as int - '0' as int) as real + FractionValue(s[1..])) / 10.0
  }

  /** Trailing zeros after the point add nothing. */
  lemma {:induction false} ZerosFraction(s: string)
    requires forall i :: 0 <= i < |s| ==> s[i] == '0'
    ensures AllDigits(s) && FractionValue(s) == 0.0
  {
    if s != [] {
      ZerosFraction(s[1..]);
    }
  }

  /** Index of the first `c` in `s`, or `|s|` when there is none. */
  function FirstIndexOf(s: string, c: char): (k: nat)
    ensures k <= |s|
    ensures k < |s| ==> s[k] == c
    ensures forall i :: 0 <= i < k ==> s[i] != c
  {
    if s == [] then 0 else if s[0] == c then 0 else 1 + FirstIndexOf(s[1..], c)
  }

  /** A character that can appear in a decimal numeral. */
  predicate IsNumeralChar(c: char)
  {
    IsDigit(c) || c == '.' || c == '+' || c == '-'
  }

  /** An unsigned decimal numeral `ddd`, `ddd.`, `.ddd` or `ddd.ddd` with at
      least one digit, and its value. */
  function ParseUnsignedDecimal(s: string): (r: Option<real>)
    ensures r.Some? ==> r.value >= 0.0
  {
    var dot := FirstIndexOf(s, '.');
    var whole := s[..dot];
    var frac := if dot < |s| then s[dot + 1..] else "";
    if AllDigits(whole) && AllDigits(frac) && |whole| + |frac| > 0 then
      Some(DigitsValue(whole) as real + FractionValue(frac))
    else None
  }

  /** A decimal numeral with an optional sign, and its value. */
  function ParseDecimal(s: string): (r: Option<real>)
  {
    if s != [] && (s[0] == '+' || s[0] == '-') then
      match ParseUnsignedDecimal(s[1..])
      case Some(v) => Some(if s[0] == '-' then -v else v)
      case None => None
    else ParseUnsignedDecimal(s)
  }

  /** A string of digits has no point. */
  lemma NoPointInDigits(d: string)
    requires AllDigits(d)
    ensures FirstIndexOf(d, '.') == |d|
  {
    assert forall i :: 0 <= i < |d| ==> d[i] != '.';
  }

  /** A plain string of digits is worth its digits. */
  lemma IntegerParse(d: string)
    requires d != [] && AllDigits(d)
    ensures ParseDecimal(d) == Some(DigitsValue(d) as real)
  {
    NoPointInDigits(d);
    assert d[..|d|] == d;
    assert IsDigit(d[0]);
  }

  /** A sign in front of an unsigned numeral: `-` negates its value and `+`
      keeps it. */
  lemma SignedParse(u: string, v: real)
    requires ParseUnsignedDecimal(u) == Some(v)
    ensures ParseDecimal("-" + u) == Some(-v)
    ensures ParseDecimal("+" + u) == Some(v)
  {
    assert ("-" + u)[1..] == u;
    assert ("+" + u)[1..] == u;
  }

  /** A text with two points is not an unsigned numeral. */
  lemma TwoPointsUnsigned(s: string, k1: nat, k2: nat)
    requires k1 < k2 < |s| && s[k1] == '.' && s[k2] == '.'
    ensures ParseUnsignedDecimal(s) == None
  {
    var dot := FirstIndexOf(s, '.');
    assert dot <= k1;
    var frac := s[dot + 1..];
    assert frac[k2 - dot - 1] == '.';
  }

  /** A text with two points is not a numeral, signed or not. */
  lemma TwoPointsRejected(s: string, k1: nat, k2: nat)
    requires k1 < k2 < |s| && s[k1] == '.' && s[k2] == '.'
    ensures ParseDecimal(s) == None
  {
    if s[0] == '+' || s[0] == '-' {
      assert k1 > 0;
      var u := s[1..];
      assert u[k1 - 1] == '.' && u[k2 - 1] == '.';
      TwoPointsUnsigned(u, k1 - 1, k2 - 1);
    } else {
      TwoPointsUnsigned(s, k1, k2);
    }
  }

  /** A text that starts with anything but a digit, a point or a sign is not
      a numeral. */
  lemma NonNumeralStart(s: string)
    requires s != [] && !IsNumeralChar(s[0])
    ensures ParseDecimal(s) == None
  {
    var dot := FirstIndexOf(s, '.');
    assert s[..dot][0] == s[0];
  }

  /** The numeric test shared by the index (`!isNaN(part) && !isNaN(parseFloat(part))`)
      and the form (`!isNaN(value)`), with `parseFloat`'s value: `Some(v)` for
      a decimal numeral surrounded by optional white space, `None` otherwise. */
  function ParseNumber(s: string): (r: Option<real>)
  {
    ParseDecimal(Trim(s))
  }

  /** A trimmed text is parsed as it is. */
  lemma TrimmedParse(s: string)
    requires IsTrimmed(s)
    ensures ParseNumber(s) == ParseDecimal(s)
  {
    TrimIdempotent(s);
  }

  /** A text starting with a digit has no sign. */
  lemma UnsignedParse(s: string)
    requires s != [] && IsDigit(s[0])
    ensures ParseDecimal(s) == ParseUnsignedDecimal(s)
  {
  }

  /** A numeral whose first point is at `k` is worth its whole part plus
      its fraction. */
  lemma UnsignedAt(s: string, k: nat)
    requires k < |s| && FirstIndexOf(s, '.') == k && AllDigits(s[..k]) && AllDigits(s[k + 1..]) && |s| > 1
    ensures ParseUnsignedDecimal(s) == Some(DigitsValue(s[..k]) as real + FractionValue(s[k + 1..]))
  {
  }

  /** A numeral `ddd.ddd` with digits before its only point is worth its
      whole part plus its fraction. */
  lemma UnsignedAtDot(s: string, k: nat)
    requires 0 < k < |s| && s[k] == '.' && AllDigits(s[..k]) && AllDigits(s[k + 1..])
    ensures ParseUnsignedDecimal(s) == Some(DigitsValue(s[..k]) as real + FractionValue(s[k + 1..]))
  {
    forall j | 0 <= j < k
      ensures s[j] != '.'
    {
      assert s[..k][j] == s[j];
    }
    UnsignedAt(s, k);
  }
}
