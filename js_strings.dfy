/** The few JavaScript string primitives the core relies on: `trim`,
    `split(',')`, `join(',')`, substring search (a regular expression that is
    a plain literal), `startsWith`, `toLowerCase` on the letters that matter
    and `parseInt(_, 10)`. */
module JsStrings {
  import opened Wrappers

  /** WhiteSpace and LineTerminator code points of ECMAScript, the set that
      `String.prototype.trim` and `parseInt` strip. */
  predicate IsJsWhitespace(c: char) {
    || c == '\t' || c == '\n' || c == '\U{B}' || c == '\U{C}' || c == '\r'
    || c == ' ' || c == '\U{A0}' || c == '\U{1680}'
    || ('\U{2000}' <= c <= '\U{200A}')
    || c == '\U{2028}' || c == '\U{2029}' || c == '\U{202F}' || c == '\U{205F}'
    || c == '\U{3000}' || c == '\U{FEFF}'
  }

  /** No whitespace at either end. */
  predicate IsTrimmed(s: string) {
    s == [] || (!IsJsWhitespace(s[0]) && !IsJsWhitespace(s[|s| - 1]))
  }

  /** `s` with its leading whitespace removed. */
  function TrimStart(s: string): string
    decreases |s|
  {
    if |s| > 0 && IsJsWhitespace(s[0]) then TrimStart(s[1..]) else s
  }

  /** `s` with its trailing whitespace removed. */
  function TrimEnd(s: string): string
    decreases |s|
  {
    if |s| > 0 && IsJsWhitespace(s[|s| - 1]) then TrimEnd(s[..|s| - 1]) else s
  }

  /** `s.trim()`. */
  function Trim(s: string): string {
    TrimEnd(TrimStart(s))
  }

  /** `TrimStart` keeps a suffix that starts with a non-whitespace character,
      and everything it drops is whitespace. */
  lemma {:induction false} TrimStartSuffix(s: string)
    ensures var r := TrimStart(s);
            && |r| <= |s| && r == s[|s| - |r|..]
            && (forall k :: 0 <= k < |s| - |r| ==> IsJsWhitespace(s[k]))
            && (r == [] || !IsJsWhitespace(r[0]))
    decreases |s|
  {
    if |s| > 0 && IsJsWhitespace(s[0]) {
      TrimStartSuffix(s[1..]);
      var r := TrimStart(s);
      assert forall k :: 1 <= k < |s| ==> s[k] == s[1..][k - 1];
      assert s[1..][|s[1..]| - |r|..] == s[|s| - |r|..];
    }
  }

  /** `TrimEnd` keeps a prefix that ends with a non-whitespace character, and
      everything it drops is whitespace. */
  lemma {:induction false} TrimEndPrefix(s: string)
    ensures var r := TrimEnd(s);
            && |r| <= |s| && r == s[..|r|]
            && (forall k :: |r| <= k < |s| ==> IsJsWhitespace(s[k]))
            && (r == [] || !IsJsWhitespace(r[|r| - 1]))
    decreases |s|
  {
    if |s| > 0 && IsJsWhitespace(s[|s| - 1]) {
      TrimEndPrefix(s[..|s| - 1]);
      var r := TrimEnd(s);
      assert forall k :: 0 <= k < |s| - 1 ==> s[k] == s[..|s| - 1][k];
      assert s[..|s| - 1][..|r|] == s[..|r|];
    }
  }

  /** `trim` leaves no whitespace at either end and never lengthens. */
  lemma TrimIsTrimmed(s: string)
    ensures IsTrimmed(Trim(s)) && |Trim(s)| <= |s|
  {
    var t := TrimStart(s);
    TrimStartSuffix(s);
    TrimEndPrefix(t);
    var r := TrimEnd(t);
    if r != [] {
      assert r[0] == t[0];
    }
  }

  /** `trim` yields a contiguous slice of its input. */
  lemma TrimIsSlice(s: string)
    ensures exists i, j :: 0 <= i <= j <= |s| && Trim(s) == s[i..j]
  {
    var t := TrimStart(s);
    var r := TrimEnd(t);
    TrimStartSuffix(s);
    TrimEndPrefix(t);
    var i := |s| - |t|;
    assert r == t[..|r|];
    assert t == s[i..];
    assert r == s[i..i + |r|];
  }

  /** A string without whitespace at its ends is left unchanged by `trim`. */
  lemma TrimOfTrimmed(s: string)
    requires IsTrimmed(s)
    ensures Trim(s) == s
  {
    assert TrimStart(s) == s;
  }

  /** Whatever `trim` keeps contains no character the input lacked. */
  lemma TrimKeepsOut(s: string, c: char)
    ensures c !in s ==> c !in Trim(s)
  {
    TrimIsSlice(s);
  }

  /** `s.split(',')`: the pieces between commas, at least one. */
  function Split(s: string): (r: seq<string>)
    ensures |r| >= 1
    ensures forall k :: 0 <= k < |r| ==> ',' !in r[k]
    decreases |s|
  {
    if s == [] then [""]
    else if s[0] == ',' then [""] + Split(s[1..])
    else
      var t := Split(s[1..]);
      [[s[0]] + t[0]] + t[1..]
  }

  /** `xs.join(',')`. */
  function Join(xs: seq<string>): string
    decreases |xs|
  {
    if |xs| == 0 then ""
    else if |xs| == 1 then xs[0]
    else xs[0] + "," + Join(xs[1..])
  }

  /** Joining the pieces back gives the original string. */
  lemma {:induction false} JoinSplit(s: string)
    ensures Join(Split(s)) == s
    decreases |s|
  {
    if s == [] {
    } else if s[0] == ',' {
      JoinSplit(s[1..]);
      assert s == [','] + s[1..];
    } else {
      var t := Split(s[1..]);
      JoinSplit(s[1..]);
      if |t| == 1 {
        assert Split(s) == [[s[0]] + t[0]];
        assert s == [s[0]] + s[1..];
      } else {
        assert Split(s) == [[s[0]] + t[0]] + t[1..];
        assert Split(s)[1..] == t[1..];
        assert Join(t) == t[0] + "," + Join(t[1..]);
        assert s == [s[0]] + s[1..];
      }
    }
  }

  /** A comma-free prefix glues onto the first piece. */
  lemma {:induction false} SplitPrefix(a: string, b: string)
    requires ',' !in a
    ensures Split(a + b) == [a + Split(b)[0]] + Split(b)[1..]
    decreases |a|
  {
    if a != [] {
      assert (a + b)[0] == a[0];
      assert (a + b)[1..] == a[1..] + b;
      SplitPrefix(a[1..], b);
      assert [a[0]] + (a[1..] + Split(b)[0]) == a + Split(b)[0];
    } else {
      assert a + b == b;
      assert a + Split(b)[0] == Split(b)[0];
      assert [Split(b)[0]] + Split(b)[1..] == Split(b);
    }
  }

  /** One step of `split(',')` on a string that starts with `c`. */
  lemma SplitCons(c: char, s: string)
    ensures Split([c] + s) == if c == ',' then [""] + Split(s) else [[c] + Split(s)[0]] + Split(s)[1..]
  {
    assert ([c] + s)[0] == c;
    assert ([c] + s)[1..] == s;
  }

  /** Gluing a character onto the first piece commutes with appending
      further pieces. */
  lemma GlueFirst(c: char, t: seq<string>, u: seq<string>)
    requires |t| >= 1
    ensures [[c] + (t + u)[0]] + (t + u)[1..] == ([[c] + t[0]] + t[1..]) + u
  {
    assert (t + u)[0] == t[0];
    assert (t + u)[1..] == t[1..] + u;
  }

  /** A comma separates the pieces before it from those after it. */
  lemma {:induction false} SplitComma(a: string, b: string)
    ensures Split(a + "," + b) == Split(a) + Split(b)
    decreases |a|
  {
    if a == [] {
      assert a + "," + b == [','] + b;
      SplitCons(',', b);
    } else {
      var c, rest := a[0], a[1..] + "," + b;
      assert a + "," + b == [c] + rest;
      assert a == [c] + a[1..];
      var t, tb := Split(a[1..]), Split(b);
      SplitComma(a[1..], b);
      assert Split(rest) == t + tb;
      SplitCons(c, rest);
      SplitCons(c, a[1..]);
      if c == ',' {
        assert Split(a + "," + b) == [""] + (t + tb);
        assert Split(a) == [""] + t;
      } else {
        GlueFirst(c, t, tb);
        assert Split(a + "," + b) == [[c] + (t + tb)[0]] + (t + tb)[1..];
        assert Split(a) == [[c] + t[0]] + t[1..];
      }
    }
  }

  /** Splitting the join of comma-free pieces gives the pieces back. */
  lemma {:induction false} SplitJoin(xs: seq<string>)
    requires |xs| >= 1
    requires forall k :: 0 <= k < |xs| ==> ',' !in xs[k]
    ensures Split(Join(xs)) == xs
    decreases |xs|
  {
    if |xs| == 1 {
      SplitPrefix(xs[0], "");
      assert xs[0] + "" == xs[0];
    } else {
      var rest := Join(xs[1..]);
      SplitJoin(xs[1..]);
      assert xs[0] + "," + rest == xs[0] + ("," + rest);
      SplitPrefix(xs[0], "," + rest);
      assert ("," + rest)[1..] == rest;
      assert Split("," + rest) == [""] + xs[1..];
      assert xs[0] + "" == xs[0];
    }
  }

  /** `s.startsWith(p)`. */
  predicate StartsWith(s: string, p: string) {
    |p| <= |s| && s[..|p|] == p
  }

  /** `s.includes(p)`, i.e. the literal regular expression `/p/` matches `s`. */
  predicate Contains(s: string, p: string)
    decreases |s|
  {
    StartsWith(s, p) || (|s| > 0 && Contains(s[1..], p))
  }

  /** `p` occurs in `s` at position `i`. */
  predicate OccursAt(s: string, p: string, i: int) {
    0 <= i && i + |p| <= |s| && s[i..i + |p|] == p
  }

  /** `Contains` finds an occurrence exactly when there is one. */
  lemma {:induction false} ContainsAt(s: string, p: string)
    ensures Contains(s, p) <==> exists i :: OccursAt(s, p, i)
    decreases |s|
  {
    if |s| > 0 {
      ContainsAt(s[1..], p);
      if exists i :: OccursAt(s, p, i) {
        var i :| OccursAt(s, p, i);
        if i > 0 {
          assert s[1..][i - 1..i - 1 + |p|] == s[i..i + |p|];
          assert OccursAt(s[1..], p, i - 1);
        } else {
          assert StartsWith(s, p);
        }
      }
      if Contains(s[1..], p) && !StartsWith(s, p) {
        var i :| OccursAt(s[1..], p, i);
        assert s[1..][i..i + |p|] == s[i + 1..i + 1 + |p|];
        assert OccursAt(s, p, i + 1);
      }
      if StartsWith(s, p) {
        assert OccursAt(s, p, 0);
      }
    } else {
      if StartsWith(s, p) {
        assert OccursAt(s, p, 0);
      }
      if exists i :: OccursAt(s, p, i) {
        var i :| OccursAt(s, p, i);
        assert i == 0 && |p| == 0;
      }
    }
  }

  /** `toLowerCase` on one character, for the ASCII letters. Every other
      character is kept (see README for why this suffices here). */
  function LowerAscii(c: char): char {
    if 'A' <= c <= 'Z' then (c as int - 'A' as int + 'a' as int) as char else c
  }

  function ToLower(s: string): (r: string)
    ensures |r| == |s|
    ensures forall k :: 0 <= k < |s| ==> r[k] == LowerAscii(s[k])
  {
    seq(|s|, k requires 0 <= k < |s| => LowerAscii(s[k]))
  }

  /** `s.toLowerCase().startsWith(p)`, for a lower-case ASCII `p`. */
  predicate LowerStartsWith(s: string, p: string)
    decreases |p|
  {
    |p| == 0 || (|s| > 0 && LowerAscii(s[0]) == p[0] && LowerStartsWith(s[1..], p[1..]))
  }

  /** `LowerStartsWith` is `startsWith` on the lower-cased string. */
  lemma {:induction false} LowerStartsWithIsStartsWith(s: string, p: string)
    ensures LowerStartsWith(s, p) <==> StartsWith(ToLower(s), p)
    decreases |p|
  {
    if |p| > 0 && |s| > 0 {
      LowerStartsWithIsStartsWith(s[1..], p[1..]);
      assert ToLower(s)[1..] == ToLower(s[1..]);
      if |p| <= |s| {
        assert ToLower(s)[..|p|] == [ToLower(s)[0]] + ToLower(s)[1..][..|p| - 1];
        assert p == [p[0]] + p[1..];
      }
    }
  }

  predicate IsDigit(c: char) {
    '0' <= c <= '9'
  }

  /** The longest prefix of decimal digits. */
  function DigitPrefix(s: string): (r: string)
    ensures |r| <= |s| && r == s[..|r|]
    ensures forall k :: 0 <= k < |r| ==> IsDigit(r[k])
    ensures |r| < |s| ==> !IsDigit(s[|r|])
    decreases |s|
  {
    if |s| > 0 && IsDigit(s[0]) then [s[0]] + DigitPrefix(s[1..]) else ""
  }

  /** The decimal digit of `d`. */
  function DigitChar(d: nat): (c: char)
    requires d < 10
    ensures IsDigit(c) && c as int - '0' as int == d
  {
    ('0' as int + d) as char
  }

  /** `String(n)` for a non-negative integer: its decimal digits, no leading zero. */
  function DecimalString(n: nat): (r: string)
    ensures |r| >= 1 && forall k :: 0 <= k < |r| ==> IsDigit(r[k])
    decreases n
  {
    if n < 10 then [DigitChar(n)] else DecimalString(n / 10) + [DigitChar(n % 10)]
  }

  /** The value of a string of decimal digits. */
  function DecimalValue(ds: string): nat
    decreases |ds|
  {
    if |ds| == 0 then 0
    else if IsDigit(ds[|ds| - 1])
    then 10 * DecimalValue(ds[..|ds| - 1]) + (ds[|ds| - 1] as int - '0' as int)
    else 10 * DecimalValue(ds[..|ds| - 1])
  }

  /** `parseInt(s, 10)`, with `None` for `NaN`: leading whitespace is skipped,
      one optional sign is read, then the longest run of digits; no digits
      gives `NaN`. */
  function ParseInt(s: string): (r: Option<int>)
  {
    var t := TrimStart(s);
    var negative := |t| > 0 && t[0] == '-';
    var u := if |t| > 0 && (t[0] == '-' || t[0] == '+') then t[1..] else t;
    var digits := DigitPrefix(u);
    if |digits| == 0 then None
    else Some(if negative then -(DecimalValue(digits) as int) else DecimalValue(digits))
  }

  /** `parseInt` yields a number exactly when a digit follows the leading
      whitespace and the optional sign. */
  lemma ParseIntDefined(s: string)
    ensures ParseInt(s).Some? <==>
              (var t := TrimStart(s);
               var u := if |t| > 0 && (t[0] == '-' || t[0] == '+') then t[1..] else t;
               |u| > 0 && IsDigit(u[0]))
  {
  }

  /** Reading a string of digits takes all of it. */
  lemma {:induction false} DigitPrefixOfDigits(s: string)
    requires forall k :: 0 <= k < |s| ==> IsDigit(s[k])
    ensures DigitPrefix(s) == s
    decreases |s|
  {
    if |s| > 0 {
      DigitPrefixOfDigits(s[1..]);
      assert s == [s[0]] + s[1..];
    }
  }

  /** The digits of `n` have value `n`. */
  lemma {:induction false} DecimalValueOfString(n: nat)
    ensures DecimalValue(DecimalString(n)) == n
    decreases n
  {
    if n >= 10 {
      var ds := DecimalString(n);
      DecimalValueOfString(n / 10);
      assert ds[..|ds| - 1] == DecimalString(n / 10);
    }
  }

  /** A non-empty run of digits reads as its value. */
  lemma ParseIntOfDigits(ds: string)
    requires |ds| >= 1 && forall k :: 0 <= k < |ds| ==> IsDigit(ds[k])
    ensures ParseInt(ds) == Some(DecimalValue(ds))
  {
    assert IsDigit(ds[0]);
    assert TrimStart(ds) == ds by {
      assert !IsJsWhitespace(ds[0]);
    }
    assert DigitPrefix(ds) == ds by {
      DigitPrefixOfDigits(ds);
    }
  }

  /** `parseInt(String(n), 10) === n` for every non-negative integer. */
  lemma ParseIntOfDecimal(n: nat)
    ensures ParseInt(DecimalString(n)) == Some(n)
  {
    ParseIntOfDigits(DecimalString(n));
    DecimalValueOfString(n);
  }
}
