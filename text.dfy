/** The JavaScript string built-ins the binding engine relies on:
    `String.prototype.trim`, `toLowerCase`, `split` on a one-character
    separator, `Array.prototype.join`, and the NaN test of `Number(s)`. */
module Text {

  /** WhiteSpace and LineTerminator code points of ECMAScript, the set that
      `trim` strips and that `Number` skips around a numeric literal. */
  predicate IsWhiteSpace(c: char) {
    || c == '\t' || c == '\n' || c == '\U{000B}' || c == '\U{000C}' || c == '\r'
    || c == ' ' || c == '\U{00A0}' || c == '\U{1680}'
    || ('\U{2000}' <= c <= '\U{200A}')
    || c == '\U{2028}' || c == '\U{2029}' || c == '\U{202F}' || c == '\U{205F}'
    || c == '\U{3000}' || c == '\U{FEFF}'
  }

  predicate AllWhiteSpace(s: string) {
    forall k :: 0 <= k < |s| ==> IsWhiteSpace(s[k])
  }

  /** Leading white space removed. */
  function TrimStart(s: string): string
    decreases |s|
  {
    if s == [] || !IsWhiteSpace(s[0]) then s else TrimStart(s[1..])
  }

  /** Trailing white space removed. */
  function TrimEnd(s: string): string
    decreases |s|
  {
    if s == [] || !IsWhiteSpace(s[|s| - 1]) then s else TrimEnd(s[..|s| - 1])
  }

  /** TrimStart keeps a suffix of its input, preceded only by white space,
      that does not itself start with white space. */
  lemma {:induction false} TrimStartSpec(s: string)
    ensures var r := TrimStart(s);
            && |r| <= |s| && r == s[|s| - |r|..]
            && AllWhiteSpace(s[..|s| - |r|])
            && (r == [] || !IsWhiteSpace(r[0]))
    decreases |s|
  {
    if s != [] && IsWhiteSpace(s[0]) {
      TrimStartSpec(s[1..]);
      var r := TrimStart(s[1..]);
      assert s[..|s| - |r|] == [s[0]] + s[1..][..|s| - 1 - |r|];
    }
  }

  /** TrimEnd keeps a prefix of its input, followed only by white space,
      that does not itself end with white space. */
  lemma {:induction false} TrimEndSpec(s: string)
    ensures var r := TrimEnd(s);
            && |r| <= |s| && r == s[..|r|]
            && AllWhiteSpace(s[|r|..])
            && (r == [] || !IsWhiteSpace(r[|r| - 1]))
    decreases |s|
  {
    if s != [] && IsWhiteSpace(s[|s| - 1]) {
      TrimEndSpec(s[..|s| - 1]);
      var r := TrimEnd(s[..|s| - 1]);
      assert s[|r|..] == s[..|s| - 1][|r|..] + [s[|s| - 1]];
    }
  }

  /** `String.prototype.trim`. */
  function Trim(s: string): string {
    TrimEnd(TrimStart(s))
  }

  /** Trim yields a contiguous slice of its input with only white space cut
      away on either side, and the slice neither starts nor ends with white space. */
  lemma TrimIsSlice(s: string)
    ensures exists i, j :: 0 <= i <= j <= |s| && Trim(s) == s[i..j]
                           && AllWhiteSpace(s[..i]) && AllWhiteSpace(s[j..])
    ensures Trim(s) == [] || (!IsWhiteSpace(Trim(s)[0]) && !IsWhiteSpace(Trim(s)[|Trim(s)| - 1]))
  {
    var t := TrimStart(s);
    var r := TrimEnd(t);
    TrimStartSpec(s);
    TrimEndSpec(t);
    var i := |s| - |t|;
    var j := i + |r|;
    assert r == s[i..j] by { assert t == s[i..]; }
    assert AllWhiteSpace(s[j..]) by { assert s[j..] == t[|r|..]; }
    assert Trim(s) == s[i..j];
    if r != [] { assert r[0] == t[0]; }
  }

  /** Surrounding white space does not change what Trim yields. */
  lemma {:induction false} TrimIgnoresPadding(w1: string, x: string, w2: string)
    requires AllWhiteSpace(w1) && AllWhiteSpace(w2)
    ensures Trim(w1 + x + w2) == Trim(x)
  {
    assert w1 + x + w2 == w1 + (x + w2);
    TrimStartDropsPadding(w1, x + w2);
    TrimStartAppend(x, w2);
    if TrimStart(x) != [] {
      TrimEndSkipsPadding(TrimStart(x), w2);
    }
  }

  lemma {:induction false} TrimStartAppend(x: string, w: string)
    requires AllWhiteSpace(w)
    ensures TrimStart(x + w) == if TrimStart(x) == [] then [] else TrimStart(x) + w
    decreases |x|
  {
    if x == [] {
      assert x + w == w + [];
      TrimStartDropsPadding(w, []);
    } else if IsWhiteSpace(x[0]) {
      assert (x + w)[1..] == x[1..] + w;
      TrimStartAppend(x[1..], w);
    } else {
      assert (x + w)[0] == x[0];
    }
  }

  lemma {:induction false} TrimStartDropsPadding(w: string, y: string)
    requires AllWhiteSpace(w)
    ensures TrimStart(w + y) == TrimStart(y)
    decreases |w|
  {
    if w == [] {
      assert w + y == y;
    } else {
      assert (w + y)[1..] == w[1..] + y;
      TrimStartDropsPadding(w[1..], y);
    }
  }

  lemma {:induction false} TrimEndSkipsPadding(y: string, w: string)
    requires AllWhiteSpace(w)
    ensures TrimEnd(y + w) == TrimEnd(y)
    decreases |w|
  {
    if w == [] {
      assert y + w == y;
    } else {
      assert (y + w)[..|y + w| - 1] == y + w[..|w| - 1];
      TrimEndSkipsPadding(y, w[..|w| - 1]);
    }
  }

  /** Text that neither starts nor ends with white space is left as it is. */
  lemma TrimUnpadded(s: string)
    requires s == [] || (!IsWhiteSpace(s[0]) && !IsWhiteSpace(s[|s| - 1]))
    ensures Trim(s) == s
  {
  }

  /** Trimming twice is trimming once. */
  lemma TrimIdempotent(s: string)
    ensures Trim(Trim(s)) == Trim(s)
  {
    var r := Trim(s);
    TrimIsSlice(s);
    if r != [] {
      assert TrimStart(r) == r;
      assert TrimEnd(r) == r;
    }
  }

  /** ASCII part of `toLowerCase`. */
  function LowerChar(c: char): (r: char)
    ensures 'A' <= c <= 'Z' ==> 'a' <= r <= 'z' && r as int == c as int + 32
    ensures !('A' <= c <= 'Z') ==> r == c
  {
    if 'A' <= c <= 'Z' then (c as int + 32) as char else c
  }

  /** `String.prototype.toLowerCase`, restricted to the ASCII letters. */
  function ToLower(s: string): (r: string)
    ensures |r| == |s|
    ensures forall k :: 0 <= k < |s| ==> r[k] == LowerChar(s[k])
  {
    seq(|s|, k requires 0 <= k < |s| => LowerChar(s[k]))
  }

  /** Lower-casing twice is lower-casing once, and it keeps white space. */
  lemma ToLowerIdempotent(s: string)
    ensures ToLower(ToLower(s)) == ToLower(s)
  {
  }

  /** `s.split(sep)` for a separator of one character: the pieces between
      successive separators, always at least one (`"".split(",")` is `[""]`). */
  function Split(s: string, sep: char): (r: seq<string>)
    ensures |r| >= 1
    decreases |s|
  {
    if s == [] then [[]]
    else
      var rest := Split(s[1..], sep);
      if s[0] == sep then [[]] + rest else [[s[0]] + rest[0]] + rest[1..]
  }

  /** No piece of a split contains the separator. */
  lemma {:induction false} SplitPiecesLackSeparator(s: string, sep: char)
    ensures forall i :: 0 <= i < |Split(s, sep)| ==> sep !in Split(s, sep)[i]
    decreases |s|
  {
    if s != [] {
      SplitPiecesLackSeparator(s[1..], sep);
    }
  }

  /** `parts.join(sep)`: the parts in order, `sep` between neighbours. */
  function Join(parts: seq<string>, sep: string): string
    decreases |parts|
  {
    if |parts| == 0 then ""
    else if |parts| == 1 then parts[0]
    else parts[0] + sep + Join(parts[1..], sep)
  }

  /** Joining the pieces of a split with the separator gives back the string. */
  lemma {:induction false} JoinSplit(s: string, sep: char)
    ensures Join(Split(s, sep), [sep]) == s
    decreases |s|
  {
    if s != [] {
      var rest := Split(s[1..], sep);
      JoinSplit(s[1..], sep);
      if s[0] == sep {
        assert Join([[]] + rest, [sep]) == [] + [sep] + Join(rest, [sep]);
        assert s == [sep] + s[1..];
      } else {
        var r := [[s[0]] + rest[0]] + rest[1..];
        if |rest| == 1 {
          assert Join(r, [sep]) == [s[0]] + rest[0];
          assert Join(rest, [sep]) == rest[0];
        } else {
          assert r[1..] == rest[1..];
          assert Join(r, [sep]) == [s[0]] + rest[0] + [sep] + Join(rest[1..], [sep]);
          assert Join(rest, [sep]) == rest[0] + [sep] + Join(rest[1..], [sep]);
        }
        assert s == [s[0]] + s[1..];
      }
    }
  }

  /** Position in `Join(parts, sep)` at which part `i` starts. */
  function JoinOffset(parts: seq<string>, sep: string, i: nat): nat
    requires i < |parts|
    decreases i
  {
    if i == 0 then 0 else |parts[0]| + |sep| + JoinOffset(parts[1..], sep, i - 1)
  }

  /** Every part appears in the joined string at its offset, and the offsets
      increase with the index: the join keeps the parts, in the given order. */
  lemma {:induction false} JoinContainsParts(parts: seq<string>, sep: string, i: nat)
    requires i < |parts|
    ensures JoinOffset(parts, sep, i) + |parts[i]| <= |Join(parts, sep)|
    ensures Join(parts, sep)[JoinOffset(parts, sep, i)..JoinOffset(parts, sep, i) + |parts[i]|] == parts[i]
    ensures i + 1 < |parts| ==> JoinOffset(parts, sep, i) + |parts[i]| + |sep| == JoinOffset(parts, sep, i + 1)
    decreases i
  {
    if i == 0 {
      if |parts| > 1 {
        assert Join(parts, sep) == parts[0] + (sep + Join(parts[1..], sep));
      }
    } else {
      JoinContainsParts(parts[1..], sep, i - 1);
      var tail := Join(parts[1..], sep);
      var head := parts[0] + sep;
      assert Join(parts, sep) == head + tail;
      var o := JoinOffset(parts[1..], sep, i - 1);
      assert (head + tail)[|head| + o..|head| + o + |parts[i]|] == tail[o..o + |parts[i]|];
    }
  }

  // The NaN test of JavaScript's `Number(s)` (ECMAScript StringNumericLiteral).

  predicate IsDecimalDigit(c: char) { '0' <= c <= '9' }

  /** Index just after the run of decimal digits that starts at `i`. */
  function DigitRun(s: string, i: nat): (j: nat)
    requires i <= |s|
    ensures i <= j <= |s|
    decreases |s| - i
  {
    if i < |s| && IsDecimalDigit(s[i]) then DigitRun(s, i + 1) else i
  }

  predicate IsDigits(s: string, digit: char -> bool) {
    |s| > 0 && forall k :: 0 <= k < |s| ==> digit(s[k])
  }

  /** `0b…`, `0o…` or `0x…` with at least one digit of that radix. */
  predicate IsNonDecimalInteger(s: string) {
    && |s| > 2 && s[0] == '0'
    && ( || ((s[1] == 'b' || s[1] == 'B') && IsDigits(s[2..], c => c == '0' || c == '1'))
         || ((s[1] == 'o' || s[1] == 'O') && IsDigits(s[2..], c => '0' <= c <= '7'))
         || ((s[1] == 'x' || s[1] == 'X') &&
             IsDigits(s[2..], c => IsDecimalDigit(c) || 'a' <= c <= 'f' || 'A' <= c <= 'F')))
  }

  /** Empty, or `e`/`E` followed by an optionally signed run of digits. */
  predicate IsExponentOpt(s: string) {
    || s == []
    || (&& (s[0] == 'e' || s[0] == 'E')
        && ( || IsDigits(s[1..], IsDecimalDigit)
             || (|s| > 1 && (s[1] == '+' || s[1] == '-') && IsDigits(s[2..], IsDecimalDigit))))
  }

  /** `Infinity`, or digits with an optional fraction and exponent, with at
      least one digit before or after the point. */
  predicate IsUnsignedDecimal(s: string) {
    || s == "Infinity"
    || (var a := DigitRun(s, 0);
        var dot := a < |s| && s[a] == '.';
        var b := if dot then DigitRun(s, a + 1) else a;
        && (a > 0 || b > a + 1)
        && IsExponentOpt(s[b..]))
  }

  predicate IsDecimalLiteral(s: string) {
    || IsUnsignedDecimal(s)
    || (|s| > 0 && (s[0] == '+' || s[0] == '-') && IsUnsignedDecimal(s[1..]))
  }

  /** `!isNaN(Number(s))`: after trimming, `s` is empty (which `Number` reads
      as 0) or a decimal or non-decimal numeric literal. */
  predicate IsNumeric(s: string) {
    var t := Trim(s);
    t == [] || IsNonDecimalInteger(t) || IsDecimalLiteral(t)
  }

  /** Canonical decimal text of a natural number, as TypeScript writes the
      reverse-mapping keys of a numeric enum. */
  function NatToString(n: nat): (r: string)
    ensures |r| > 0 && forall k :: 0 <= k < |r| ==> IsDecimalDigit(r[k])
    decreases n
  {
    var d := ['0' + (n % 10) as char];
    if n < 10 then d else NatToString(n / 10) + d
  }

  /** Every reverse-mapping key of a numeric enum counts as numeric. */
  lemma NatStringIsNumeric(n: nat)
    ensures IsNumeric(NatToString(n))
  {
    var s := NatToString(n);
    assert TrimStart(s) == s;
    assert TrimEnd(s) == s;
    assert DigitRun(s, 0) == |s| by { DigitRunAll(s, 0); }
    assert s[|s|..] == [];
  }

  lemma {:induction false} DigitRunAll(s: string, i: nat)
    requires i <= |s|
    requires forall k :: 0 <= k < |s| ==> IsDecimalDigit(s[k])
    ensures DigitRun(s, i) == |s|
    decreases |s| - i
  {
    if i < |s| { DigitRunAll(s, i + 1); }
  }

  /** A key that starts with an ASCII letter other than `I` (the start of
      `Infinity`) is not numeric: enum member names are looked at. */
  lemma IdentifierIsNotNumeric(s: string)
    requires |s| > 0 && (('a' <= s[0] <= 'z') || ('A' <= s[0] <= 'Z')) && s[0] != 'I'
    ensures !IsNumeric(s)
  {
    assert TrimStart(s) == s;
    TrimIsSlice(s);
    var t := Trim(s);
    assert t == TrimEnd(s);
    assert t != [] && t[0] == s[0];
    assert DigitRun(t, 0) == 0;
  }
}
