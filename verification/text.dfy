/** String helpers mirroring the JavaScript string operations the application relies on:
    `trim`, `toUpperCase`/`toLowerCase` (ASCII letters only), `parseInt(s, 10)`,
    `String(n)` for integers, `split`, `endsWith`, `join`, and a code-point
    lexicographic order standing in for `localeCompare`. */
module Text {
  import opened Wrappers

  /** White space as `trim`, `parseInt` and the regular expression `\s` see it: the
      ECMAScript WhiteSpace and LineTerminator code points (tab, line feed, vertical tab,
      form feed, carriage return, space, no-break space, the byte-order mark, the Unicode
      space separators and the line and paragraph separators). */
  predicate IsSpace(c: char) {
    var n := c as int;
    (9 <= n <= 13) || n == 0x20 || n == 0xA0 || n == 0x1680 || (0x2000 <= n <= 0x200A)
    || n == 0x2028 || n == 0x2029 || n == 0x202F || n == 0x205F || n == 0x3000 || n == 0xFEFF
  }

  predicate IsDigit(c: char) {
    '0' <= c <= '9'
  }

  predicate AllDigits(s: string) {
    forall i :: 0 <= i < |s| ==> IsDigit(s[i])
  }

  // ---------------------------------------------------------------------------
  // trim

  /** Drops leading white space. */
  function TrimStart(s: string): (r: string)
    ensures |r| <= |s| && r == s[|s| - |r|..]
    ensures r == [] || !IsSpace(r[0])
    ensures forall i :: 0 <= i < |s| - |r| ==> IsSpace(s[i])
  {
    if |s| > 0 && IsSpace(s[0]) then TrimStart(s[1..]) else s
  }

  /** Drops trailing white space. */
  function TrimEnd(s: string): (r: string)
    ensures r <= s
    ensures r == [] || !IsSpace(r[|r| - 1])
    ensures forall i :: |r| <= i < |s| ==> IsSpace(s[i])
  {
    if |s| > 0 && IsSpace(s[|s| - 1]) then TrimEnd(s[..|s| - 1]) else s
  }

  /** JavaScript's `s.trim()`. */
  function Trim(s: string): string {
    TrimEnd(TrimStart(s))
  }

  /** `!s.trim()`: the string is empty once white space is removed. */
  predicate IsBlank(s: string) {
    Trim(s) == []
  }

  /** A string is blank exactly when every character in it is white space. */
  lemma BlankIffAllSpace(s: string)
    ensures IsBlank(s) <==> forall i :: 0 <= i < |s| ==> IsSpace(s[i])
  {
    var t := TrimStart(s);
    if IsBlank(s) {
      assert TrimEnd(t) == [];
      assert |t| == 0;
    } else {
      var r := TrimEnd(t);
      assert r != [] && !IsSpace(r[|r| - 1]);
      assert r[|r| - 1] == t[|r| - 1] == s[|s| - |t| + |r| - 1];
    }
  }

  // ---------------------------------------------------------------------------
  // case mapping (ASCII letters only)

  function UpperChar(c: char): char {
    if 'a' <= c <= 'z' then (c as int - 32) as char else c
  }

  function LowerChar(c: char): char {
    if 'A' <= c <= 'Z' then (c as int + 32) as char else c
  }

  function ToUpper(s: string): (r: string)
    ensures |r| == |s| && forall i :: 0 <= i < |s| ==> r[i] == UpperChar(s[i])
  {
    seq(|s|, i requires 0 <= i < |s| => UpperChar(s[i]))
  }

  function ToLower(s: string): (r: string)
    ensures |r| == |s| && forall i :: 0 <= i < |s| ==> r[i] == LowerChar(s[i])
  {
    seq(|s|, i requires 0 <= i < |s| => LowerChar(s[i]))
  }

  // ---------------------------------------------------------------------------
  // parseInt(s, 10) and String(n)

  /** The longest prefix made of decimal digits. */
  function LeadingDigits(s: string): (r: string)
    ensures r <= s && AllDigits(r)
    ensures |r| < |s| ==> !IsDigit(s[|r|])
  {
    if |s| > 0 && IsDigit(s[0]) then [s[0]] + LeadingDigits(s[1..]) else []
  }

  /** Value of a string of decimal digits, most significant first. */
  function DigitsValue(d: string): nat
    requires AllDigits(d)
  {
    if |d| == 0 then 0 else DigitsValue(d[..|d| - 1]) * 10 + (d[|d| - 1] as int - '0' as int)
  }

  /** `parseInt(s, 10)`: skip leading white space, take an optional sign, then the longest
      run of digits; `None` stands for `NaN` (no digit where the number must start). */
  function ParseInt(s: string): (r: Option<int>)
    ensures r.Some? ==> exists i :: 0 <= i < |s| && IsDigit(s[i])
  {
    var t := TrimStart(s);
    var signed := |t| > 0 && (t[0] == '-' || t[0] == '+');
    var body := if signed then t[1..] else t;
    var d := LeadingDigits(body);
    if |d| == 0 then None
    else
      assert IsDigit(s[|s| - |body|]) by {
        assert body[0] == d[0];
        assert s[|s| - |t|..] == t;
      }
      var v: int := DigitsValue(d);
      Some(if signed && t[0] == '-' then -v else v)
  }

  function DigitChar(n: nat): char
    requires n < 10
  {
    ('0' as int + n) as char
  }

  /** Decimal digits of a natural number, no leading zeros. */
  function NatToString(n: nat): (r: string)
    ensures |r| > 0 && AllDigits(r)
  {
    if n < 10 then [DigitChar(n)] else NatToString(n / 10) + [DigitChar(n % 10)]
  }

  /** `String(n)` for an integer. */
  function IntToString(n: int): (r: string)
    ensures |r| > 0
  {
    if n < 0 then "-" + NatToString(-n) else NatToString(n)
  }

  lemma {:induction false} NatToStringValue(n: nat)
    ensures DigitsValue(NatToString(n)) == n
  {
    if n >= 10 {
      var s := NatToString(n);
      NatToStringValue(n / 10);
      assert s[..|s| - 1] == NatToString(n / 10);
    }
  }

  lemma {:induction false} LeadingDigitsOfDigits(s: string)
    requires AllDigits(s)
    ensures LeadingDigits(s) == s
  {
    if |s| > 0 {
      LeadingDigitsOfDigits(s[1..]);
    }
  }

  lemma TrimStartUnspaced(s: string)
    requires |s| > 0 && !IsSpace(s[0])
    ensures TrimStart(s) == s
  {
  }

  /** A run of digits parses to its value. */
  lemma ParseIntOfDigits(d: string)
    requires |d| > 0 && AllDigits(d)
    ensures ParseInt(d) == Some(DigitsValue(d))
  {
    TrimStartUnspaced(d);
    LeadingDigitsOfDigits(d);
    assert d[0] != '-' && d[0] != '+';
  }

  /** A minus sign followed by a run of digits parses to the negated value. */
  lemma ParseIntOfNegatedDigits(s: string)
    requires |s| > 1 && s[0] == '-' && AllDigits(s[1..])
    ensures ParseInt(s) == Some(-(DigitsValue(s[1..]) as int))
  {
    TrimStartUnspaced(s);
    LeadingDigitsOfDigits(s[1..]);
  }

  /** `parseInt(String(n), 10) == n`: the decimal rendering parses back to the same integer. */
  lemma ParseIntOfIntToString(n: int)
    ensures ParseInt(IntToString(n)) == Some(n)
  {
    var m: nat := if n < 0 then -n else n;
    NatToStringValue(m);
    if n < 0 {
      var s := IntToString(n);
      assert s[1..] == NatToString(m);
      ParseIntOfNegatedDigits(s);
    } else {
      ParseIntOfDigits(NatToString(m));
    }
  }

  // ---------------------------------------------------------------------------
  // split, endsWith, join

  /** `s.split(c)[0]`: the text before the first occurrence of `c` (all of `s` when absent). */
  function BeforeFirst(s: string, c: char): (r: string)
    ensures r <= s && c !in r
    ensures |r| < |s| ==> s[|r|] == c
  {
    if |s| == 0 || s[0] == c then [] else [s[0]] + BeforeFirst(s[1..], c)
  }

  /** `s.split(c)` for a one-character separator: the pieces between separators, empty ones kept. */
  function Split(s: string, c: char): (r: seq<string>)
    ensures |r| >= 1
    decreases |s|
  {
    var head := BeforeFirst(s, c);
    if |head| == |s| then [s] else [head] + Split(s[|head| + 1..], c)
  }

  /** `s.split(c)[1]`, `None` for JavaScript's `undefined` when there is no second piece. */
  function SecondPiece(s: string, c: char): Option<string> {
    var parts := Split(s, c);
    if |parts| >= 2 then Some(parts[1]) else None
  }

  predicate EndsWith(s: string, suffix: string) {
    |suffix| <= |s| && s[|s| - |suffix|..] == suffix
  }

  predicate StartsWith(s: string, prefix: string) {
    prefix <= s
  }

  /** A string ends with whatever was appended last. */
  lemma EndsWithAppend(a: string, b: string)
    ensures EndsWith(a + b, b)
  {
    assert (a + b)[|a|..] == b;
  }

  /** A string starts with anything it was built from by appending. */
  lemma StartsWithAppend(a: string, b: string)
    ensures StartsWith(a + b, a)
  {
    assert (a + b)[..|a|] == a;
  }

  /** `items.join(sep)`. */
  function Join(items: seq<string>, sep: string): string {
    if |items| == 0 then ""
    else if |items| == 1 then items[0]
    else items[0] + sep + Join(items[1..], sep)
  }

  /** `s` occurs in `t` starting at position `k`. */
  predicate OccursAt(s: string, t: string, k: int) {
    0 <= k <= |t| - |s| && t[k..k + |s|] == s
  }

  /** `s` occurs in `t` starting at some position. */
  predicate Occurs(s: string, t: string) {
    exists k :: 0 <= k <= |t| - |s| && OccursAt(s, t, k)
  }

  /** Every item of a joined list occurs in the joined text. */
  lemma {:induction false} JoinContainsItems(items: seq<string>, sep: string, i: nat)
    requires i < |items|
    ensures Occurs(items[i], Join(items, sep))
  {
    var j := Join(items, sep);
    if |items| == 1 || i == 0 {
      assert OccursAt(items[0], j, 0);
    } else {
      JoinContainsItems(items[1..], sep, i - 1);
      var rest := Join(items[1..], sep);
      assert items[1..][i - 1] == items[i];
      var k :| 0 <= k <= |rest| - |items[i]| && OccursAt(items[i], rest, k);
      var off := |items[0]| + |sep|;
      assert j == items[0] + sep + rest;
      assert j[off + k..off + k + |items[i]|] == rest[k..k + |items[i]|];
      assert OccursAt(items[i], j, off + k);
    }
  }

  // ---------------------------------------------------------------------------
  // white-space separated words

  predicate NoSpace(w: string) {
    forall i :: 0 <= i < |w| ==> !IsSpace(w[i])
  }

  /** The longest prefix free of white space. */
  function TakeWord(s: string): (r: string)
    ensures r <= s
    ensures NoSpace(r)
    ensures |r| < |s| ==> IsSpace(s[|r|])
  {
    if |s| > 0 && !IsSpace(s[0]) then [s[0]] + TakeWord(s[1..]) else []
  }

  /** A non-empty run of non-space characters. */
  predicate IsWord(w: string) {
    |w| > 0 && NoSpace(w)
  }

  /** A text that does not start with white space starts with a word. */
  lemma FirstWord(t: string)
    requires |t| > 0 && !IsSpace(t[0])
    ensures IsWord(TakeWord(t)) && |TakeWord(t)| <= |t|
  {
  }

  lemma ConsWords(w: string, rest: seq<string>)
    requires IsWord(w) && forall k :: 0 <= k < |rest| ==> IsWord(rest[k])
    ensures forall k :: 0 <= k < |rest| + 1 ==> IsWord(([w] + rest)[k])
  {
  }

  /** `s.trim().split(/\s+/).filter(Boolean)`: the maximal runs of non-space characters. */
  function Words(s: string): (r: seq<string>)
    ensures forall k :: 0 <= k < |r| ==> IsWord(r[k])
    decreases |s|
  {
    var t := TrimStart(s);
    if |t| == 0 then []
    else
      var w := TakeWord(t);
      FirstWord(t);
      var rest := Words(t[|w|..]);
      ConsWords(w, rest);
      [w] + rest
  }

  // ---------------------------------------------------------------------------
  // ordering of strings

  /** Lexicographic order on character codes; stands in for `localeCompare(...) < 0`. */
  predicate StrLess(a: string, b: string) {
    if |a| == 0 then |b| > 0
    else if |b| == 0 then false
    else a[0] < b[0] || (a[0] == b[0] && StrLess(a[1..], b[1..]))
  }

  lemma {:induction false} StrLessIrreflexive(a: string)
    ensures !StrLess(a, a)
  {
    if |a| > 0 {
      StrLessIrreflexive(a[1..]);
    }
  }

  lemma {:induction false} StrLessTransitive(a: string, b: string, c: string)
    requires StrLess(a, b) && StrLess(b, c)
    ensures StrLess(a, c)
  {
    if |a| > 0 && a[0] == b[0] && b[0] == c[0] {
      StrLessTransitive(a[1..], b[1..], c[1..]);
    }
  }

  lemma StrLessAsymmetric(a: string, b: string)
    ensures !(StrLess(a, b) && StrLess(b, a))
  {
    if StrLess(a, b) && StrLess(b, a) {
      StrLessTransitive(a, b, a);
      StrLessIrreflexive(a);
    }
  }

  lemma {:induction false} StrLessTotal(a: string, b: string)
    ensures a == b || StrLess(a, b) || StrLess(b, a)
  {
    if |a| > 0 && |b| > 0 && a[0] == b[0] {
      StrLessTotal(a[1..], b[1..]);
      if a[1..] == b[1..] {
        assert a == [a[0]] + a[1..] && b == [b[0]] + b[1..];
      }
    }
  }

  /** `a.localeCompare(b, undefined, { numeric: true }) < 0`, simplified: non-empty all-digit
      strings come first, ordered by value, and ties and other strings fall back to code order. */
  predicate NumericLess(a: string, b: string) {
    var an := |a| > 0 && AllDigits(a);
    var bn := |b| > 0 && AllDigits(b);
    if an && bn then
      DigitsValue(a) < DigitsValue(b) || (DigitsValue(a) == DigitsValue(b) && StrLess(a, b))
    else if an != bn then an
    else StrLess(a, b)
  }

  lemma NumericLessIrreflexive(a: string)
    ensures !NumericLess(a, a)
  {
    StrLessIrreflexive(a);
  }

  lemma NumericLessTransitive(a: string, b: string, c: string)
    requires NumericLess(a, b) && NumericLess(b, c)
    ensures NumericLess(a, c)
  {
    var an := |a| > 0 && AllDigits(a);
    var bn := |b| > 0 && AllDigits(b);
    var cn := |c| > 0 && AllDigits(c);
    if an && bn && cn {
      if DigitsValue(a) == DigitsValue(b) == DigitsValue(c) {
        StrLessTransitive(a, b, c);
      }
    } else if !an && !bn && !cn {
      StrLessTransitive(a, b, c);
    }
  }
}
