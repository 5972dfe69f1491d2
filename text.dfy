/** The string operations the application relies on, with JavaScript's
    meaning: relational comparison of strings, `trim`, `toLowerCase`,
    `includes`, `split`, `join`, `parseInt` and fixed-width decimal numerals. */
module Text {
  import opened Collections

  // ---------------------------------------------------------------------
  // Ordering
  // ---------------------------------------------------------------------

  /** JavaScript's `a < b` on strings: lexicographic order of the characters,
      a proper prefix coming first. */
  predicate Less(a: string, b: string)
    decreases |a|
  {
    if |a| == 0 then |b| > 0
    else if |b| == 0 then false
    else if a[0] != b[0] then a[0] < b[0]
    else Less(a[1..], b[1..])
  }

  /** JavaScript's `a <= b` on strings, which is defined as `!(b < a)`. */
  predicate LessEq(a: string, b: string) {
    !Less(b, a)
  }

  lemma {:induction false} LessIrreflexive(a: string)
    ensures !Less(a, a)
    decreases |a|
  {
    if |a| > 0 {
      LessIrreflexive(a[1..]);
    }
  }

  lemma {:induction false} LessAsymmetric(a: string, b: string)
    ensures Less(a, b) ==> !Less(b, a)
    decreases |a|
  {
    if |a| > 0 && |b| > 0 && a[0] == b[0] {
      LessAsymmetric(a[1..], b[1..]);
    }
  }

  lemma {:induction false} LessTransitive(a: string, b: string, c: string)
    requires Less(a, b) && Less(b, c)
    ensures Less(a, c)
    decreases |a|
  {
    if |a| > 0 && a[0] == b[0] && b[0] == c[0] {
      LessTransitive(a[1..], b[1..], c[1..]);
    }
  }

  lemma {:induction false} LessTotal(a: string, b: string)
    ensures Less(a, b) || a == b || Less(b, a)
    decreases |a|
  {
    if |a| > 0 && |b| > 0 && a[0] == b[0] {
      LessTotal(a[1..], b[1..]);
      if a[1..] == b[1..] {
        assert a == [a[0]] + a[1..] && b == [b[0]] + b[1..];
      }
    }
  }

  /** `<=` on strings is the reflexive closure of `<`. */
  lemma LessEqIsReflexiveLess(a: string, b: string)
    ensures LessEq(a, b) <==> a == b || Less(a, b)
  {
    LessIrreflexive(a);
    LessAsymmetric(a, b);
    LessTotal(a, b);
  }

  lemma LessEqTransitive(a: string, b: string, c: string)
    requires LessEq(a, b) && LessEq(b, c)
    ensures LessEq(a, c)
  {
    LessEqIsReflexiveLess(a, b);
    LessEqIsReflexiveLess(b, c);
    LessEqIsReflexiveLess(a, c);
    if Less(a, b) && Less(b, c) {
      LessTransitive(a, b, c);
    }
    LessAsymmetric(a, c);
  }

  /** Comparing two concatenations whose first parts have equal length: the
      first parts decide, and only when they are equal do the second parts. */
  lemma {:induction false} LessConcat(p: string, q: string, r: string, s: string)
    requires |p| == |q|
    ensures Less(p + r, q + s) <==> Less(p, q) || (p == q && Less(r, s))
    decreases |p|
  {
    if |p| > 0 {
      assert (p + r)[0] == p[0] && (q + s)[0] == q[0];
      assert (p + r)[1..] == p[1..] + r && (q + s)[1..] == q[1..] + s;
      LessConcat(p[1..], q[1..], r, s);
      if p[0] == q[0] && p[1..] == q[1..] {
        assert p == [p[0]] + p[1..] && q == [q[0]] + q[1..];
      }
    } else {
      assert p + r == r && q + s == s;
    }
  }

  /** `a.localeCompare(b)`: negative, zero or positive. The model uses the
      code-point order of `<` for it, a total order on strings. */
  function Collate(a: string, b: string): (r: int)
    ensures r < 0 <==> Less(a, b)
    ensures r == 0 <==> a == b
    ensures r > 0 <==> Less(b, a)
  {
    LessIrreflexive(a);
    LessAsymmetric(a, b);
    LessTotal(a, b);
    if Less(a, b) then -1 else if Less(b, a) then 1 else 0
  }

  // ---------------------------------------------------------------------
  // Sorted keys
  // ---------------------------------------------------------------------

  predicate StrictlyIncreasing(s: seq<string>) {
    forall i, j :: 0 <= i < j < |s| ==> Less(s[i], s[j])
  }

  lemma {:induction false} MinExists(keys: set<string>)
    requires keys != {}
    ensures exists m :: m in keys && forall y :: y in keys ==> LessEq(m, y)
    decreases |keys|
  {
    var x :| x in keys;
    LessIrreflexive(x);
    if keys - {x} != {} {
      MinExists(keys - {x});
      var m :| m in keys - {x} && forall y :: y in keys - {x} ==> LessEq(m, y);
      LessTotal(x, m);
      if Less(x, m) {
        forall y | y in keys ensures LessEq(x, y) {
          if y != x {
            LessEqIsReflexiveLess(x, m);
            LessEqTransitive(x, m, y);
          }
        }
      } else {
        LessAsymmetric(x, m);
        assert LessEq(m, x);
      }
    } else {
      assert keys == {x};
    }
  }

  lemma LessEqAntisymmetric(a: string, b: string)
    ensures LessEq(a, b) && LessEq(b, a) ==> a == b
  {
    LessTotal(a, b);
  }

  /** The smallest key under `<`. */
  function MinKey(keys: set<string>): (m: string)
    requires keys != {}
    ensures m in keys && forall y :: y in keys ==> LessEq(m, y)
  {
    MinExists(keys);
    assert forall a, b :: LessEq(a, b) && LessEq(b, a) ==> a == b by {
      forall a, b ensures LessEq(a, b) && LessEq(b, a) ==> a == b {
        LessEqAntisymmetric(a, b);
      }
    }
    var m :| m in keys && forall y :: y in keys ==> LessEq(m, y);
    m
  }

  /** `Object.keys(records).sort()`: the keys in ascending `<` order. */
  function SortedKeys(keys: set<string>): (r: seq<string>)
    ensures forall x :: x in r <==> x in keys
    ensures |r| == |keys|
    ensures StrictlyIncreasing(r)
    decreases |keys|
  {
    if keys == {} then []
    else
      var m := MinKey(keys);
      var rest := SortedKeys(keys - {m});
      assert forall j :: 0 <= j < |rest| ==> Less(m, rest[j]) by {
        forall j | 0 <= j < |rest| ensures Less(m, rest[j]) {
          assert rest[j] in keys - {m};
          LessEqIsReflexiveLess(m, rest[j]);
        }
      }
      [m] + rest
  }

  // ---------------------------------------------------------------------
  // Whitespace, trim, case
  // ---------------------------------------------------------------------

  /** The characters JavaScript's `trim`, `\s` and `parseInt` treat as white
      space: WhiteSpace and LineTerminator code points. */
  predicate IsSpace(c: char) {
    c == '\t' || c == '\n' || c == '\U{000B}' || c == '\U{000C}' || c == '\r' || c == ' '
    || c == '\U{00A0}' || c == '\U{1680}' || ('\U{2000}' <= c <= '\U{200A}')
    || c == '\U{2028}' || c == '\U{2029}' || c == '\U{202F}' || c == '\U{205F}'
    || c == '\U{3000}' || c == '\U{FEFF}'
  }

  /** `s.trimStart()`: the suffix of `s` after its leading white space. */
  function TrimStart(s: string): (r: string)
    ensures |r| <= |s| && r == s[|s| - |r|..]
    ensures |r| > 0 ==> !IsSpace(r[0])
    ensures forall i :: 0 <= i < |s| - |r| ==> IsSpace(s[i])
    decreases |s|
  {
    if |s| > 0 && IsSpace(s[0]) then TrimStart(s[1..]) else s
  }

  /** `s.trimEnd()`: the prefix of `s` before its trailing white space. */
  function TrimEnd(s: string): (r: string)
    ensures |r| <= |s| && r == s[..|r|]
    ensures |r| > 0 ==> !IsSpace(r[|r| - 1])
    ensures forall i :: |r| <= i < |s| ==> IsSpace(s[i])
    decreases |s|
  {
    if |s| > 0 && IsSpace(s[|s| - 1]) then TrimEnd(s[..|s| - 1]) else s
  }

  predicate AllSpace(s: string) {
    forall i :: 0 <= i < |s| ==> IsSpace(s[i])
  }

  /** `r` is `s` with its leading and trailing white space cut off: a slice
      of `s` with only white space around it and none at its own ends. */
  predicate IsTrimOf(r: string, s: string) {
    && (|r| > 0 ==> !IsSpace(r[0]) && !IsSpace(r[|r| - 1]))
    && exists lo :: 0 <= lo <= |s| - |r| && r == s[lo..lo + |r|]
                    && AllSpace(s[..lo]) && AllSpace(s[lo + |r|..])
  }

  /** `s.trim()`. */
  function Trim(s: string): (r: string)
    ensures IsTrimOf(r, s)
  {
    TrimIsTrimOf(s);
    TrimEnd(TrimStart(s))
  }

  lemma TrimIsTrimOf(s: string)
    ensures IsTrimOf(TrimEnd(TrimStart(s)), s)
  {
    var t := TrimStart(s);
    var r := TrimEnd(t);
    var lo := |s| - |t|;
    assert r == s[lo..lo + |r|];
    var head := s[..lo];
    assert AllSpace(head);
    var tail := s[lo + |r|..];
    forall i | 0 <= i < |tail| ensures IsSpace(tail[i]) {
      assert tail[i] == t[|r| + i];
    }
    TrimWitness(r, s, lo);
  }

  lemma TrimWitness(r: string, s: string, lo: int)
    requires 0 <= lo <= |s| - |r| && r == s[lo..lo + |r|]
    requires AllSpace(s[..lo]) && AllSpace(s[lo + |r|..])
    requires |r| > 0 ==> !IsSpace(r[0]) && !IsSpace(r[|r| - 1])
    ensures IsTrimOf(r, s)
  {
  }

  /** The capitals `toLowerCase` maps: ASCII letters and the Latin-1
      capitals (the accented letters of Spanish names). */
  predicate IsUpper(c: char) {
    'A' <= c <= 'Z' || ('\U{00C0}' <= c <= '\U{00DE}' && c != '\U{00D7}')
  }

  function LowerChar(c: char): char {
    if IsUpper(c) then (c as int + 32) as char else c
  }

  /** `s.toLowerCase()`: every capital becomes its small letter (32 code
      points further on), every other character stays, and no capital is
      left. */
  function ToLower(s: string): (r: string)
    ensures |r| == |s|
    ensures forall i :: 0 <= i < |s| && IsUpper(s[i]) ==> r[i] as int == s[i] as int + 32
    ensures forall i :: 0 <= i < |s| && !IsUpper(s[i]) ==> r[i] == s[i]
    ensures forall i :: 0 <= i < |r| ==> !IsUpper(r[i])
  {
    seq(|s|, i requires 0 <= i < |s| => LowerChar(s[i]))
  }

  /** Lower-casing twice is lower-casing once. */
  lemma ToLowerIdempotent(s: string)
    ensures ToLower(ToLower(s)) == ToLower(s)
  {
  }

  // ---------------------------------------------------------------------
  // Searching, splitting, joining
  // ---------------------------------------------------------------------

  predicate StartsWith(s: string, p: string) {
    |p| <= |s| && s[..|p|] == p
  }

  /** `s.includes(p)`. */
  predicate Contains(s: string, p: string)
    decreases |s|
  {
    StartsWith(s, p) || (|s| > 0 && Contains(s[1..], p))
  }

  predicate OccursAt(s: string, p: string, i: int) {
    0 <= i <= |s| - |p| && s[i..i + |p|] == p
  }

  /** `includes` holds exactly when `p` occurs at some position of `s`. */
  lemma {:induction false} ContainsIffOccurs(s: string, p: string)
    ensures Contains(s, p) <==> exists i :: OccursAt(s, p, i)
    decreases |s|
  {
    if |s| > 0 {
      ContainsIffOccurs(s[1..], p);
      if Contains(s[1..], p) {
        var i :| OccursAt(s[1..], p, i);
        assert s[i + 1..i + 1 + |p|] == s[1..][i..i + |p|];
        assert OccursAt(s, p, i + 1);
      }
      if exists i :: OccursAt(s, p, i) {
        var i :| OccursAt(s, p, i);
        if i > 0 {
          assert s[1..][i - 1..i - 1 + |p|] == s[i..i + |p|];
          assert OccursAt(s[1..], p, i - 1);
        } else {
          assert StartsWith(s, p);
        }
      }
    }
    if StartsWith(s, p) {
      assert OccursAt(s, p, 0);
    }
    if |s| == 0 && exists i :: OccursAt(s, p, i) {
      var i :| OccursAt(s, p, i);
      assert StartsWith(s, p);
    }
  }

  /** `s.split(c)` for a one-character separator `c`, generalised to any set
      of separator characters: the pieces between separators, empty pieces
      included. */
  function SplitWhere(s: string, isSep: char -> bool): (r: seq<string>)
    ensures |r| >= 1
    ensures forall k, i :: 0 <= k < |r| && 0 <= i < |r[k]| ==> !isSep(r[k][i])
    decreases |s|
  {
    if |s| == 0 then [""]
    else
      var rest := SplitWhere(s[1..], isSep);
      if isSep(s[0]) then [""] + rest
      else [[s[0]] + rest[0]] + rest[1..]
  }

  function Split(s: string, c: char): seq<string> {
    SplitWhere(s, x => x == c)
  }

  /** `parts.join(sep)`. */
  function Join(parts: seq<string>, sep: string): string
    decreases |parts|
  {
    if |parts| == 0 then ""
    else if |parts| == 1 then parts[0]
    else parts[0] + sep + Join(parts[1..], sep)
  }

  /** Splitting on a character and joining with it gives the string back. */
  lemma {:induction false} JoinSplit(s: string, c: char)
    ensures Join(Split(s, c), [c]) == s
    decreases |s|
  {
    if |s| > 0 {
      JoinSplit(s[1..], c);
      var rest := Split(s[1..], c);
      assert s == [s[0]] + s[1..];
      if s[0] == c {
        assert Split(s, c) == [""] + rest;
      } else {
        assert Split(s, c) == [[s[0]] + rest[0]] + rest[1..];
        if |rest| > 1 {
          assert rest == [rest[0]] + rest[1..];
        }
      }
    }
  }

  predicate NoneOf(s: string, isSep: char -> bool) {
    forall i :: 0 <= i < |s| ==> !isSep(s[i])
  }

  /** A piece without separators is split into itself. */
  lemma {:induction false} SplitWhereNone(a: string, isSep: char -> bool)
    requires NoneOf(a, isSep)
    ensures SplitWhere(a, isSep) == [a]
    decreases |a|
  {
    if |a| > 0 {
      SplitWhereNone(a[1..], isSep);
      assert a == [a[0]] + a[1..];
    }
  }

  /** Splitting at the first separator: the piece before it comes first. */
  lemma {:induction false} SplitWhereAt(a: string, c: char, b: string, isSep: char -> bool)
    requires NoneOf(a, isSep) && isSep(c)
    ensures SplitWhere(a + [c] + b, isSep) == [a] + SplitWhere(b, isSep)
    decreases |a|
  {
    if |a| == 0 {
      assert a + [c] + b == [c] + b;
      assert ([c] + b)[1..] == b;
    } else {
      SplitWhereAt(a[1..], c, b, isSep);
      var s := a + [c] + b;
      assert s[0] == a[0] && s[1..] == a[1..] + [c] + b;
      assert [a[0]] + a[1..] == a;
    }
  }

  /** Words joined by single spaces split back into the same words. */
  lemma {:induction false} WordsOfJoin(ws: seq<string>)
    requires forall k :: 0 <= k < |ws| ==> |ws[k]| > 0 && NoneOf(ws[k], IsSpace)
    ensures Words(Join(ws, " ")) == ws
  {
    SplitJoin(ws);
    FilterAll(ws, (p: string) => |p| > 0);
  }

  lemma {:induction false} SplitJoin(ws: seq<string>)
    requires forall k :: 0 <= k < |ws| ==> |ws[k]| > 0 && NoneOf(ws[k], IsSpace)
    ensures |ws| > 0 ==> SplitWhere(Join(ws, " "), IsSpace) == ws
    decreases |ws|
  {
    if |ws| == 1 {
      SplitWhereNone(ws[0], IsSpace);
    } else if |ws| > 1 {
      SplitJoin(ws[1..]);
      SplitWhereAt(ws[0], ' ', Join(ws[1..], " "), IsSpace);
      assert ws[0] + " " + Join(ws[1..], " ") == ws[0] + [' '] + Join(ws[1..], " ");
      assert ws == [ws[0]] + ws[1..];
    }
  }

  /** A string that neither starts nor ends with white space is its own trim. */
  lemma TrimOfTrimmed(s: string)
    requires |s| > 0 && !IsSpace(s[0]) && !IsSpace(s[|s| - 1])
    ensures Trim(s) == s
  {
  }

  /** Leading white space does not survive a trim. */
  lemma {:induction false} TrimSpacePrefix(s: string)
    requires |s| > 0 && !IsSpace(s[0]) && !IsSpace(s[|s| - 1])
    ensures Trim(" " + s) == s
  {
    assert (" " + s)[1..] == s;
  }

  /** `s.split(/\s+/).filter(p => p.length > 0)`: the maximal runs of
      non-white-space characters. Splitting at every white-space character
      and dropping the empty pieces gives the same words as splitting at runs. */
  function Words(s: string): (r: seq<string>)
    ensures forall k :: 0 <= k < |r| ==> |r[k]| > 0
  {
    var r := Filter(SplitWhere(s, IsSpace), (p: string) => |p| > 0);
    assert forall k :: 0 <= k < |r| ==> r[k] in r;
    r
  }

  // ---------------------------------------------------------------------
  // Decimal numerals
  // ---------------------------------------------------------------------

  predicate IsDigit(c: char) {
    48 <= c as int <= 57
  }

  predicate AllDigits(s: string) {
    forall i :: 0 <= i < |s| ==> IsDigit(s[i])
  }

  function DigitChar(d: nat): char
    requires d < 10
  {
    (48 + d) as char
  }

  function DigitValue(c: char): nat
    requires IsDigit(c)
  {
    c as int - 48
  }

  function Pow10(w: nat): (r: nat)
    ensures r >= 1
  {
    if w == 0 then 1 else 10 * Pow10(w - 1)
  }

  /** The value of a string of decimal digits (most significant first). */
  function NumberOf(s: string): (r: nat)
    requires AllDigits(s)
    decreases |s|
  {
    if |s| == 0 then 0 else 10 * NumberOf(s[..|s| - 1]) + DigitValue(s[|s| - 1])
  }

  /** `String(n).padStart(w, '0')` for `n` below `10^w`: exactly `w` digits. */
  function Digits(n: nat, w: nat): (r: string)
    requires n < Pow10(w)
    ensures |r| == w && AllDigits(r)
    decreases w
  {
    if w == 0 then "" else Digits(n / 10, w - 1) + [DigitChar(n % 10)]
  }

  lemma {:induction false} NumberOfBound(s: string)
    requires AllDigits(s)
    ensures NumberOf(s) < Pow10(|s|)
    decreases |s|
  {
    if |s| > 0 {
      NumberOfBound(s[..|s| - 1]);
    }
  }

  /** Reading back a padded numeral gives its value. */
  lemma {:induction false} NumberOfDigits(n: nat, w: nat)
    requires n < Pow10(w)
    ensures NumberOf(Digits(n, w)) == n
    decreases w
  {
    if w > 0 {
      var d := Digits(n, w);
      assert d[..w - 1] == Digits(n / 10, w - 1);
      NumberOfDigits(n / 10, w - 1);
    }
  }

  /** Every digit string is the padded numeral of its own value. */
  lemma {:induction false} DigitsOfNumber(s: string)
    requires AllDigits(s)
    ensures NumberOf(s) < Pow10(|s|) && Digits(NumberOf(s), |s|) == s
    decreases |s|
  {
    NumberOfBound(s);
    if |s| > 0 {
      var init := s[..|s| - 1];
      DigitsOfNumber(init);
      var n := NumberOf(s);
      assert n / 10 == NumberOf(init) && n % 10 == DigitValue(s[|s| - 1]);
      assert s == init + [s[|s| - 1]];
    }
  }

  /** Padded numerals of one width compare as strings exactly as their values
      compare as numbers. This is why zero-padded dates and times can be
      compared with `<`. */
  lemma {:induction false} DigitsOrder(a: nat, b: nat, w: nat)
    requires a < Pow10(w) && b < Pow10(w)
    ensures Less(Digits(a, w), Digits(b, w)) <==> a < b
    decreases w
  {
    if w > 0 {
      var ha, hb := Digits(a / 10, w - 1), Digits(b / 10, w - 1);
      var la, lb := [DigitChar(a % 10)], [DigitChar(b % 10)];
      DigitsOrder(a / 10, b / 10, w - 1);
      NumberOfDigits(a / 10, w - 1);
      NumberOfDigits(b / 10, w - 1);
      assert ha == hb <==> a / 10 == b / 10;
      LessConcat(ha, hb, la, lb);
      assert Less(la, lb) <==> a % 10 < b % 10;
      LastDigitOrder(a, b);
    }
  }

  /** Numbers compare as their leading digits, then their last digit. */
  lemma LastDigitOrder(a: nat, b: nat)
    ensures a < b <==> a / 10 < b / 10 || (a / 10 == b / 10 && a % 10 < b % 10)
  {
    assert a == 10 * (a / 10) + a % 10;
    assert b == 10 * (b / 10) + b % 10;
  }

  /** `parseInt(s, 10)`: leading white space is skipped, an optional sign is
      read, then the longest run of digits; `None` stands for `NaN`. */
  function ParseInt(s: string): Option<int>
  {
    var t := TrimStart(s);
    var negative := |t| > 0 && t[0] == '-';
    var u := if |t| > 0 && (t[0] == '+' || t[0] == '-') then t[1..] else t;
    var n := LeadingDigits(u);
    if n == 0 then None
    else
      var v: int := NumberOf(u[..n]);
      Some(if negative then -v else v)
  }

  /** A numeral, such as the period filters `7`, `14` and `30`, reads back
      as its value. */
  lemma ParseIntOfDigits(n: nat, w: nat)
    requires 0 < w && n < Pow10(w)
    ensures ParseInt(Digits(n, w)) == Some(n)
  {
    var d := Digits(n, w);
    assert IsDigit(d[0]);
    assert TrimStart(d) == d;
    assert LeadingDigits(d) == w;
    assert d[..w] == d;
    NumberOfDigits(n, w);
  }

  /** Length of the longest prefix of `s` made of digits. */
  function LeadingDigits(s: string): (n: nat)
    ensures n <= |s| && AllDigits(s[..n])
    ensures n < |s| ==> !IsDigit(s[n])
    decreases |s|
  {
    if |s| > 0 && IsDigit(s[0]) then 1 + LeadingDigits(s[1..]) else 0
  }
}
