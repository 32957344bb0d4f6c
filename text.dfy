/**
  The JavaScript string operations the application relies on, stated over Dafny strings.
  A Dafny `char` is one Unicode code point; JavaScript's `length` counts UTF-16 code units,
  so the two agree on text without characters outside the Basic Multilingual Plane.
*/
module Text {
  import opened Wrappers

  /** JavaScript's `\s` class: the WhiteSpace and LineTerminator code points. `trim()` strips the same set. */
  predicate IsSpace(c: char) {
    var n := c as int;
    n == 0x09 || n == 0x0A || n == 0x0B || n == 0x0C || n == 0x0D || n == 0x20 ||
    n == 0xA0 || n == 0x1680 || (0x2000 <= n <= 0x200A) || n == 0x2028 || n == 0x2029 ||
    n == 0x202F || n == 0x205F || n == 0x3000 || n == 0xFEFF
  }

  /** The code points that a regular-expression `.` does not match. */
  predicate IsLineTerminator(c: char) {
    var n := c as int;
    n == 0x0A || n == 0x0D || n == 0x2028 || n == 0x2029
  }

  predicate NoSpace(s: string) {
    forall i :: 0 <= i < |s| ==> !IsSpace(s[i])
  }

  /** `NoSpace` stated over the characters of the text rather than its positions. */
  lemma NoSpaceMembers(s: string)
    ensures NoSpace(s) <==> forall c :: c in s ==> !IsSpace(c)
  {
  }

  predicate IsUpperAscii(c: char) {
    'A' <= c <= 'Z'
  }

  /** `toLowerCase` restricted to ASCII letters. */
  function LowerChar(c: char): (r: char)
    ensures !IsUpperAscii(r)
    ensures IsSpace(r) <==> IsSpace(c)
  {
    if IsUpperAscii(c) then (c as int + 32) as char else c
  }

  function Lower(s: string): (r: string)
    ensures |r| == |s|
    ensures forall i :: 0 <= i < |s| ==> r[i] == LowerChar(s[i])
  {
    if s == [] then [] else [LowerChar(s[0])] + Lower(s[1..])
  }

  lemma {:induction false} LowerAppend(a: string, b: string)
    ensures Lower(a + b) == Lower(a) + Lower(b)
  {
    if a == [] {
      assert a + b == b;
    } else {
      assert (a + b)[0] == a[0];
      assert (a + b)[1..] == a[1..] + b;
      LowerAppend(a[1..], b);
    }
  }

  /**
    `s.replace(/pat/g, rep)` for a pattern that is a literal string: occurrences are found
    from left to right and do not overlap.
  */
  function ReplaceAll(s: string, pat: string, rep: string): (r: string)
    requires |pat| > 0
    decreases |s|
  {
    if s == [] then []
    else if pat <= s then rep + ReplaceAll(s[|pat|..], pat, rep)
    else [s[0]] + ReplaceAll(s[1..], pat, rep)
  }

  /** Every character of the result comes from the text or from the replacement. */
  lemma {:induction false} ReplaceAllMembers(s: string, pat: string, rep: string)
    requires |pat| > 0
    ensures forall c :: c in ReplaceAll(s, pat, rep) ==> c in s || c in rep
    decreases |s|
  {
    if s != [] {
      if pat <= s {
        ReplaceAllMembers(s[|pat|..], pat, rep);
        assert forall c :: c in s[|pat|..] ==> c in s;
      } else {
        ReplaceAllMembers(s[1..], pat, rep);
        assert forall c :: c in s[1..] ==> c in s;
      }
    }
  }

  /** After replacing every occurrence of a one-character pattern, that character is gone. */
  lemma {:induction false} ReplaceAllRemoves(s: string, p: char, rep: string)
    requires p !in rep
    ensures p !in ReplaceAll(s, [p], rep)
    decreases |s|
  {
    if s != [] {
      if [p] <= s {
        ReplaceAllRemoves(s[1..], p, rep);
      } else {
        assert s[0] != p;
        ReplaceAllRemoves(s[1..], p, rep);
      }
    }
  }

  /** A text lacking one of the pattern's characters has no occurrence to replace. */
  lemma {:induction false} ReplaceAllAbsent(s: string, pat: string, rep: string, c: char)
    requires |pat| > 0 && c in pat && c !in s
    ensures ReplaceAll(s, pat, rep) == s
    decreases |s|
  {
    if s != [] {
      ReplaceAllAbsent(s[1..], pat, rep, c);
    }
  }

  /** An occurrence starting before a character it cannot contain ends before that character. */
  lemma PrefixBefore(pat: string, a: string, c: char, b: string)
    requires c !in pat
    ensures pat <= a + [c] + b <==> pat <= a
  {
    var s := a + [c] + b;
    if |pat| <= |a| {
      assert forall i :: 0 <= i < |pat| ==> s[i] == a[i];
    } else {
      assert s[|a|] == c;
      assert pat[|a|] in pat;
      assert !(pat <= s);
    }
  }

  /** A character that cannot be part of an occurrence splits the replacement in two. */
  lemma {:induction false} ReplaceAllSplit(a: string, c: char, b: string, pat: string, rep: string)
    requires |pat| > 0 && c !in pat
    ensures ReplaceAll(a + [c] + b, pat, rep) == ReplaceAll(a, pat, rep) + [c] + ReplaceAll(b, pat, rep)
    decreases |a|
  {
    var s := a + [c] + b;
    PrefixBefore(pat, a, c, b);
    if a == [] {
      assert s == [c] + b;
      assert s[1..] == b;
    } else if pat <= a {
      assert s[|pat|..] == a[|pat|..] + [c] + b;
      ReplaceAllSplit(a[|pat|..], c, b, pat, rep);
    } else {
      assert s[0] == a[0];
      assert s[1..] == a[1..] + [c] + b;
      ReplaceAllSplit(a[1..], c, b, pat, rep);
    }
  }

  /** `s.replace(re, "")` for a regular expression that is one character class. */
  function RemoveChars(s: string, cs: set<char>): (r: string)
    ensures |r| <= |s|
  {
    if s == [] then [] else (if s[0] in cs then [] else [s[0]]) + RemoveChars(s[1..], cs)
  }

  /** What is left is characters of the text outside the class. */
  lemma {:induction false} RemoveCharsMembers(s: string, cs: set<char>)
    ensures forall c :: c in RemoveChars(s, cs) ==> c in s && c !in cs
  {
    if s != [] {
      RemoveCharsMembers(s[1..], cs);
      assert forall c :: c in s[1..] ==> c in s;
    }
  }

  lemma {:induction false} RemoveCharsAppend(a: string, b: string, cs: set<char>)
    ensures RemoveChars(a + b, cs) == RemoveChars(a, cs) + RemoveChars(b, cs)
  {
    if a == [] {
      assert a + b == b;
    } else {
      var h := if a[0] in cs then [] else [a[0]];
      assert (a + b)[0] == a[0];
      assert (a + b)[1..] == a[1..] + b;
      RemoveCharsAppend(a[1..], b, cs);
      var x, y := RemoveChars(a[1..], cs), RemoveChars(b, cs);
      assert RemoveChars(a + b, cs) == h + (x + y);
      assert h + (x + y) == (h + x) + y;
    }
  }

  lemma {:induction false} RemoveCharsNone(s: string, cs: set<char>)
    requires forall c :: c in cs ==> c !in s
    ensures RemoveChars(s, cs) == s
  {
    if s != [] {
      assert s[0] in s;
      RemoveCharsNone(s[1..], cs);
    }
  }

  /** `trimStart()`: the longest suffix that does not start with white space. */
  function TrimStart(s: string): (r: string)
    ensures |r| <= |s| && r == s[|s| - |r|..]
    ensures forall i :: 0 <= i < |s| - |r| ==> IsSpace(s[i])
    ensures r == [] || !IsSpace(r[0])
  {
    if s != [] && IsSpace(s[0]) then TrimStart(s[1..]) else s
  }

  /** `trimEnd()`: the longest prefix that does not end with white space. */
  function TrimEnd(s: string): (r: string)
    ensures |r| <= |s| && r == s[..|r|]
    ensures forall i :: |r| <= i < |s| ==> IsSpace(s[i])
    ensures r == [] || !IsSpace(r[|r| - 1])
  {
    if s != [] && IsSpace(s[|s| - 1]) then TrimEnd(s[..|s| - 1]) else s
  }

  /** `trim()`: white space removed at both ends, nothing else. */
  function Trim(s: string): (r: string)
    ensures |r| <= |s|
    ensures r == [] || (!IsSpace(r[0]) && !IsSpace(r[|r| - 1]))
  {
    TrimEnd(TrimStart(s))
  }

  /** The trim is the text with white space cut at its start and its end, and nothing else. */
  lemma TrimSlice(s: string)
    ensures exists i, j :: 0 <= i <= j <= |s| && Trim(s) == s[i..j] &&
                           (forall k :: 0 <= k < i ==> IsSpace(s[k])) && (forall k :: j <= k < |s| ==> IsSpace(s[k]))
  {
    var t := TrimStart(s);
    var i := |s| - |t|;
    var r := TrimEnd(t);
    var j := i + |r|;
    assert r == s[i..j];
    forall k | j <= k < |s|
      ensures IsSpace(s[k])
    {
      assert s[k] == t[k - i];
    }
  }

  /** A text with no white space at either end is its own trim. */
  lemma TrimTrimmed(s: string)
    requires s == [] || (!IsSpace(s[0]) && !IsSpace(s[|s| - 1]))
    ensures Trim(s) == s
  {
    var r := Trim(s);
    TrimSlice(s);
    var i, j :| 0 <= i <= j <= |s| && r == s[i..j] &&
      (forall k :: 0 <= k < i ==> IsSpace(s[k])) && (forall k :: j <= k < |s| ==> IsSpace(s[k]));
    if s != [] {
      assert !IsSpace(s[0]) && !IsSpace(s[|s| - 1]);
      assert i == 0 && j == |s|;
    }
  }

  /** A text trims to nothing exactly when it is all white space. */
  lemma TrimEmpty(s: string)
    ensures Trim(s) == [] <==> forall i :: 0 <= i < |s| ==> IsSpace(s[i])
  {
    var t := TrimStart(s);
    if Trim(s) == [] {
      assert t == [];
    }
  }

  /** Trimming only removes characters. */
  lemma TrimChars(s: string)
    ensures forall c :: c in Trim(s) ==> c in s
  {
    var t := TrimStart(s);
    assert forall c :: c in Trim(s) ==> c in t;
  }

  /** A text without white space is its own trim. */
  lemma TrimNoSpace(s: string)
    requires NoSpace(s)
    ensures Trim(s) == s
  {
  }

  /** `s.indexOf(c)`: the first position of `c`, or -1. */
  function IndexOf(s: string, c: char): (k: int)
    ensures -1 <= k < |s|
    ensures k >= 0 ==> s[k] == c && c !in s[..k]
    ensures k < 0 ==> c !in s
  {
    if s == [] then -1
    else if s[0] == c then 0
    else var k := IndexOf(s[1..], c); if k < 0 then -1 else k + 1
  }

  /** The first `c` of a text is where the first part without `c` ends and a part starting with `c` begins. */
  lemma IndexOfAfter(x: string, t: string, c: char)
    requires c !in x && t != [] && t[0] == c
    ensures IndexOf(x + t, c) == |x|
  {
    var s := x + t;
    assert s[|x|] == c;
    assert s[..|x|] == x;
  }

  /** `s.lastIndexOf(c)`: the last position of `c`, or -1. */
  function LastIndexOf(s: string, c: char): (k: int)
    ensures -1 <= k < |s|
    ensures k >= 0 ==> s[k] == c && c !in s[k + 1..]
    ensures k < 0 ==> c !in s
  {
    if s == [] then -1
    else if s[|s| - 1] == c then |s| - 1
    else LastIndexOf(s[..|s| - 1], c)
  }

  /** `parts.join(sep)`. */
  function Join(parts: seq<string>, sep: string): string {
    if |parts| == 0 then []
    else if |parts| == 1 then parts[0]
    else parts[0] + sep + Join(parts[1..], sep)
  }

  /** `s.split(sep)` for a one-character separator: the pieces between separators, at least one. */
  function Split(s: string, sep: char): (r: seq<string>)
    ensures |r| >= 1
    decreases |s|
  {
    var k := IndexOf(s, sep);
    if k < 0 then [s] else [s[..k]] + Split(s[k + 1..], sep)
  }

  /** The first piece ends at the first separator and the rest is the split of what follows it. */
  lemma SplitFirst(s: string, sep: char, k: int)
    requires k == IndexOf(s, sep) && k >= 0
    ensures Split(s, sep) == [s[..k]] + Split(s[k + 1..], sep)
    ensures s == s[..k] + [sep] + s[k + 1..]
    ensures sep !in s[..k]
  {
  }

  /** No piece contains the separator. */
  lemma {:induction false} SplitPieces(s: string, sep: char)
    ensures forall i :: 0 <= i < |Split(s, sep)| ==> sep !in Split(s, sep)[i]
    decreases |s|
  {
    var k := IndexOf(s, sep);
    if k >= 0 {
      var rest := Split(s[k + 1..], sep);
      SplitPieces(s[k + 1..], sep);
      SplitFirst(s, sep, k);
      PiecesCons(s[..k], rest, sep);
    }
  }

  lemma PiecesCons(first: string, rest: seq<string>, sep: char)
    requires sep !in first
    requires forall i :: 0 <= i < |rest| ==> sep !in rest[i]
    ensures forall i :: 0 <= i < |[first] + rest| ==> sep !in ([first] + rest)[i]
  {
    var r := [first] + rest;
    assert forall i :: 1 <= i < |r| ==> r[i] == rest[i - 1];
  }

  /** Joining the pieces with the separator gives the text back. */
  lemma {:induction false} SplitJoin(s: string, sep: char)
    ensures Join(Split(s, sep), [sep]) == s
    decreases |s|
  {
    var k := IndexOf(s, sep);
    if k >= 0 {
      var rest := Split(s[k + 1..], sep);
      SplitJoin(s[k + 1..], sep);
      SplitFirst(s, sep, k);
      JoinCons(s[..k], rest, [sep]);
    }
  }

  lemma JoinCons(first: string, rest: seq<string>, sep: string)
    requires rest != []
    ensures Join([first] + rest, sep) == first + sep + Join(rest, sep)
  {
    assert ([first] + rest)[1..] == rest;
  }

  /** Splitting pieces joined with a separator they do not contain gives the pieces back. */
  lemma {:induction false} JoinSplit(parts: seq<string>, sep: char)
    requires |parts| >= 1
    requires forall i :: 0 <= i < |parts| ==> sep !in parts[i]
    ensures Split(Join(parts, [sep]), sep) == parts
    decreases |parts|
  {
    if |parts| > 1 {
      var rest := parts[1..];
      var tail := Join(rest, [sep]);
      var s := parts[0] + [sep] + tail;
      assert Join(parts, [sep]) == s;
      IndexOfAfter(parts[0], [sep] + tail, sep);
      assert s == parts[0] + ([sep] + tail);
      var k := |parts[0]|;
      assert s[..k] == parts[0] && s[k + 1..] == tail;
      JoinSplit(rest, sep);
      assert parts == [parts[0]] + rest;
    } else {
      assert IndexOf(parts[0], sep) < 0;
    }
  }

  /** The number of occurrences of `c` in `s` (`(s.match(/c/g) || []).length`). */
  function CountChar(s: string, c: char): nat {
    if s == [] then 0 else (if s[0] == c then 1 else 0) + CountChar(s[1..], c)
  }

  /** JavaScript's `a < b` on strings: lexicographic order on code points, a proper prefix first. */
  predicate LexLess(a: string, b: string) {
    if a == [] then b != []
    else if b == [] then false
    else if a[0] != b[0] then a[0] < b[0]
    else LexLess(a[1..], b[1..])
  }

  lemma {:induction false} LexLessIrreflexive(a: string)
    ensures !LexLess(a, a)
  {
    if a != [] {
      LexLessIrreflexive(a[1..]);
    }
  }

  lemma {:induction false} LexLessAsymmetric(a: string, b: string)
    ensures LexLess(a, b) ==> !LexLess(b, a)
  {
    if a != [] && b != [] && a[0] == b[0] {
      LexLessAsymmetric(a[1..], b[1..]);
    }
  }

  lemma {:induction false} LexLessTransitive(a: string, b: string, c: string)
    ensures LexLess(a, b) && LexLess(b, c) ==> LexLess(a, c)
  {
    if a != [] && b != [] && c != [] && a[0] == b[0] && b[0] == c[0] {
      LexLessTransitive(a[1..], b[1..], c[1..]);
    }
  }

  lemma {:induction false} LexLessTotal(a: string, b: string)
    ensures a == b || LexLess(a, b) || LexLess(b, a)
  {
    if a != [] && b != [] && a[0] == b[0] {
      LexLessTotal(a[1..], b[1..]);
      if a[1..] == b[1..] {
        assert a == [a[0]] + a[1..] && b == [b[0]] + b[1..];
      }
    }
  }

  /** The value of `c` as a digit in base `radix` (at most 36), or -1 when it is not one. */
  function DigitValue(c: char, radix: int): (d: int)
    ensures -1 <= d < radix || d == -1
  {
    var v :=
      if '0' <= c <= '9' then c as int - '0' as int
      else if 'a' <= c <= 'z' then c as int - 'a' as int + 10
      else if 'A' <= c <= 'Z' then c as int - 'A' as int + 10
      else -1;
    if 0 <= v < radix then v else -1
  }

  /** The length of the longest prefix of `s` made of base-`radix` digits. */
  function DigitRun(s: string, radix: int): (k: nat)
    ensures k <= |s|
    ensures forall i :: 0 <= i < k ==> DigitValue(s[i], radix) >= 0
    ensures k < |s| ==> DigitValue(s[k], radix) < 0
  {
    if s == [] || DigitValue(s[0], radix) < 0 then 0 else 1 + DigitRun(s[1..], radix)
  }

  /** The number a string of base-`radix` digits denotes, most significant digit first. */
  function DigitsValue(s: string, radix: int): (n: int)
    requires radix >= 2 && forall i :: 0 <= i < |s| ==> DigitValue(s[i], radix) >= 0
    ensures n >= 0
    decreases |s|
  {
    if s == [] then 0 else DigitsValue(s[..|s| - 1], radix) * radix + DigitValue(s[|s| - 1], radix)
  }

  /** The digits after the sign: a `0x` or `0X` prefix selects base 16; `None` when no digit follows. */
  function ParseUnsigned(u: string): (r: Option<int>)
    ensures r.Some? ==> r.value >= 0
  {
    var hex := |u| >= 2 && u[0] == '0' && (u[1] == 'x' || u[1] == 'X');
    var radix := if hex then 16 else 10;
    var w := if hex then u[2..] else u;
    var k := DigitRun(w, radix);
    if k == 0 then None else Some(DigitsValue(w[..k], radix))
  }

  /**
    `parseInt(s)` with no radix: leading white space and one sign are skipped and the longest
    run of digits that follows is read. `None` is NaN, the result when no digit follows.
  */
  function ParseInt(s: string): (r: Option<int>)
  {
    var t := TrimStart(s);
    if t != [] && t[0] == '-' then
      match ParseUnsigned(t[1..])
      case Some(m) => Some(-m)
      case None => None
    else if t != [] && t[0] == '+' then ParseUnsigned(t[1..])
    else ParseUnsigned(t)
  }

  /** JavaScript's `n || fallback` on the result of a parse: NaN and zero give the fallback. */
  function NumberOr(n: Option<int>, fallback: int): (r: int)
    ensures n.Some? && n.value != 0 ==> r == n.value
    ensures n.None? || n.value == 0 ==> r == fallback
  {
    if n.Some? && n.value != 0 then n.value else fallback
  }

  function DigitChar(d: int): (c: char)
    requires 0 <= d < 10
    ensures DigitValue(c, 10) == d
  {
    ('0' as int + d) as char
  }

  /** The decimal digits of a natural number, without leading zeros. */
  function Decimal(n: nat): (s: string)
    ensures |s| >= 1
    ensures forall i :: 0 <= i < |s| ==> '0' <= s[i] <= '9'
    ensures s[0] == '0' ==> n == 0 && s == "0"
  {
    if n < 10 then [DigitChar(n)] else Decimal(n / 10) + [DigitChar(n % 10)]
  }

  /** `String(n)` for an integer. */
  function IntToString(n: int): (s: string)
  {
    if n < 0 then "-" + Decimal(-n) else Decimal(n)
  }

  /** The digits of a number read back in base 10 give the number. */
  lemma {:induction false} DecimalValue(n: nat)
    ensures DigitRun(Decimal(n), 10) == |Decimal(n)|
    ensures DigitsValue(Decimal(n), 10) == n
    decreases n
  {
    var s := Decimal(n);
    assert forall i :: 0 <= i < |s| ==> DigitValue(s[i], 10) >= 0;
    DigitRunAll(s, 10);
    if n >= 10 {
      DecimalValue(n / 10);
      assert s[..|s| - 1] == Decimal(n / 10);
    }
  }

  /** A string made only of digits is one run. */
  lemma {:induction false} DigitRunAll(s: string, radix: int)
    requires forall i :: 0 <= i < |s| ==> DigitValue(s[i], radix) >= 0
    ensures DigitRun(s, radix) == |s|
    decreases |s|
  {
    if s != [] {
      DigitRunAll(s[1..], radix);
    }
  }

  /** The decimal digits of a natural number are read back as that number. */
  lemma ParseUnsignedDecimal(n: nat)
    ensures ParseUnsigned(Decimal(n)) == Some(n)
  {
    var d := Decimal(n);
    DecimalValue(n);
    assert d[..|d|] == d;
  }

  /** `parseInt(String(n))` is `n` for every integer: the two are a round trip. */
  lemma ParseIntToString(n: int)
    ensures ParseInt(IntToString(n)) == Some(n)
  {
    if n < 0 {
      ParseNegative(n);
    } else {
      ParseNatural(n);
    }
  }

  lemma ParseNatural(n: int)
    requires n >= 0
    ensures ParseInt(IntToString(n)) == Some(n)
  {
    var s := Decimal(n);
    assert IntToString(n) == s;
    ParseUnsignedDecimal(n);
    assert s[0] != '-' && s[0] != '+';
    TrimStartKeeps(s);
  }

  lemma ParseNegative(n: int)
    requires n < 0
    ensures ParseInt(IntToString(n)) == Some(n)
  {
    var m := -n;
    assert IntToString(n) == "-" + Decimal(m);
    ParseMinusDecimal(m);
  }

  lemma ParseMinusDecimal(m: int)
    requires m > 0
    ensures ParseInt("-" + Decimal(m)) == Some(-m)
  {
    var s := "-" + Decimal(m);
    ParseUnsignedDecimal(m);
    TrimStartKeeps(s);
    assert s[1..] == Decimal(m);
  }

  lemma TrimStartKeeps(s: string)
    requires s != [] && !IsSpace(s[0])
    ensures TrimStart(s) == s
  {
  }

  /** parseInt reads digits after white space; nothing else in front is skipped. */
  lemma ParseIntNoDigits(s: string)
    requires s != [] && !IsSpace(s[0]) && s[0] != '-' && s[0] != '+' && DigitValue(s[0], 10) < 0
    ensures ParseInt(s) == None
  {
    assert TrimStart(s) == s;
  }

  function Min(a: int, b: int): int { if a <= b then a else b }
  function Max(a: int, b: int): int { if a >= b then a else b }

  /**
    The number of elements `xs.slice(0, end)` keeps of a list of length `n`: an end past the
    list keeps everything, a negative end counts back from the end of the list.
  */
  function SliceLength(n: nat, end: int): (m: nat)
    ensures m <= n
    ensures 0 <= end ==> m == Min(end, n)
    ensures end < 0 ==> m == Max(0, n + end)
  {
    if end >= n then n
    else if end >= 0 then end
    else if n + end >= 0 then n + end
    else 0
  }
}
