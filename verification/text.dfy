/**
 The string primitives of the .NET runtime that the dialogue engine leans on:
 `Trim`, `string.IsNullOrWhiteSpace`, `ToLower`, ordinal case-insensitive
 comparison, `Split`, `Replace` and `int.TryParse` / `int.ToString`.
 Case mapping is ASCII only; every other character maps to itself.
 */
module Text {

  datatype Option<+T> = None | Some(value: T)

  // ---------------------------------------------------------------------------
  // Whitespace and trimming
  // ---------------------------------------------------------------------------

  /** `char.IsWhiteSpace`: the Unicode space separators plus the C0/C1 controls
      U+0009..U+000D and U+0085. */
  predicate IsWhiteSpace(c: char) {
    var n := c as int;
    n == 0x20 || 0x09 <= n <= 0x0D || n == 0x85 || n == 0xA0 || n == 0x1680
    || 0x2000 <= n <= 0x200A || n == 0x2028 || n == 0x2029 || n == 0x202F
    || n == 0x205F || n == 0x3000
  }

  /** The whitespace `int.TryParse` tolerates around a number (NumberStyles.Integer):
      U+0009..U+000D and the space. */
  predicate IsNumberWhite(c: char) {
    c == ' ' || '\t' <= c <= '\r'
  }

  /** `string.IsNullOrWhiteSpace` on a non-null string. */
  predicate IsBlank(s: string) {
    forall i :: 0 <= i < |s| ==> IsWhiteSpace(s[i])
  }

  /** The two whitespace classes the runtime trims by. */
  datatype Space = AnySpace | NumberSpace

  predicate IsSpace(kind: Space, c: char) {
    match kind
    case AnySpace => IsWhiteSpace(c)
    case NumberSpace => IsNumberWhite(c)
  }

  function TrimStartBy(s: string, kind: Space): (r: string)
    ensures |r| <= |s| && r == s[|s| - |r|..]
    ensures forall i :: 0 <= i < |s| - |r| ==> IsSpace(kind, s[i])
    ensures |r| > 0 ==> !IsSpace(kind, r[0])
  {
    if |s| > 0 && IsSpace(kind, s[0]) then TrimStartBy(s[1..], kind) else s
  }

  function TrimEndBy(s: string, kind: Space): (r: string)
    ensures |r| <= |s| && r == s[..|r|]
    ensures forall i :: |r| <= i < |s| ==> IsSpace(kind, s[i])
    ensures |r| > 0 ==> !IsSpace(kind, r[|r| - 1])
  {
    if |s| > 0 && IsSpace(kind, s[|s| - 1]) then TrimEndBy(s[..|s| - 1], kind) else s
  }

  /** Removes the leading and trailing characters of the class `kind`. */
  function TrimBy(s: string, kind: Space): (r: string)
    ensures |r| <= |s|
    ensures |r| > 0 ==> !IsSpace(kind, r[0]) && !IsSpace(kind, r[|r| - 1])
    ensures |r| == 0 <==> forall i :: 0 <= i < |s| ==> IsSpace(kind, s[i])
    ensures |s| == 0 || (!IsSpace(kind, s[0]) && !IsSpace(kind, s[|s| - 1])) ==> r == s
  {
    TrimEndBy(TrimStartBy(s, kind), kind)
  }

  /** `string.Trim()`. */
  function Trim(s: string): (r: string)
    ensures |r| <= |s|
    ensures |r| > 0 ==> !IsWhiteSpace(r[0]) && !IsWhiteSpace(r[|r| - 1])
    ensures |r| == 0 <==> IsBlank(s)
  {
    TrimBy(s, AnySpace)
  }

  /** Trimming keeps a stretch of the original. */
  lemma TrimWithin(s: string)
    ensures exists i, j :: 0 <= i <= j <= |s| && Trim(s) == s[i..j]
  {
    var a := TrimStartBy(s, AnySpace);
    var b := TrimEndBy(a, AnySpace);
    var i, j := |s| - |a|, |s| - |a| + |b|;
    assert Trim(s) == b == a[..|b|];
    assert a == s[i..];
    assert a[..|b|] == s[i..j];
  }

  /** Every character of the trimmed string is in the original. */
  lemma TrimChars(s: string)
    ensures forall c :: c in Trim(s) ==> c in s
  {
    var a := TrimStartBy(s, AnySpace);
    var b := TrimEndBy(a, AnySpace);
    assert Trim(s) == b;
    forall c | c in b ensures c in s {
      var k :| 0 <= k < |b| && b[k] == c;
      assert a[k] == c;
      assert s[|s| - |a| + k] == c;
    }
  }

  /** Trimming is idempotent. */
  lemma TrimIdempotent(s: string)
    ensures Trim(Trim(s)) == Trim(s)
  {
    var t := Trim(s);
    if |t| > 0 {
      assert !IsWhiteSpace(t[0]) && !IsWhiteSpace(t[|t| - 1]);
    }
  }

  // ---------------------------------------------------------------------------
  // ASCII case mapping and ordinal case-insensitive comparison
  // ---------------------------------------------------------------------------

  function Lower(c: char): char {
    if 'A' <= c <= 'Z' then (c as int + 32) as char else c
  }

  function Upper(c: char): char {
    if 'a' <= c <= 'z' then (c as int - 32) as char else c
  }

  /** `string.ToLower()`, restricted to the ASCII letters. */
  function ToLower(s: string): (r: string)
    ensures |r| == |s|
    ensures forall i :: 0 <= i < |s| ==> r[i] == Lower(s[i])
  {
    if |s| == 0 then [] else [Lower(s[0])] + ToLower(s[1..])
  }

  /** Character-wise upper-case fold: what `StringComparison.OrdinalIgnoreCase`
      compares. */
  function ToUpper(s: string): (r: string)
    ensures |r| == |s|
    ensures forall i :: 0 <= i < |s| ==> r[i] == Upper(s[i])
  {
    if |s| == 0 then [] else [Upper(s[0])] + ToUpper(s[1..])
  }

  /** `a.Equals(b, StringComparison.OrdinalIgnoreCase)`. */
  predicate EqualsIgnoreCase(a: string, b: string) {
    ToUpper(a) == ToUpper(b)
  }

  /** A string whose characters are the lower-case folds of `s`'s is `s`'s
      lower-cased form. */
  lemma ToLowerByChars(s: string, lower: string)
    requires |s| == |lower| && forall i :: 0 <= i < |s| ==> Lower(s[i]) == lower[i]
    ensures ToLower(s) == lower
  {
  }

  lemma ToLowerIdempotent(s: string)
    ensures ToLower(ToLower(s)) == ToLower(s)
  {
  }

  lemma CaseFoldsAgree(x: char, y: char)
    ensures Lower(x) == Lower(y) <==> Upper(x) == Upper(y)
  {
  }

  /** Comparing upper-case folds and comparing lower-case folds agree, so the
      lower-cased keys the engine stores and the ordinal case-insensitive
      comparison identify the same captions. */
  lemma EqualsIgnoreCaseIsLowerEquality(a: string, b: string)
    ensures EqualsIgnoreCase(a, b) <==> ToLower(a) == ToLower(b)
  {
    var la, lb, ua, ub := ToLower(a), ToLower(b), ToUpper(a), ToUpper(b);
    if |a| == |b| {
      forall i | 0 <= i < |a| ensures la[i] == lb[i] <==> ua[i] == ub[i] {
        CaseFoldsAgree(a[i], b[i]);
      }
      if la == lb {
        assert forall i :: 0 <= i < |a| ==> ua[i] == ub[i];
        assert ua == ub;
      }
      if ua == ub {
        assert forall i :: 0 <= i < |a| ==> la[i] == lb[i];
        assert la == lb;
      }
    } else {
      assert |la| != |lb| && |ua| != |ub|;
    }
  }

  /** Ordinal lexicographic order: a proper prefix sorts first. */
  predicate LexLe(a: string, b: string) {
    |a| == 0 || (|b| > 0 && (a[0] < b[0] || (a[0] == b[0] && LexLe(a[1..], b[1..]))))
  }

  lemma LexLeTotal(a: string, b: string)
    ensures LexLe(a, b) || LexLe(b, a)
  {
    if |a| > 0 && |b| > 0 && a[0] == b[0] {
      LexLeTotal(a[1..], b[1..]);
    }
  }

  lemma LexLeTransitive(a: string, b: string, c: string)
    requires LexLe(a, b) && LexLe(b, c)
    ensures LexLe(a, c)
  {
    if |a| > 0 && a[0] == b[0] && b[0] == c[0] {
      LexLeTransitive(a[1..], b[1..], c[1..]);
    }
  }

  lemma LexLeAntisymmetric(a: string, b: string)
    requires LexLe(a, b) && LexLe(b, a)
    ensures a == b
  {
    if |a| > 0 {
      LexLeAntisymmetric(a[1..], b[1..]);
      assert a == [a[0]] + a[1..];
      assert b == [b[0]] + b[1..];
    }
  }

  /** `string.Compare(a, b, StringComparison.OrdinalIgnoreCase)`, reduced to its sign. */
  function CompareIgnoreCase(a: string, b: string): (r: int)
    ensures r == 0 <==> EqualsIgnoreCase(a, b)
    ensures r <= 0 <==> LexLe(ToUpper(a), ToUpper(b))
    ensures r >= 0 <==> LexLe(ToUpper(b), ToUpper(a))
  {
    var x, y := ToUpper(a), ToUpper(b);
    LexLeTotal(x, y);
    if x == y then 0
    else if LexLe(x, y) then
      (if LexLe(y, x) then LexLeAntisymmetric(x, y); 0 else -1)
    else 1
  }

  // ---------------------------------------------------------------------------
  // Split and join
  // ---------------------------------------------------------------------------

  /** `s.Split(sep)`: the pieces between separators, empty pieces included. */
  function Split(s: string, sep: char): (parts: seq<string>)
    ensures |parts| >= 1
    ensures forall k :: 0 <= k < |parts| ==> sep !in parts[k]
  {
    if |s| == 0 then [""]
    else
      var rest := Split(s[1..], sep);
      if s[0] == sep then [""] + rest
      else [[s[0]] + rest[0]] + rest[1..]
  }

  /** `string.Join(sep, parts)`. */
  function Join(parts: seq<string>, sep: char): string
    requires |parts| >= 1
  {
    if |parts| == 1 then parts[0] else parts[0] + [sep] + Join(parts[1..], sep)
  }

  lemma {:induction false} JoinSplit(s: string, sep: char)
    ensures Join(Split(s, sep), sep) == s
  {
    if |s| > 0 {
      var rest := Split(s[1..], sep);
      JoinSplit(s[1..], sep);
      if s[0] == sep {
        assert s == [sep] + s[1..];
      } else {
        var parts := Split(s, sep);
        assert parts[1..] == rest[1..];
        if |rest| == 1 {
          assert s == [s[0]] + s[1..];
        } else {
          assert Join(rest, sep) == rest[0] + [sep] + Join(rest[1..], sep);
          assert s == [s[0]] + s[1..];
        }
      }
    }
  }

  lemma {:induction false} SplitJoin(parts: seq<string>, sep: char)
    requires |parts| >= 1
    requires forall k :: 0 <= k < |parts| ==> sep !in parts[k]
    ensures Split(Join(parts, sep), sep) == parts
    decreases |Join(parts, sep)|
  {
    var p := parts[0];
    if |p| == 0 {
      if |parts| > 1 {
        var j := Join(parts, sep);
        assert j == [sep] + Join(parts[1..], sep);
        assert j[1..] == Join(parts[1..], sep);
        SplitJoin(parts[1..], sep);
        assert parts == [""] + parts[1..];
      }
    } else {
      var j := Join(parts, sep);
      var tail := [p[1..]] + parts[1..];
      assert forall k :: 0 <= k < |tail| ==> sep !in tail[k] by {
        forall k | 0 <= k < |tail| ensures sep !in tail[k] {
          if k == 0 {
            assert forall c :: c in p[1..] ==> c in p;
          } else {
            assert tail[k] == parts[k];
          }
        }
      }
      JoinCons(p, parts, sep);
      assert j == [p[0]] + Join(tail, sep);
      assert j[1..] == Join(tail, sep);
      SplitJoin(tail, sep);
      assert p[0] != sep by { assert p[0] in p; }
      assert [p[0]] + p[1..] == p;
      assert parts == [p] + tail[1..];
    }
  }

  lemma JoinCons(p: string, parts: seq<string>, sep: char)
    requires |parts| >= 1 && p == parts[0] && |p| > 0
    ensures Join(parts, sep) == [p[0]] + Join([p[1..]] + parts[1..], sep)
  {
    var tail := [p[1..]] + parts[1..];
    assert tail[1..] == parts[1..];
    assert p == [p[0]] + p[1..];
  }

  /** A string without the separator splits into itself alone. */
  lemma {:induction false} SplitWithoutSeparator(s: string, sep: char)
    requires sep !in s
    ensures Split(s, sep) == [s]
  {
    if |s| > 0 {
      assert sep !in s[1..] by { assert forall c :: c in s[1..] ==> c in s; }
      SplitWithoutSeparator(s[1..], sep);
      assert s[0] in s;
      assert [s[0]] + s[1..] == s;
    }
  }

  /** The pieces `StringSplitOptions.RemoveEmptyEntries` keeps. */
  function NonEmpty(parts: seq<string>): (r: seq<string>)
    ensures forall k :: 0 <= k < |r| ==> |r[k]| > 0
    ensures |r| <= |parts|
  {
    if |parts| == 0 then []
    else if |parts[0]| == 0 then NonEmpty(parts[1..])
    else [parts[0]] + NonEmpty(parts[1..])
  }

  /** The kept pieces are exactly the non-empty ones. */
  lemma {:induction false} NonEmptyMembers(parts: seq<string>)
    ensures forall x :: x in NonEmpty(parts) <==> x in parts && |x| > 0
  {
    if |parts| > 0 {
      NonEmptyMembers(parts[1..]);
      assert forall x :: x in parts <==> x == parts[0] || x in parts[1..];
    }
  }

  lemma {:induction false} NonEmptyKeepsAll(parts: seq<string>)
    requires forall k :: 0 <= k < |parts| ==> |parts[k]| > 0
    ensures NonEmpty(parts) == parts
  {
    if |parts| > 0 {
      NonEmptyKeepsAll(parts[1..]);
      assert NonEmpty(parts) == [parts[0]] + NonEmpty(parts[1..]);
      assert parts == [parts[0]] + parts[1..];
    }
  }

  /** A character other than the separator that no part holds is not in the join. */
  lemma {:induction false} JoinAvoids(parts: seq<string>, sep: char, c: char)
    requires |parts| >= 1 && c != sep
    requires forall k :: 0 <= k < |parts| ==> c !in parts[k]
    ensures c !in Join(parts, sep)
  {
    if |parts| > 1 {
      JoinAvoids(parts[1..], sep, c);
    }
  }

  /** A join starts with its first part. */
  lemma JoinStarts(parts: seq<string>, sep: char)
    requires |parts| >= 1
    ensures Join(parts, sep)[..|parts[0]|] == parts[0]
  {
  }

  /** A join whose last part is non-empty ends with that part's last character. */
  lemma {:induction false} JoinFinishes(parts: seq<string>, sep: char)
    requires |parts| >= 1 && |parts[|parts| - 1]| > 0
    ensures |Join(parts, sep)| > 0
    ensures Join(parts, sep)[|Join(parts, sep)| - 1] == parts[|parts| - 1][|parts[|parts| - 1]| - 1]
  {
    if |parts| > 1 {
      var rest := parts[1..];
      assert rest[|rest| - 1] == parts[|parts| - 1];
      JoinFinishes(rest, sep);
    }
  }

  /** A non-empty string without surrounding whitespace trims to itself. */
  lemma TrimKeeps(s: string)
    requires |s| > 0 && !IsWhiteSpace(s[0]) && !IsWhiteSpace(s[|s| - 1])
    ensures Trim(s) == s
  {
    assert !IsSpace(AnySpace, s[0]) && !IsSpace(AnySpace, s[|s| - 1]);
  }

  /** `s.Split(sep, StringSplitOptions.RemoveEmptyEntries)`. */
  /** A string of separators only splits into empty pieces, so it has no
      non-empty piece. */
  lemma {:induction false} SplitSeparatorsOnly(s: string, sep: char)
    requires forall i :: 0 <= i < |s| ==> s[i] == sep
    ensures forall k :: 0 <= k < |Split(s, sep)| ==> Split(s, sep)[k] == ""
    ensures SplitNonEmpty(s, sep) == []
  {
    if |s| > 0 {
      SplitSeparatorsOnly(s[1..], sep);
    }
  }

  function SplitNonEmpty(s: string, sep: char): seq<string> {
    NonEmpty(Split(s, sep))
  }

  /** `Select(v => v.Trim())` over a sequence of pieces. */
  function TrimEach(parts: seq<string>): (r: seq<string>)
    ensures |r| == |parts|
    ensures forall k :: 0 <= k < |parts| ==> r[k] == Trim(parts[k])
  {
    if |parts| == 0 then [] else [Trim(parts[0])] + TrimEach(parts[1..])
  }

  // ---------------------------------------------------------------------------
  // Replace
  // ---------------------------------------------------------------------------

  /** `s.Replace(pat, rep)`: every non-overlapping occurrence, left to right. */
  function ReplaceAll(s: string, pat: string, rep: string): string
    requires |pat| > 0
  {
    if |s| < |pat| then s
    else if s[..|pat|] == pat then rep + ReplaceAll(s[|pat|..], pat, rep)
    else [s[0]] + ReplaceAll(s[1..], pat, rep)
  }

  /** A stretch that cannot start the pattern passes through unchanged. */
  lemma {:induction false} ReplaceSkips(a: string, b: string, pat: string, rep: string)
    requires |pat| > 0 && pat[0] !in a
    ensures ReplaceAll(a + b, pat, rep) == a + ReplaceAll(b, pat, rep)
  {
    if |a| > 0 {
      var s := a + b;
      assert s[0] == a[0] && a[0] in a;
      assert s[1..] == a[1..] + b;
      assert pat[0] !in a[1..] by { assert forall c :: c in a[1..] ==> c in a; }
      ReplaceSkips(a[1..], b, pat, rep);
      if |s| < |pat| {
        assert |b| < |pat|;
        assert ReplaceAll(b, pat, rep) == b;
      } else {
        assert s[..|pat|][0] == a[0] != pat[0];
        assert ReplaceAll(s, pat, rep) == [s[0]] + ReplaceAll(s[1..], pat, rep);
        assert a == [a[0]] + a[1..];
      }
    } else {
      assert a + b == b;
    }
  }

  /** A string with exactly one occurrence of the pattern, and no other
      character that could start it, has that occurrence replaced. */
  lemma ReplaceOnce(a: string, b: string, pat: string, rep: string)
    requires |pat| > 0 && pat[0] !in a && pat[0] !in b
    ensures ReplaceAll(a + pat + b, pat, rep) == a + rep + b
  {
    assert a + pat + b == a + (pat + b);
    ReplaceSkips(a, pat + b, pat, rep);
    var s := pat + b;
    assert s[..|pat|] == pat && s[|pat|..] == b;
    assert ReplaceAll(s, pat, rep) == rep + ReplaceAll(b, pat, rep);
    ReplaceSkips(b, [], pat, rep);
    assert b + [] == b;
  }

  /** A string in which the pattern's first character never occurs is unchanged. */
  lemma ReplaceAbsent(a: string, pat: string, rep: string)
    requires |pat| > 0 && pat[0] !in a
    ensures ReplaceAll(a, pat, rep) == a
  {
    ReplaceSkips(a, [], pat, rep);
    assert a + [] == a;
  }

  // ---------------------------------------------------------------------------
  // 32-bit integers: int.TryParse and int.ToString
  // ---------------------------------------------------------------------------

  const Int32Min: int := -0x8000_0000
  const Int32Max: int := 0x7FFF_FFFF

  predicate IsDigit(c: char) {
    '0' <= c <= '9'
  }

  predicate AllDigits(s: string) {
    forall i :: 0 <= i < |s| ==> IsDigit(s[i])
  }

  function DigitsValue(s: string): nat
    requires AllDigits(s)
  {
    if |s| == 0 then 0 else DigitsValue(s[..|s| - 1]) * 10 + (s[|s| - 1] as int - '0' as int)
  }

  /** `int.TryParse(s, out v)` with the invariant culture: optional surrounding
      number whitespace, an optional `+` or `-`, one or more ASCII digits, and
      a value that fits in 32 bits. */
  function ParseInt(s: string): (r: Option<int>)
    ensures r.Some? ==> Int32Min <= r.value <= Int32Max
  {
    var t := TrimBy(s, NumberSpace);
    if |t| > 0 && t[0] == '-' then ParseUnsigned(true, t[1..])
    else if |t| > 0 && t[0] == '+' then ParseUnsigned(false, t[1..])
    else ParseUnsigned(false, t)
  }

  /** The digits after the sign: at least one, all ASCII digits, in range. */
  function ParseUnsigned(negative: bool, digits: string): (r: Option<int>)
    ensures r.Some? ==> Int32Min <= r.value <= Int32Max
  {
    if |digits| == 0 || !AllDigits(digits) then None
    else
      var d: int := DigitsValue(digits);
      var v := if negative then -d else d;
      if Int32Min <= v <= Int32Max then Some(v) else None
  }

  function DigitChar(d: nat): (c: char)
    requires d < 10
    ensures IsDigit(c) && c as int - '0' as int == d
  {
    ('0' as int + d) as char
  }

  /** The decimal digits of a natural number, most significant first. */
  function NatToString(n: nat): (r: string)
    ensures |r| > 0 && AllDigits(r)
  {
    if n < 10 then [DigitChar(n)] else NatToString(n / 10) + [DigitChar(n % 10)]
  }

  /** `int.ToString()` in the invariant culture. */
  function IntToString(n: int): string {
    if n < 0 then "-" + NatToString(-n) else NatToString(n)
  }

  /** A printed integer is an optional minus sign and digits, ending in a digit. */
  lemma IntToStringChars(n: int)
    ensures |IntToString(n)| > 0
    ensures forall i :: 0 <= i < |IntToString(n)| ==> IsDigit(IntToString(n)[i]) || IntToString(n)[i] == '-'
    ensures IsDigit(IntToString(n)[|IntToString(n)| - 1])
  {
    var digits := NatToString(if n < 0 then -n else n);
    if n < 0 {
      assert IntToString(n) == "-" + digits;
      assert forall i :: 1 <= i < |IntToString(n)| ==> IntToString(n)[i] == digits[i - 1];
    }
  }

  lemma {:induction false} NatToStringValue(n: nat)
    ensures DigitsValue(NatToString(n)) == n
  {
    if n >= 10 {
      var s := NatToString(n);
      NatToStringValue(n / 10);
      assert s[..|s| - 1] == NatToString(n / 10);
    }
  }

  /** Printing a 32-bit integer and parsing it back gives the same integer. */
  lemma ParseIntToString(n: int)
    requires Int32Min <= n <= Int32Max
    ensures ParseInt(IntToString(n)) == Some(n)
  {
    var s := IntToString(n);
    var m: nat := if n < 0 then -n else n;
    var digits := NatToString(m);
    NatToStringValue(m);
    assert IsDigit(digits[|digits| - 1]);
    assert s[|s| - 1] == digits[|digits| - 1];
    assert !IsNumberWhite(s[0]) by {
      if n >= 0 { assert IsDigit(digits[0]); }
    }
    assert TrimBy(s, NumberSpace) == s;
    if n < 0 {
      assert s[1..] == digits;
    } else {
      assert s[0] == digits[0] && IsDigit(digits[0]);
    }
  }
}
