/** The .NET string and path operations the part database relies on: Trim, Split on one
    character, PadLeft, the "D3" number format, and Path.Combine / GetFileName /
    GetDirectoryName with '/' as the directory separator. Comparisons are ordinal. */
module TextUtil {

  // ---------------------------------------------------------------------------------------
  // Prefixes and suffixes

  /** String.StartsWith, compared ordinally. */
  predicate StartsWith(s: string, prefix: string) { prefix <= s }

  /** String.EndsWith, compared ordinally. */
  predicate EndsWith(s: string, suffix: string) {
    |suffix| <= |s| && s[|s| - |suffix|..] == suffix
  }

  /** `n` copies of `c`. */
  function Repeat(c: char, n: nat): (r: string)
    ensures |r| == n && forall k :: 0 <= k < n ==> r[k] == c
  {
    if n == 0 then [] else Repeat(c, n - 1) + [c]
  }

  // ---------------------------------------------------------------------------------------
  // Trim

  /** Char.IsWhiteSpace: the Unicode space, line and paragraph separators, the controls
      U+0009 to U+000D, U+0085 and the no-break spaces. */
  predicate IsWhiteSpace(c: char) {
    var n := c as int;
    || (9 <= n <= 13) || n == 0x20 || n == 0x85 || n == 0xA0 || n == 0x1680
    || (0x2000 <= n <= 0x200A) || n == 0x2028 || n == 0x2029 || n == 0x202F
    || n == 0x205F || n == 0x3000
  }

  /** Neither end of `s` is white space. */
  predicate IsTrimmed(s: string) {
    s == [] || (!IsWhiteSpace(s[0]) && !IsWhiteSpace(s[|s| - 1]))
  }

  /** String.TrimStart(): the longest suffix of `s` that does not start with white space. */
  function TrimStart(s: string): (r: string)
    ensures |r| <= |s| && r == s[|s| - |r|..]
    ensures forall k :: 0 <= k < |s| - |r| ==> IsWhiteSpace(s[k])
    ensures r == [] || !IsWhiteSpace(r[0])
  {
    if s != [] && IsWhiteSpace(s[0]) then TrimStart(s[1..]) else s
  }

  /** String.TrimEnd(): the longest prefix of `s` that does not end with white space. */
  function TrimEnd(s: string): (r: string)
    ensures |r| <= |s| && r == s[..|r|]
    ensures forall k :: |r| <= k < |s| ==> IsWhiteSpace(s[k])
    ensures r == [] || !IsWhiteSpace(r[|r| - 1])
  {
    if s != [] && IsWhiteSpace(s[|s| - 1]) then TrimEnd(s[..|s| - 1]) else s
  }

  /** `r` is the slice of `s` starting at `i`, and everything around it is white space. */
  predicate IsCoreOf(s: string, r: string, i: int) {
    && 0 <= i <= |s| - |r| && r == s[i..i + |r|]
    && (forall k :: 0 <= k < i ==> IsWhiteSpace(s[k]))
    && (forall k :: i + |r| <= k < |s| ==> IsWhiteSpace(s[k]))
  }

  /** String.Trim(): `s` without its leading and trailing white space. */
  function Trim(s: string): (r: string)
    ensures IsTrimmed(r)
    ensures exists i :: IsCoreOf(s, r, i)
  {
    TrimCore(s);
    TrimEnd(TrimStart(s))
  }

  /** Trimming the start and then the end leaves a slice with white space all around it. */
  lemma TrimCore(s: string)
    ensures IsCoreOf(s, TrimEnd(TrimStart(s)), |s| - |TrimStart(s)|)
  {
    var t := TrimStart(s);
    CoreOfSuffixPrefix(s, t, TrimEnd(t));
  }

  /** A prefix `r` of a suffix `t` of `s`, where `s` has only white space before `t` and `t`
      only white space after `r`, is a core of `s`. */
  lemma CoreOfSuffixPrefix(s: string, t: string, r: string)
    requires |t| <= |s| && t == s[|s| - |t|..]
    requires forall k :: 0 <= k < |s| - |t| ==> IsWhiteSpace(s[k])
    requires |r| <= |t| && r == t[..|r|]
    requires forall k :: |r| <= k < |t| ==> IsWhiteSpace(t[k])
    ensures IsCoreOf(s, r, |s| - |t|)
  {
    var i := |s| - |t|;
    forall k | i + |r| <= k < |s| ensures IsWhiteSpace(s[k]) {
      assert s[k] == t[k - i];
    }
  }

  /** Trim changes a string exactly when one of its ends is white space. */
  lemma TrimIdentity(s: string)
    ensures Trim(s) == s <==> IsTrimmed(s)
  {
    if IsTrimmed(s) && s != [] {
      assert TrimStart(s) == s;
      assert TrimEnd(s) == s;
    }
  }

  /** Trim takes nothing but white space away, so a character `s` does not contain is not
      in the result either. */
  lemma TrimKeepsOut(s: string, c: char)
    requires c !in s
    ensures c !in Trim(s)
  {
    var r := Trim(s);
    var i :| IsCoreOf(s, r, i);
    forall k | 0 <= k < |r| ensures r[k] != c {
      assert r[k] == s[i + k];
    }
  }

  // ---------------------------------------------------------------------------------------
  // Split on one character

  /** The number of occurrences of `c` in `s`. */
  function Occurrences(s: string, c: char): nat {
    if s == [] then 0 else (if s[0] == c then 1 else 0) + Occurrences(s[1..], c)
  }

  /** The pieces joined back with `sep` between them (String.Join). */
  function Join(parts: seq<string>, sep: char): string {
    if parts == [] then []
    else if |parts| == 1 then parts[0]
    else parts[0] + [sep] + Join(parts[1..], sep)
  }

  /** String.Split(sep): the pieces of `s` between the occurrences of `sep`, empty pieces
      included. */
  function Split(s: string, sep: char): (parts: seq<string>)
    ensures |parts| >= 1
    ensures forall i :: 0 <= i < |parts| ==> sep !in parts[i]
  {
    if s == [] then [[]]
    else
      var rest := Split(s[1..], sep);
      if s[0] == sep then [[]] + rest
      else [[s[0]] + rest[0]] + rest[1..]
  }

  /** There is one more piece than there are separators. */
  lemma {:induction false} SplitCount(s: string, sep: char)
    ensures |Split(s, sep)| == Occurrences(s, sep) + 1
  {
    if s != [] {
      SplitCount(s[1..], sep);
    }
  }

  /** Joining the pieces with the separator gives the string back. */
  lemma {:induction false} JoinSplit(s: string, sep: char)
    ensures Join(Split(s, sep), sep) == s
  {
    if s != [] {
      var rest := Split(s[1..], sep);
      JoinSplit(s[1..], sep);
      if s[0] == sep {
        assert Join([[]] + rest, sep) == [sep] + Join(rest, sep);
      } else {
        var parts := [[s[0]] + rest[0]] + rest[1..];
        assert parts[1..] == rest[1..];
        assert Join(parts, sep) == [s[0]] + Join(rest, sep);
      }
      assert s == [s[0]] + s[1..];
    }
  }

  /** Splitting a join of pieces that do not contain the separator gives the pieces back. */
  lemma {:induction false} SplitJoin(parts: seq<string>, sep: char)
    requires |parts| >= 1
    requires forall i :: 0 <= i < |parts| ==> sep !in parts[i]
    ensures Split(Join(parts, sep), sep) == parts
  {
    var first := parts[0];
    if |parts| == 1 {
      SplitPiece(first, [], sep);
      assert first + [] == first;
    } else {
      var tail := parts[1..];
      SplitJoin(tail, sep);
      var after := [sep] + Join(tail, sep);
      assert after[0] == sep && after[1..] == Join(tail, sep);
      assert Split(after, sep) == [[]] + tail;
      assert Join(parts, sep) == first + after;
      SplitPiece(first, after, sep);
      assert first + [] == first;
      assert parts == [first] + tail;
    }
  }

  /** A piece without separators in front of a string extends the first piece of its split. */
  lemma {:induction false} SplitPiece(piece: string, s: string, sep: char)
    requires sep !in piece
    ensures Split(piece + s, sep) == [piece + Split(s, sep)[0]] + Split(s, sep)[1..]
  {
    var rest := Split(s, sep);
    if piece == [] {
      assert piece + s == s;
      assert [] + rest[0] == rest[0];
      assert rest == [rest[0]] + rest[1..];
    } else {
      var whole := piece + s;
      var shorter := piece[1..];
      SplitPiece(shorter, s, sep);
      assert whole[0] == piece[0] && whole[0] != sep;
      assert whole[1..] == shorter + s;
      assert [piece[0]] + (shorter + rest[0]) == piece + rest[0];
    }
  }

  // ---------------------------------------------------------------------------------------
  // Padding and decimal numbers

  /** String.PadLeft(width, c): `s` preceded by as many copies of `c` as bring it to
      `width` characters; a string already that long is returned as it is. */
  function PadLeft(s: string, width: nat, c: char): (r: string)
    ensures |r| == if |s| >= width then |s| else width
    ensures EndsWith(r, s)
    ensures forall k :: 0 <= k < |r| - |s| ==> r[k] == c
  {
    if |s| >= width then s else Repeat(c, width - |s|) + s
  }

  predicate IsDigit(c: char) { '0' <= c <= '9' }

  predicate AllDigits(s: string) { forall k :: 0 <= k < |s| ==> IsDigit(s[k]) }

  function DigitChar(d: nat): (c: char)
    requires d < 10
    ensures IsDigit(c) && (c as int) - ('0' as int) == d
  {
    (('0' as int) + d) as char
  }

  /** The shortest decimal form of n, as Int32.ToString() writes it. */
  function Decimal(n: nat): (s: string)
    ensures |s| >= 1 && AllDigits(s)
  {
    if n < 10 then [DigitChar(n)] else Decimal(n / 10) + [DigitChar(n % 10)]
  }

  /** The number a string of decimal digits denotes; leading zeros are allowed. */
  function DigitsValue(s: string): nat
    requires AllDigits(s)
  {
    if s == [] then 0 else DigitsValue(s[..|s| - 1]) * 10 + ((s[|s| - 1] as int) - ('0' as int))
  }

  /** Reading back the decimal form gives the number. */
  lemma {:induction false} DecimalValue(n: nat)
    ensures DigitsValue(Decimal(n)) == n
  {
    if n >= 10 {
      DecimalValue(n / 10);
      var s := Decimal(n);
      assert s[..|s| - 1] == Decimal(n / 10);
    }
  }

  /** The decimal form of a number below 10^k has at most k digits. */
  lemma {:induction false} DecimalLength(n: nat, k: nat)
    requires k >= 1 && n < Pow10(k)
    ensures |Decimal(n)| <= k
  {
    if n >= 10 {
      assert k >= 2;
      DecimalLength(n / 10, k - 1);
    }
  }

  function Pow10(k: nat): nat { if k == 0 then 1 else 10 * Pow10(k - 1) }

  /** Leading zeros do not change the value of a digit string. */
  lemma {:induction false} LeadingZeros(z: nat, s: string)
    requires AllDigits(s)
    ensures AllDigits(Repeat('0', z) + s)
    ensures DigitsValue(Repeat('0', z) + s) == DigitsValue(s)
  {
    var t := Repeat('0', z) + s;
    if s == [] {
      assert t == Repeat('0', z);
      if z > 0 {
        LeadingZeros(z - 1, []);
        assert t[..|t| - 1] == Repeat('0', z - 1) + [];
      }
    } else {
      LeadingZeros(z, s[..|s| - 1]);
      assert t[..|t| - 1] == Repeat('0', z) + s[..|s| - 1];
    }
  }

  /** The "D3" format: at least three decimal digits, padded with leading zeros. */
  function FormatD3(n: nat): string {
    PadLeft(Decimal(n), 3, '0')
  }

  /** For 0..999 the D3 form has exactly three digits and reads back as the number, so
      different numbers get different forms. */
  lemma FormatD3Value(n: nat)
    requires n <= 999
    ensures |FormatD3(n)| == 3 && AllDigits(FormatD3(n))
    ensures DigitsValue(FormatD3(n)) == n
  {
    var d := Decimal(n);
    DecimalLength(n, 3);
    DecimalValue(n);
    LeadingZeros(3 - |d|, d);
    assert FormatD3(n) == Repeat('0', 3 - |d|) + d;
  }

  lemma FormatD3Injective(i: nat, j: nat)
    requires i <= 999 && j <= 999 && FormatD3(i) == FormatD3(j)
    ensures i == j
  {
    FormatD3Value(i);
    FormatD3Value(j);
  }

  // ---------------------------------------------------------------------------------------
  // Paths, with '/' as the directory separator

  const Separator: char := '/'

  /** Path.IsPathRooted. */
  predicate IsRooted(p: string) { |p| > 0 && p[0] == Separator }

  /** Path.Combine(a, b): an empty part is skipped, a rooted `b` replaces `a`, and a
      separator is put between the two unless `a` already ends with one. */
  function Combine(a: string, b: string): string {
    if b == [] then a
    else if a == [] || IsRooted(b) then b
    else if a[|a| - 1] == Separator then a + b
    else a + [Separator] + b
  }

  /** Path.Combine over several parts: a left fold of the two-part form. */
  function CombineAll(parts: seq<string>): string {
    if parts == [] then [] else Combine(CombineAll(parts[..|parts| - 1]), parts[|parts| - 1])
  }

  /** The index of the last separator in `p`, or -1. */
  function LastSeparator(p: string): (k: int)
    ensures -1 <= k < |p|
    ensures k >= 0 ==> p[k] == Separator
    ensures forall j :: k < j < |p| ==> p[j] != Separator
  {
    if p == [] then -1
    else if p[|p| - 1] == Separator then |p| - 1
    else LastSeparator(p[..|p| - 1])
  }

  /** Path.GetFileName: what follows the last separator. */
  function GetFileName(p: string): (r: string)
    ensures Separator !in r
    ensures EndsWith(p, r)
    ensures r == p || p[|p| - |r| - 1] == Separator
  {
    p[LastSeparator(p) + 1..]
  }

  /** `p` without its trailing separators. */
  function TrimTrailingSeparators(p: string): (r: string)
    ensures r <= p
    ensures r == [] || r[|r| - 1] != Separator
    ensures forall k :: |r| <= k < |p| ==> p[k] == Separator
  {
    if p != [] && p[|p| - 1] == Separator then TrimTrailingSeparators(p[..|p| - 1]) else p
  }

  /** Path.GetDirectoryName for a relative path: what precedes the last separator, without
      trailing separators, or the empty string when there is no separator. */
  function GetDirectoryName(p: string): (r: string)
    ensures r <= p
    ensures r == [] || r[|r| - 1] != Separator
    ensures Separator !in p ==> r == []
    ensures LastSeparator(p) >= 0 ==>
      |r| <= LastSeparator(p) && forall j :: |r| <= j <= LastSeparator(p) ==> p[j] == Separator
  {
    var k := LastSeparator(p);
    if k < 0 then [] else TrimTrailingSeparators(p[..k])
  }

  /** The file name of `dir/name` is `name`, when `name` holds no separator. */
  lemma FileNameAfterSeparator(dir: string, name: string)
    requires Separator !in name
    ensures GetFileName(dir + [Separator] + name) == name
  {
    var p := dir + [Separator] + name;
    forall j | |dir| < j < |p| ensures p[j] != Separator {
      assert p[j] == name[j - |dir| - 1];
    }
    assert p[|dir|] == Separator;
    assert LastSeparator(p) == |dir|;
    assert p[|dir| + 1..] == name;
  }

  /** A name without separators is its own file name. */
  lemma FileNameOfName(name: string)
    requires Separator !in name
    ensures GetFileName(name) == name
  {
    assert LastSeparator(name) == -1;
  }

  /** The file name of a combined path is the last part, when that part is a plain name. */
  lemma FileNameOfCombine(a: string, b: string)
    requires b != [] && Separator !in b
    ensures GetFileName(Combine(a, b)) == b
  {
    if a == [] {
      FileNameOfName(b);
    } else if a[|a| - 1] == Separator {
      assert a + b == a[..|a| - 1] + [Separator] + b;
      FileNameAfterSeparator(a[..|a| - 1], b);
    } else {
      FileNameAfterSeparator(a, b);
    }
  }

  /** The directory of a combined path is the first part, when the first part is not empty
      and does not end with a separator and the last part is a plain name. */
  lemma DirectoryOfCombine(a: string, b: string)
    requires a != [] && a[|a| - 1] != Separator
    requires b != [] && Separator !in b
    ensures GetDirectoryName(Combine(a, b)) == a
  {
    var r := Combine(a, b);
    assert r == a + [Separator] + b;
    forall j | |a| < j < |r| ensures r[j] != Separator {
      assert r[j] == b[j - |a| - 1];
    }
    assert r[|a|] == Separator;
    assert LastSeparator(r) == |a|;
    assert r[..|a|] == a;
  }

  /** Putting a suffix on the file name of `dir/name` and combining it with the directory
      again is the same as putting the suffix on the whole path. */
  lemma CombineDirectoryAndName(dir: string, name: string, suffix: string)
    requires dir != [] && dir[|dir| - 1] != Separator
    requires name != [] && Separator !in name && Separator !in suffix
    ensures var p := Combine(dir, name);
      Combine(GetDirectoryName(p), GetFileName(p) + suffix) == p + suffix
  {
    var p := Combine(dir, name);
    FileNameOfCombine(dir, name);
    DirectoryOfCombine(dir, name);
    CombineSuffix(dir, name, suffix);
  }

  /** Combining with a longer plain name puts the suffix on the combined path. */
  lemma CombineSuffix(dir: string, name: string, suffix: string)
    requires dir != [] && dir[|dir| - 1] != Separator
    requires name != [] && Separator !in name
    ensures Combine(dir, name + suffix) == Combine(dir, name) + suffix
  {
    var longer := name + suffix;
    assert longer[0] == name[0];
    assert Combine(dir, longer) == dir + [Separator] + longer;
    assert Combine(dir, name) == dir + [Separator] + name;
  }
}
