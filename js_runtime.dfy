/** The JavaScript built-ins that the request handlers of server.js rely on,
    modelled exactly enough for the decisions they take: parseInt, the
    conversion of an integer to its decimal string, String.prototype.split
    on one character, String.prototype.replace with a literal, non-global
    pattern, lower-casing, path.extname and property lookup on an object
    literal (which also finds the keys of Object.prototype). */
module JsRuntime {

  datatype Option<+T> = None | Some(value: T)

  /** A JavaScript number as the handlers produce it: an integer, or NaN
      (None). No operation modelled here yields a fraction. */
  type Number = Option<int>

  function Min(a: int, b: int): int { if a <= b then a else b }

  // ----- characters and digits -----

  predicate IsDecimalDigit(c: char) { '0' <= c <= '9' }

  /** The value of `c` read as a digit in base `radix` (at most 36), if it is one. */
  function DigitValue(c: char, radix: nat): (d: Option<nat>)
    ensures d.Some? ==> d.value < radix
    ensures radix == 10 ==> (d.Some? <==> IsDecimalDigit(c))
    ensures IsDecimalDigit(c) && radix >= 10 ==> d == Some(c as int - '0' as int)
  {
    if '0' <= c <= '9' && c as int - '0' as int < radix then Some(c as int - '0' as int)
    else if 'a' <= c <= 'z' && c as int - 'a' as int + 10 < radix then Some(c as int - 'a' as int + 10)
    else if 'A' <= c <= 'Z' && c as int - 'A' as int + 10 < radix then Some(c as int - 'A' as int + 10)
    else None
  }

  function DigitChar(d: nat): (c: char)
    requires d < 10
    ensures IsDecimalDigit(c) && DigitValue(c, 10) == Some(d)
  {
    ('0' as int + d) as char
  }

  /** StrWhiteSpaceChar of ECMAScript: white space and line terminators. */
  predicate IsJsWhiteSpace(c: char) {
    c == '\t' || c == '\n' || c == '\U{B}' || c == '\U{C}' || c == '\r' || c == ' '
    || c == '\U{A0}' || c == '\U{1680}' || ('\U{2000}' <= c <= '\U{200A}')
    || c == '\U{2028}' || c == '\U{2029}' || c == '\U{202F}' || c == '\U{205F}'
    || c == '\U{3000}' || c == '\U{FEFF}'
  }

  // ----- integers to strings -----

  /** The decimal numeral JavaScript prints for a non-negative integer. */
  function NatToString(n: nat): (s: string)
    ensures |s| >= 1
    ensures forall i :: 0 <= i < |s| ==> IsDecimalDigit(s[i])
    ensures s[0] == '0' ==> s == "0"
    decreases n
  {
    if n < 10 then [DigitChar(n)] else NatToString(n / 10) + [DigitChar(n % 10)]
  }

  /** `${i}` for an integer i. */
  function IntToString(i: int): (s: string)
    ensures |s| >= 1
  {
    if i < 0 then "-" + NatToString(-i) else NatToString(i)
  }

  /** `${n}` for a number: NaN prints as "NaN". */
  function NumberToString(n: Number): string
  {
    match n
    case None => "NaN"
    case Some(i) => IntToString(i)
  }

  /** The value of a run of digits in base `radix`, most significant first. */
  function DigitsValue(s: string, radix: nat): nat
    requires forall i :: 0 <= i < |s| ==> DigitValue(s[i], radix).Some?
  {
    if s == [] then 0
    else
      var prefix := s[..|s| - 1];
      assert forall i :: 0 <= i < |prefix| ==> prefix[i] == s[i];
      var high: nat := DigitsValue(prefix, radix);
      var low: nat := DigitValue(s[|s| - 1], radix).value;
      ProductIsNatural(high, radix);
      var shifted: nat := high * radix;
      shifted + low
  }

  lemma ProductIsNatural(a: nat, b: nat)
    ensures a * b >= 0
  {
  }

  lemma {:induction false} NatToStringValue(n: nat)
    ensures DigitsValue(NatToString(n), 10) == n
    decreases n
  {
    var s := NatToString(n);
    if n >= 10 {
      NatToStringValue(n / 10);
      assert s[..|s| - 1] == NatToString(n / 10);
    }
  }

  /** Distinct integers print as distinct strings. */
  lemma IntToStringInjective(a: int, b: int)
    requires IntToString(a) == IntToString(b)
    ensures a == b
  {
    ParseIntRoundTrip(a, Decimal);
    ParseIntRoundTrip(b, Decimal);
  }

  // ----- parseInt -----

  /** Whether parseInt was given the radix 10 or no radix at all (which
      also accepts a "0x" prefix for base 16). */
  datatype Radix = Decimal | Unspecified

  function TrimStart(s: string): (t: string)
    ensures |t| <= |s| && t == s[|s| - |t|..]
    ensures t == [] || !IsJsWhiteSpace(t[0])
  {
    if s != [] && IsJsWhiteSpace(s[0]) then TrimStart(s[1..]) else s
  }

  /** The length of the longest prefix of `s` made of digits in base `radix`. */
  function DigitRun(s: string, radix: nat): (n: nat)
    ensures n <= |s|
    ensures forall i :: 0 <= i < n ==> DigitValue(s[i], radix).Some?
    ensures n == |s| || DigitValue(s[n], radix).None?
  {
    if s != [] && DigitValue(s[0], radix).Some? then 1 + DigitRun(s[1..], radix) else 0
  }

  /** The digits after the sign: for an unspecified radix an optional
      "0x"/"0X" switches to base 16; then the longest run of digits, or
      nothing when that run is empty. */
  function ParseDigits(unsigned: string, radix: Radix): Option<nat>
  {
    var hex := radix == Unspecified && |unsigned| >= 2 && unsigned[0] == '0'
               && (unsigned[1] == 'x' || unsigned[1] == 'X');
    var base := if hex then 16 else 10;
    var digits := if hex then unsigned[2..] else unsigned;
    var k := DigitRun(digits, base);
    if k == 0 then None else Some(DigitsValue(digits[..k], base))
  }

  /** A run of digits followed by a non-digit (or nothing) is read whole. */
  lemma {:induction false} DigitRunOfPrefix(d: string, rest: string, radix: nat)
    requires forall i :: 0 <= i < |d| ==> DigitValue(d[i], radix).Some?
    requires rest == [] || DigitValue(rest[0], radix).None?
    ensures DigitRun(d + rest, radix) == |d|
  {
    if d != [] {
      assert (d + rest)[1..] == d[1..] + rest;
      DigitRunOfPrefix(d[1..], rest, radix);
    } else {
      assert d + rest == rest;
    }
  }

  /** A trimmed numeral without its leading '-' or '+'. */
  function WithoutSign(s: string): string
  {
    if s != [] && (s[0] == '-' || s[0] == '+') then s[1..] else s
  }

  /** parseInt(s, 10) and parseInt(s): leading white space, an optional
      sign, then the digits; NaN when there are none. */
  function ParseInt(input: string, radix: Radix): (n: Number)
    ensures n.Some? && '-' !in input ==> n.value >= 0
  {
    var s := TrimStart(input);
    var negative := s != [] && s[0] == '-';
    match ParseDigits(WithoutSign(s), radix)
    case None => None
    case Some(v) =>
      assert negative ==> '-' in input by {
        if negative { assert input[|input| - |s|] == '-'; }
      }
      Some(if negative then 0 - v else v as int)
  }

  lemma ParseDigitsOfNumeral(m: nat, radix: Radix)
    ensures ParseDigits(NatToString(m), radix) == Some(m)
  {
    var d := NatToString(m);
    assert !(|d| >= 2 && d[0] == '0');
    assert DigitRun(d, 10) == |d|;
    assert d[..|d|] == d;
    NatToStringValue(m);
  }

  /** parseInt reads back every integer JavaScript prints, in either radix mode. */
  lemma ParseIntRoundTrip(i: int, radix: Radix)
    ensures ParseInt(IntToString(i), radix) == Some(i)
  {
    if i < 0 {
      var m: nat := -i;
      assert IntToString(i) == "-" + NatToString(m);
      ParseNegativeNumeral(m, radix);
    } else {
      var m: nat := i;
      assert IntToString(i) == NatToString(m);
      ParseNonNegativeNumeral(m, radix);
    }
  }

  lemma ParseNonNegativeNumeral(m: nat, radix: Radix)
    ensures ParseInt(NatToString(m), radix) == Some(m)
  {
    ParseDigitsOfNumeral(m, radix);
    ParseUnsigned(NatToString(m), m, radix);
  }

  lemma ParseNegativeNumeral(m: nat, radix: Radix)
    ensures ParseInt("-" + NatToString(m), radix) == Some(-(m as int))
  {
    ParseDigitsOfNumeral(m, radix);
    ParseNegated(NatToString(m), m, radix);
  }

  /** A string that starts with a digit is read by its digits alone. */
  lemma ParseUnsigned(d: string, m: nat, radix: Radix)
    requires d != [] && IsDecimalDigit(d[0])
    requires ParseDigits(d, radix) == Some(m)
    ensures ParseInt(d, radix) == Some(m)
  {
    ParseTrimmed(d, radix);
    assert WithoutSign(d) == d;
  }

  /** A '-' followed by digits is read as their negated value. */
  lemma ParseNegated(d: string, m: nat, radix: Radix)
    requires ParseDigits(d, radix) == Some(m)
    ensures ParseInt("-" + d, radix) == Some(-(m as int))
  {
    var s := "-" + d;
    ParseTrimmed(s, radix);
    assert WithoutSign(s) == d;
  }

  /** A numeral that starts with no white space is read as it stands. */
  lemma ParseTrimmed(s: string, radix: Radix)
    requires s != [] && !IsJsWhiteSpace(s[0])
    ensures ParseInt(s, radix) ==
            match ParseDigits(WithoutSign(s), radix)
            case None => None
            case Some(v) => Some(if s[0] == '-' then 0 - v else v as int)
  {
    assert TrimStart(s) == s;
  }

  // ----- split, join, replace -----

  /** s.split(sep) for a one-character separator. */
  function Split(s: string, sep: char): (parts: seq<string>)
    ensures |parts| >= 1
    ensures forall k :: 0 <= k < |parts| ==> sep !in parts[k]
  {
    if s == [] then [[]]
    else
      var rest := Split(s[1..], sep);
      if s[0] == sep then [[]] + rest
      else [[s[0]] + rest[0]] + rest[1..]
  }

  /** parts.join(sep): the inverse of Split. */
  function Join(parts: seq<string>, sep: char): string
    requires |parts| >= 1
  {
    if |parts| == 1 then parts[0] else parts[0] + [sep] + Join(parts[1..], sep)
  }

  lemma {:induction false} JoinSplit(s: string, sep: char)
    ensures Join(Split(s, sep), sep) == s
  {
    if s != [] {
      JoinSplit(s[1..], sep);
      var rest := Split(s[1..], sep);
      if s[0] == sep {
        assert ([[]] + rest)[1..] == rest;
      } else {
        var parts := [[s[0]] + rest[0]] + rest[1..];
        if |rest| > 1 {
          assert parts[1..] == rest[1..];
          assert Join(rest, sep) == rest[0] + [sep] + Join(rest[1..], sep);
        }
      }
    }
  }

  /** Splitting at the first separator: the piece before it, then the rest split. */
  lemma {:induction false} SplitAtFirst(a: string, b: string, sep: char)
    requires sep !in a
    ensures Split(a + [sep] + b, sep) == [a] + Split(b, sep)
  {
    if a != [] {
      SplitAtFirst(a[1..], b, sep);
      assert (a + [sep] + b)[1..] == a[1..] + [sep] + b;
      var rest := Split(a[1..] + [sep] + b, sep);
      assert rest == [a[1..]] + Split(b, sep);
      assert [a[0]] + rest[0] == a;
      assert rest[1..] == Split(b, sep);
    } else {
      assert (a + [sep] + b)[1..] == b;
    }
  }

  lemma {:induction false} SplitWithoutSeparator(a: string, sep: char)
    requires sep !in a
    ensures Split(a, sep) == [a]
  {
    if a != [] {
      SplitWithoutSeparator(a[1..], sep);
      assert [a[0]] + a[1..] == a;
    }
  }

  predicate MatchesAt(s: string, pat: string, j: nat) {
    j + |pat| <= |s| && s[j..j + |pat|] == pat
  }

  /** The index of the first occurrence of `pat` in `s`. */
  function IndexOf(s: string, pat: string): (r: Option<nat>)
    ensures r.Some? ==> MatchesAt(s, pat, r.value)
    ensures r.Some? ==> forall j :: 0 <= j < r.value ==> !MatchesAt(s, pat, j)
    ensures r.None? ==> forall j :: 0 <= j ==> !MatchesAt(s, pat, j)
    decreases |s|
  {
    if |s| < |pat| then None
    else if s[..|pat|] == pat then Some(0)
    else
      var r := IndexOf(s[1..], pat);
      assert forall j :: 1 <= j ==> MatchesAt(s, pat, j) == MatchesAt(s[1..], pat, j - 1) by {
        forall j | 1 <= j ensures MatchesAt(s, pat, j) == MatchesAt(s[1..], pat, j - 1) {
          MatchesAtTail(s, pat, j);
        }
      }
      match r
      case None => None
      case Some(i) => Some(i + 1)
  }

  lemma MatchesAtTail(s: string, pat: string, j: nat)
    requires 1 <= j && s != []
    ensures MatchesAt(s, pat, j) == MatchesAt(s[1..], pat, j - 1)
  {
    if j + |pat| <= |s| {
      var a, b := s[j..j + |pat|], s[1..][j - 1..j - 1 + |pat|];
      assert forall k :: 0 <= k < |pat| ==> a[k] == b[k];
      assert a == b;
    }
  }

  /** s.replace(pat, rep) for a literal pattern without the global flag:
      only the first occurrence is replaced. */
  function ReplaceFirst(s: string, pat: string, rep: string): (r: string)
    // without a match the string is unchanged
    ensures IndexOf(s, pat).None? ==> r == s
    // otherwise the first match, and only it, gives way to `rep`
    ensures IndexOf(s, pat).Some? ==>
      var i := IndexOf(s, pat).value;
      |r| == |s| - |pat| + |rep| && r[..i] == s[..i] && r[i..i + |rep|] == rep &&
      r[i + |rep|..] == s[i + |pat|..]
  {
    match IndexOf(s, pat)
    case None => s
    case Some(i) => s[..i] + rep + s[i + |pat|..]
  }

  // ----- case and paths -----

  function LowerChar(c: char): char {
    if 'A' <= c <= 'Z' then (c as int + 32) as char else c
  }

  /** s.toLowerCase(), restricted to ASCII letters. */
  function ToLowerAscii(s: string): (t: string)
    ensures |t| == |s|
    ensures forall i :: 0 <= i < |s| ==> t[i] == LowerChar(s[i])
  {
    seq(|s|, i requires 0 <= i < |s| => LowerChar(s[i]))
  }

  predicate EndsWith(s: string, suffix: string) {
    |suffix| <= |s| && s[|s| - |suffix|..] == suffix
  }

  function LastIndexOf(s: string, c: char): (r: Option<nat>)
    ensures r.Some? ==> r.value < |s| && s[r.value] == c
    ensures r.Some? ==> forall j :: r.value < j < |s| ==> s[j] != c
    ensures r.None? ==> c !in s
  {
    if s == [] then None
    else if s[|s| - 1] == c then Some(|s| - 1)
    else LastIndexOf(s[..|s| - 1], c)
  }

  function StripTrailingSlashes(s: string): (t: string)
    ensures |t| <= |s| && t == s[..|t|]
    ensures t == [] || t[|t| - 1] != '/'
    ensures forall j :: |t| <= j < |s| ==> s[j] == '/'
  {
    if s != [] && s[|s| - 1] == '/' then StripTrailingSlashes(s[..|s| - 1]) else s
  }

  /** The last path component, trailing separators ignored. */
  function BaseName(path: string): (b: string)
    ensures '/' !in b
  {
    var t := StripTrailingSlashes(path);
    match LastIndexOf(t, '/')
    case None => t
    case Some(k) => t[k + 1..]
  }

  /** path.extname (POSIX): from the last '.' of the last component to its
      end, or "" when that component has no '.', starts with its only
      leading run of dots before the last one, or is "..". */
  function ExtName(path: string): (e: string)
    ensures e == [] || e[0] == '.'
    ensures forall i :: 1 <= i < |e| ==> e[i] != '.' && e[i] != '/'
  {
    var b := BaseName(path);
    match LastIndexOf(b, '.')
    case None => ""
    case Some(k) => if k == 0 || b == ".." then "" else b[k..]
  }

  lemma {:induction false} LastIndexOfAppend(a: string, b: string, c: char)
    requires c !in b
    ensures LastIndexOf(a + b, c) == LastIndexOf(a, c)
    decreases |b|
  {
    if b != [] {
      assert (a + b)[..|a + b| - 1] == a + b[..|b| - 1];
      LastIndexOfAppend(a, b[..|b| - 1], c);
    } else {
      assert a + b == a;
    }
  }

  lemma BaseNameOfSuffix(stem: string, ext: string)
    requires stem != [] && stem[|stem| - 1] != '/'
    requires ext != [] && '/' !in ext
    ensures BaseName(stem) != []
    ensures BaseName(stem + ext) == BaseName(stem) + ext
  {
    var p := stem + ext;
    assert p[|p| - 1] == ext[|ext| - 1];
    assert StripTrailingSlashes(p) == p;
    assert StripTrailingSlashes(stem) == stem;
    LastIndexOfAppend(stem, ext, '/');
    match LastIndexOf(stem, '/')
    case None =>
    case Some(k) =>
      assert p[k + 1..] == stem[k + 1..] + ext;
  }

  /** A name of the form stem + ".ext" has the extension ".ext", as long
      as the stem ends inside the last path component. */
  lemma ExtNameOfSuffix(stem: string, ext: string)
    requires stem != [] && stem[|stem| - 1] != '/'
    requires |ext| >= 2 && ext[0] == '.'
    requires forall i :: 1 <= i < |ext| ==> ext[i] != '.' && ext[i] != '/'
    ensures ExtName(stem + ext) == ext
  {
    BaseNameOfSuffix(stem, ext);
    var head := BaseName(stem) + ext[..1];
    var b := BaseName(stem + ext);
    assert b == head + ext[1..];
    LastIndexOfAppend(head, ext[1..], '.');
    assert LastIndexOf(head, '.') == Some(|head| - 1);
    assert b[|head| - 1..] == ext;
  }

  // ----- object literals -----

  /** The properties every plain object inherits from Object.prototype. */
  const ObjectPrototypeKeys: set<string> :=
    {"constructor", "hasOwnProperty", "isPrototypeOf", "propertyIsEnumerable",
     "toLocaleString", "toString", "valueOf", "__proto__", "__defineGetter__",
     "__defineSetter__", "__lookupGetter__", "__lookupSetter__"}

  /** What obj[key] yields on an object literal: one of its own values, an
      inherited member of Object.prototype (always truthy), or undefined. */
  datatype Property<+V> = Own(value: V) | Inherited(key: string) | Undefined {
    predicate Truthy() { !Undefined? }
  }

  function GetProperty<V>(own: map<string, V>, key: string): (p: Property<V>)
    ensures p.Own? <==> key in own
    ensures p.Inherited? <==> key !in own && key in ObjectPrototypeKeys
  {
    if key in own then Own(own[key])
    else if key in ObjectPrototypeKeys then Inherited(key)
    else Undefined
  }

  /** No key that starts with '.' (every extension does) is inherited. */
  lemma DottedKeysAreNeverInherited<V>(own: map<string, V>, key: string)
    requires key == [] || key[0] == '.'
    ensures GetProperty(own, key).Inherited? == false
  {
  }
}
