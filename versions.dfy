/** `Util.parseVersion` and `Util.versionCompare`: a "major.minor.patch"
    string is cut at its dots, the first three pieces go through `parseInt`
    with NaN read as 0, and two versions compare lexicographically. A value
    that is not a string is `None` here (the source returns `false`). */
module Versions {
  import opened Wrappers
  import opened Strings
  import opened Numerals

  datatype Version = Version(major: int, minor: int, patch: int)

  /** ECMAScript's StrWhiteSpaceChar: the WhiteSpace and LineTerminator code
      points that `parseInt` skips before the number. */
  predicate IsStrWhiteSpace(c: char) {
    c == '\t' || c == '\n' || c == '\U{B}' || c == '\U{C}' || c == '\r' || c == ' '
    || c == '\U{A0}' || c == '\U{1680}' || ('\U{2000}' <= c <= '\U{200A}')
    || c == '\U{2028}' || c == '\U{2029}' || c == '\U{202F}' || c == '\U{205F}'
    || c == '\U{3000}' || c == '\U{FEFF}'
  }

  predicate AllWhiteSpace(ws: string) {
    forall i :: 0 <= i < |ws| ==> IsStrWhiteSpace(ws[i])
  }

  function TrimStart(s: string): (t: string)
    ensures |t| <= |s|
  {
    if |s| > 0 && IsStrWhiteSpace(s[0]) then TrimStart(s[1..]) else s
  }

  /** `TrimStart` removes exactly the leading white space: what it drops is
      white space, and what it keeps is the rest of the string, starting
      with a character that is not. */
  lemma {:induction false} TrimStartSkipsWhiteSpace(s: string)
    ensures TrimStart(s) == s[|s| - |TrimStart(s)|..]
    ensures |TrimStart(s)| > 0 ==> !IsStrWhiteSpace(TrimStart(s)[0])
    ensures forall i :: 0 <= i < |s| - |TrimStart(s)| ==> IsStrWhiteSpace(s[i])
    decreases |s|
  {
    if |s| > 0 && IsStrWhiteSpace(s[0]) {
      TrimStartSkipsWhiteSpace(s[1..]);
      assert forall i :: 1 <= i < |s| - |TrimStart(s)| ==> s[i] == s[1..][i - 1];
    }
  }

  /** `parseInt(s)` with no radix: leading white space is skipped, one sign
      is taken, a "0x"/"0X" prefix selects radix 16, and the longest run of
      digits after that is the number; no digits at all is NaN (`None`). */
  function ParseInt(s: string): (r: Option<int>)
    ensures TrimStart(s) == "" ==> r.None?
    ensures r.Some? && r.value < 0 ==> TrimStart(s)[0] == '-'
  {
    var t := TrimStart(s);
    var negative := |t| > 0 && t[0] == '-';
    var u := if |t| > 0 && (t[0] == '-' || t[0] == '+') then t[1..] else t;
    match Magnitude(u)
    case None => None
    case Some(m) => Some(if negative then -(m as int) else m as int)
  }

  /** The unsigned part of `parseInt`: radix 16 after a "0x"/"0X" prefix,
      radix 10 otherwise, and the longest digit prefix. */
  function Magnitude(u: string): Option<nat> {
    if |u| >= 2 && u[0] == '0' && (u[1] == 'x' || u[1] == 'X') then LeadingValue(u[2..], 16)
    else LeadingValue(u, 10)
  }

  /** The value of the longest digit prefix, or `None` when there is none. */
  function LeadingValue(w: string, radix: nat): Option<nat> {
    var n := DigitPrefix(w, radix);
    if n == 0 then None else Some(Value(w[..n], radix))
  }

  /** `parseInt(x) || 0`: NaN and zero both become 0. */
  function OrZero(r: Option<int>): int {
    match r
    case None => 0
    case Some(n) => n
  }

  /** `x[i]` as `parseInt` sees it: a missing piece is `undefined`, which
      `parseInt` reads as the text "undefined". */
  function Piece(x: seq<string>, i: nat): string {
    if i < |x| then x[i] else "undefined"
  }

  function ParseVersion(versionStr: Option<string>): (r: Option<Version>)
    ensures r.None? <==> versionStr.None?
  {
    match versionStr
    case None => None
    case Some(s) =>
      var x := Split(s, ".");
      Some(Version(OrZero(ParseInt(Piece(x, 0))),
                   OrZero(ParseInt(Piece(x, 1))),
                   OrZero(ParseInt(Piece(x, 2)))))
  }

  /** The three-way comparison of two parsed versions, field by field. */
  function CompareParsed(v1: Version, v2: Version): (c: int)
    ensures c in {-1, 0, 1}
  {
    if v1.major < v2.major then -1
    else if v1.major > v2.major then 1
    else if v1.minor < v2.minor then -1
    else if v1.minor > v2.minor then 1
    else if v1.patch < v2.patch then -1
    else if v1.patch > v2.patch then 1
    else 0
  }

  function VersionCompare(version1: Option<string>, version2: Option<string>): (r: Option<int>)
    ensures r.None? <==> version1.None? || version2.None?
    ensures r.Some? ==> r.value in {-1, 0, 1}
  {
    match (ParseVersion(version1), ParseVersion(version2))
    case (Some(v1), Some(v2)) => Some(CompareParsed(v1, v2))
    case _ => None
  }

  // ---------------------------------------------------------------------
  // Properties

  /** "undefined" has no leading digit, so a missing piece counts as 0. */
  lemma MissingPieceIsZero()
    ensures OrZero(ParseInt("undefined")) == 0
  {
    assert TrimStart("undefined") == "undefined";
    assert !IsDigit('u', 10);
  }

  /** A decimal digit string, leading zeros included, parses to the number
      it denotes: a second character that is a digit is never the 'x' of a
      hexadecimal prefix. */
  lemma MagnitudeOfDigits(s: string)
    requires |s| >= 1 && AllDigits(s, 10)
    ensures Magnitude(s) == Some(Value(s, 10))
  {
    var k := DigitPrefix(s, 10);
    assert s[..|s|] == s;
  }

  /** A decimal digit string ("007" included) parses to the number it denotes. */
  lemma ParseIntOfDigits(s: string)
    requires |s| >= 1 && AllDigits(s, 10)
    ensures ParseInt(s) == Some(Value(s, 10))
  {
    DigitsUntrimmed(s);
    MagnitudeOfDigits(s);
  }

  /** A string that starts with a digit has no leading white space or sign. */
  lemma DigitsUntrimmed(s: string)
    requires |s| >= 1 && IsDigit(s[0], 10)
    ensures TrimStart(s) == s && s[0] != '-' && s[0] != '+'
  {
    assert !IsStrWhiteSpace(s[0]);
  }

  /** Leading white space in front of a text that does not itself start
      with white space is exactly what `TrimStart` removes. */
  lemma {:induction false} TrimStartOf(ws: string, x: string)
    requires AllWhiteSpace(ws)
    requires |x| > 0 ==> !IsStrWhiteSpace(x[0])
    ensures TrimStart(ws + x) == x
    decreases |ws|
  {
    if |ws| > 0 {
      assert (ws + x)[1..] == ws[1..] + x;
      TrimStartOf(ws[1..], x);
    } else {
      assert ws + x == x;
    }
  }

  /** The digit prefix of digits followed by a non-digit is those digits. */
  lemma {:induction false} DigitPrefixOf(d: string, rest: string, radix: nat)
    requires AllDigits(d, radix)
    requires |rest| > 0 ==> !IsDigit(rest[0], radix)
    ensures DigitPrefix(d + rest, radix) == |d|
    ensures (d + rest)[..|d|] == d
    decreases |d|
  {
    if |d| > 0 {
      assert (d + rest)[1..] == d[1..] + rest;
      DigitPrefixOf(d[1..], rest, radix);
    } else {
      assert d + rest == rest;
    }
  }

  /** The unsigned part of such a text: decimal digits `d`, then a rest that
      does not go on with a digit, outside the hexadecimal prefix. */
  lemma MagnitudeLeading(d: string, rest: string)
    requires |d| >= 1 && AllDigits(d, 10)
    requires |rest| > 0 ==> !IsDigit(rest[0], 10)
    requires !(d == "0" && |rest| > 0 && (rest[0] == 'x' || rest[0] == 'X'))
    ensures Magnitude(d + rest) == Some(Value(d, 10))
  {
    var u := d + rest;
    DigitPrefixOf(d, rest, 10);
    if |d| >= 2 {
      assert u[1] == d[1] && IsDigit(d[1], 10);
    } else if |rest| > 0 {
      assert u[1] == rest[0];
    }
  }

  /** `parseInt` once the white space is gone: an optional sign, then the
      unsigned part `u`. */
  lemma ParseIntSigned(s: string, sign: string, u: string)
    requires sign == "" || sign == "-" || sign == "+"
    requires TrimStart(s) == sign + u
    requires sign == "" && |u| > 0 ==> u[0] != '-' && u[0] != '+'
    ensures ParseInt(s) == match Magnitude(u)
      case None => None
      case Some(m) => Some(if sign == "-" then -(m as int) else m as int)
  {
    if sign != "" {
      assert (sign + u)[0] == sign[0] && (sign + u)[1..] == u;
    } else {
      assert sign + u == u;
    }
  }

  lemma Regroup(a: string, b: string, c: string, e: string)
    ensures a + b + c + e == a + (b + (c + e))
  {
    assert a + b + c == a + (b + c);
    assert (a + (b + c)) + e == a + ((b + c) + e);
    assert (b + c) + e == b + (c + e);
  }

  /** `parseInt` of a text whose white space, once trimmed, leaves an
      optional sign, decimal digits `d` and a rest that does not go on with a
      digit: the signed value of `d`, outside the hexadecimal prefix. */
  lemma ParseIntTrimmed(s: string, sign: string, d: string, rest: string)
    requires sign == "" || sign == "-" || sign == "+"
    requires |d| >= 1 && AllDigits(d, 10)
    requires |rest| > 0 ==> !IsDigit(rest[0], 10)
    requires !(d == "0" && |rest| > 0 && (rest[0] == 'x' || rest[0] == 'X'))
    requires TrimStart(s) == sign + (d + rest)
    ensures ParseInt(s) == Some(if sign == "-" then -(Value(d, 10) as int) else Value(d, 10) as int)
  {
    var u := d + rest;
    assert u[0] == d[0] && IsDigit(d[0], 10);
    MagnitudeLeading(d, rest);
    ParseIntSigned(s, sign, u);
  }

  /** `parseInt` of white space, an optional sign, decimal digits `d` and a
      rest that does not go on with a digit is the signed value of `d`. The
      one exception is the hexadecimal prefix "0x" or "0X". */
  lemma ParseIntLeading(ws: string, sign: string, d: string, rest: string)
    requires AllWhiteSpace(ws)
    requires sign == "" || sign == "-" || sign == "+"
    requires |d| >= 1 && AllDigits(d, 10)
    requires |rest| > 0 ==> !IsDigit(rest[0], 10)
    requires !(d == "0" && |rest| > 0 && (rest[0] == 'x' || rest[0] == 'X'))
    ensures ParseInt(ws + sign + d + rest) == Some(if sign == "-" then -(Value(d, 10) as int) else Value(d, 10) as int)
  {
    var x := sign + (d + rest);
    Regroup(ws, sign, d, rest);
    assert x[0] == (if sign == "" then d[0] else sign[0]);
    assert IsDigit(d[0], 10);
    TrimStartOf(ws, x);
    ParseIntTrimmed(ws + x, sign, d, rest);
  }

  /** `parseInt` of white space, an optional sign and a text that does not
      start with a decimal digit (nor, without a sign, with white space or
      another sign) is NaN. */
  lemma ParseIntNoDigits(ws: string, sign: string, rest: string)
    requires AllWhiteSpace(ws)
    requires sign == "" || sign == "-" || sign == "+"
    requires |rest| > 0 ==> !IsDigit(rest[0], 10)
    requires sign == "" && |rest| > 0 ==> !IsStrWhiteSpace(rest[0]) && rest[0] != '-' && rest[0] != '+'
    ensures ParseInt(ws + sign + rest).None?
  {
    var x := sign + rest;
    var s := ws + x;
    assert ws + sign + rest == s;
    assert |x| > 0 ==> x[0] == (if sign == "" then rest[0] else sign[0]);
    TrimStartOf(ws, x);
    ParseIntSigned(s, sign, rest);
  }

  /** A piece of a version that is white space, an optional sign and digits,
      followed by anything that does not go on with a digit, counts as the
      signed value of the digits. */
  lemma VersionFieldLeading(s: string, i: nat, ws: string, sign: string, d: string, rest: string)
    requires i < 3 && i < |Split(s, ".")|
    requires Split(s, ".")[i] == ws + sign + d + rest
    requires AllWhiteSpace(ws)
    requires sign == "" || sign == "-" || sign == "+"
    requires |d| >= 1 && AllDigits(d, 10)
    requires |rest| > 0 ==> !IsDigit(rest[0], 10)
    requires !(d == "0" && |rest| > 0 && (rest[0] == 'x' || rest[0] == 'X'))
    ensures Fields(ParseVersion(Some(s)).value)[i] == if sign == "-" then -(Value(d, 10) as int) else Value(d, 10) as int
  {
    ParseIntLeading(ws, sign, d, rest);
  }

  /** A piece of a version with no digits after its white space and sign,
      say "x" or "beta", counts as 0. */
  lemma VersionFieldNoDigits(s: string, i: nat, ws: string, sign: string, rest: string)
    requires i < 3 && i < |Split(s, ".")|
    requires Split(s, ".")[i] == ws + sign + rest
    requires AllWhiteSpace(ws)
    requires sign == "" || sign == "-" || sign == "+"
    requires |rest| > 0 ==> !IsDigit(rest[0], 10)
    requires sign == "" && |rest| > 0 ==> !IsStrWhiteSpace(rest[0]) && rest[0] != '-' && rest[0] != '+'
    ensures Fields(ParseVersion(Some(s)).value)[i] == 0
  {
    ParseIntNoDigits(ws, sign, rest);
  }

  /** The decimal text of a natural parses back to it. */
  lemma ParseIntOfNat(n: nat)
    ensures ParseInt(NatToString(n)) == Some(n)
  {
    NatToStringDigits(n);
    ParseIntOfDigits(NatToString(n));
  }

  /** The dotted text of naturals, e.g. [1, 2, 3] as "1.2.3". */
  function Dotted(parts: seq<nat>): string
    decreases |parts|
  {
    if |parts| == 0 then ""
    else if |parts| == 1 then NatToString(parts[0])
    else NatToString(parts[0]) + "." + Dotted(parts[1..])
  }

  function Texts(parts: seq<nat>): (r: seq<string>)
    ensures |r| == |parts|
    ensures forall i :: 0 <= i < |parts| ==> r[i] == NatToString(parts[i])
  {
    seq(|parts|, i requires 0 <= i < |parts| => NatToString(parts[i]))
  }

  lemma {:induction false} SplitDotted(parts: seq<nat>)
    requires |parts| >= 1
    ensures Split(Dotted(parts), ".") == Texts(parts)
    decreases |parts|
  {
    var first := NatToString(parts[0]);
    NatToStringDigits(parts[0]);
    if |parts| == 1 {
      forall i: nat ensures !OccursAt(first, ".", i) {
        if i + 1 <= |first| { assert first[i..i + 1][0] == first[i]; }
      }
      SplitWithout(first, ".");
    } else {
      forall j | 0 <= j < |first| ensures first[j] != '.' { assert IsDigit(first[j], 10); }
      SplitAfter(first, ".", Dotted(parts[1..]));
      SplitDotted(parts[1..]);
    }
  }

  function PartOr0(parts: seq<nat>, i: nat): int {
    if i < |parts| then parts[i] else 0
  }

  /** A version written as dotted naturals parses to its first three
      numbers, a missing one being 0 and any further ones ignored: "1" is
      {1, 0, 0} and "1.2.3" is {1, 2, 3}. */
  lemma ParseDotted(parts: seq<nat>)
    requires |parts| >= 1
    ensures ParseVersion(Some(Dotted(parts)))
            == Some(Version(parts[0], PartOr0(parts, 1), PartOr0(parts, 2)))
  {
    SplitDotted(parts);
    var x := Texts(parts);
    forall i: nat | i < 3 ensures OrZero(ParseInt(Piece(x, i))) == PartOr0(parts, i) {
      if i < |parts| { ParseIntOfNat(parts[i]); } else { MissingPieceIsZero(); }
    }
  }

  /** Examples: "1.2.3", "1" and a value that is not a string. */
  lemma ParseExamples()
    ensures ParseVersion(Some("1.2.3")) == Some(Version(1, 2, 3))
    ensures ParseVersion(Some("1")) == Some(Version(1, 0, 0))
    ensures ParseVersion(None) == None
  {
    assert Dotted([1, 2, 3]) == "1.2.3";
    ParseDotted([1, 2, 3]);
    assert Dotted([1]) == "1";
    ParseDotted([1]);
  }

  lemma ParseTriple(parts: seq<nat>, s: string)
    requires |parts| == 3 && Dotted(parts) == s
    ensures ParseVersion(Some(s)) == Some(Version(parts[0], parts[1], parts[2]))
  {
    ParseDotted(parts);
  }

  /** The lexicographic order on integer sequences, used as an independent
      reference for the field-by-field comparison. */
  predicate LexLess(a: seq<int>, b: seq<int>)
    decreases |a|
  {
    |a| > 0 && |b| > 0 && (a[0] < b[0] || (a[0] == b[0] && LexLess(a[1..], b[1..])))
  }

  function Fields(v: Version): seq<int> {
    [v.major, v.minor, v.patch]
  }

  /** -1 means the first version is lexicographically smaller, 1 that the
      second one is, and 0 that all three fields agree. */
  lemma {:induction false} CompareIsLexicographic(v1: Version, v2: Version)
    ensures CompareParsed(v1, v2) == -1 <==> LexLess(Fields(v1), Fields(v2))
    ensures CompareParsed(v1, v2) == 1 <==> LexLess(Fields(v2), Fields(v1))
    ensures CompareParsed(v1, v2) == 0 <==> v1 == v2
  {
    var a, b := Fields(v1), Fields(v2);
    assert a[1..][1..] == [v1.patch] && b[1..][1..] == [v2.patch];
    assert [v1.patch][1..] == [] && [v2.patch][1..] == [];
    assert LexLess(a[1..][1..], b[1..][1..]) <==> v1.patch < v2.patch;
    assert LexLess(b[1..][1..], a[1..][1..]) <==> v2.patch < v1.patch;
    assert a[1..][0] == v1.minor && b[1..][0] == v2.minor;
  }

  /** Comparing two strings gives 0 exactly when they parse to the same
      version and -1 exactly when the first parses lexicographically smaller. */
  lemma VersionCompareMeaning(a: string, b: string)
    ensures VersionCompare(Some(a), Some(b)) == Some(0)
            <==> ParseVersion(Some(a)) == ParseVersion(Some(b))
    ensures VersionCompare(Some(a), Some(b)) == Some(-1)
            <==> LexLess(Fields(ParseVersion(Some(a)).value), Fields(ParseVersion(Some(b)).value))
  {
    CompareIsLexicographic(ParseVersion(Some(a)).value, ParseVersion(Some(b)).value);
  }

  lemma CompareParsedAntisymmetric(v1: Version, v2: Version)
    ensures CompareParsed(v2, v1) == -CompareParsed(v1, v2)
  {
  }

  /** Swapping the operands negates the result. */
  lemma CompareAntisymmetric(a: string, b: string)
    ensures VersionCompare(Some(b), Some(a)) == Some(-VersionCompare(Some(a), Some(b)).value)
  {
    var p, q := ParseVersion(Some(a)).value, ParseVersion(Some(b)).value;
    CompareOfParsed(a, b, p, q);
    CompareOfParsed(b, a, q, p);
    CompareParsedAntisymmetric(p, q);
  }

  lemma CompareOfParsed(a: string, b: string, p: Version, q: Version)
    requires ParseVersion(Some(a)) == Some(p) && ParseVersion(Some(b)) == Some(q)
    ensures VersionCompare(Some(a), Some(b)) == Some(CompareParsed(p, q))
  {
  }

  /** The order is transitive. */
  lemma CompareTransitive(a: string, b: string, c: string)
    requires VersionCompare(Some(a), Some(b)) == Some(-1)
    requires VersionCompare(Some(b), Some(c)) == Some(-1)
    ensures VersionCompare(Some(a), Some(c)) == Some(-1)
  {
    var va, vb, vc := ParseVersion(Some(a)).value, ParseVersion(Some(b)).value, ParseVersion(Some(c)).value;
    assert CompareParsed(va, vb) == -1 && CompareParsed(vb, vc) == -1;
  }

  /** Comparing two dotted triples compares the triples. */
  lemma CompareTriples(p: seq<nat>, q: seq<nat>, a: string, b: string)
    requires |p| == 3 && Dotted(p) == a
    requires |q| == 3 && Dotted(q) == b
    ensures VersionCompare(Some(a), Some(b))
            == Some(CompareParsed(Version(p[0], p[1], p[2]), Version(q[0], q[1], q[2])))
  {
    ParseTriple(p, a);
    ParseTriple(q, b);
  }

  /** Examples: a smaller minor, a larger major, equality, and an operand
      that is not a string. */
  lemma CompareExamples()
    ensures VersionCompare(Some("1.2.0"), Some("1.3.0")) == Some(-1)
    ensures VersionCompare(Some("2.0.0"), Some("1.9.9")) == Some(1)
    ensures VersionCompare(Some("1.0.0"), Some("1.0.0")) == Some(0)
    ensures VersionCompare(Some("1.0.0"), None) == None
  {
    assert Dotted([1, 2, 0]) == "1.2.0";
    assert Dotted([1, 3, 0]) == "1.3.0";
    assert Dotted([2, 0, 0]) == "2.0.0";
    assert Dotted([1, 9, 9]) == "1.9.9";
    assert Dotted([1, 0, 0]) == "1.0.0";
    CompareTriples([1, 2, 0], [1, 3, 0], "1.2.0", "1.3.0");
    CompareTriples([2, 0, 0], [1, 9, 9], "2.0.0", "1.9.9");
    CompareTriples([1, 0, 0], [1, 0, 0], "1.0.0", "1.0.0");
  }

  /** A version of three dot-free pieces reads each piece with `parseInt`. */
  lemma ParseThreePieces(a: string, b: string, c: string)
    requires '.' !in a && '.' !in b && '.' !in c
    ensures ParseVersion(Some(a + "." + b + "." + c))
         == Some(Version(OrZero(ParseInt(a)), OrZero(ParseInt(b)), OrZero(ParseInt(c))))
  {
    assert a + "." + b + "." + c == a + "." + (b + "." + c);
    SplitAfter(a, ".", b + "." + c);
    SplitAfter(b, ".", c);
    SplitNone(c, ".");
  }

  /** A version of two dot-free pieces has a patch of 0. */
  lemma ParseTwoPieces(a: string, b: string)
    requires '.' !in a && '.' !in b
    ensures ParseVersion(Some(a + "." + b)) == Some(Version(OrZero(ParseInt(a)), OrZero(ParseInt(b)), 0))
  {
    SplitAfter(a, ".", b);
    SplitNone(b, ".");
    MissingPieceIsZero();
  }

  /** Pieces that are not plain numbers, each example text given piece by
      piece: "1.x.3" is {1, 0, 3}, since "x" has no digits. */
  lemma LetterPiece(one: string, x: string, three: string)
    requires one == "1" && x == "x" && three == "3"
    ensures ParseVersion(Some(one + "." + x + "." + three)) == Some(Version(1, 0, 3))
  {
    assert ParseInt(one) == Some(1) by { ParseIntOfDigits(one); }
    assert ParseInt(three) == Some(3) by { ParseIntOfDigits(three); }
    assert ParseInt(x).None? by {
      assert x == "" + "" + x;
      ParseIntNoDigits("", "", x);
    }
    ParseThreePieces(one, x, three);
  }

  /** "1.2.3-beta" is {1, 2, 3}, since `parseInt` stops at '-'. */
  lemma SuffixPiece(one: string, two: string, beta: string)
    requires one == "1" && two == "2" && beta == "3-beta"
    ensures ParseVersion(Some(one + "." + two + "." + beta)) == Some(Version(1, 2, 3))
  {
    assert ParseInt(one) == Some(1) by { ParseIntOfDigits(one); }
    assert ParseInt(two) == Some(2) by { ParseIntOfDigits(two); }
    assert ParseInt(beta) == Some(3) by {
      assert beta == "" + "" + "3" + "-beta";
      ParseIntLeading("", "", "3", "-beta");
    }
    ParseThreePieces(one, two, beta);
  }

  /** "1.02" is {1, 2, 0}: the leading zero is read as decimal, and the
      missing patch is 0. */
  lemma LeadingZeroPiece(one: string, zeroTwo: string)
    requires one == "1" && zeroTwo == "02"
    ensures ParseVersion(Some(one + "." + zeroTwo)) == Some(Version(1, 2, 0))
  {
    assert ParseInt(one) == Some(1) by { ParseIntOfDigits(one); }
    assert ParseInt(zeroTwo) == Some(2) by { ParseIntOfDigits(zeroTwo); }
    ParseTwoPieces(one, zeroTwo);
  }
}
