/**
 Numbers and sizes inside camera parameters (camera/CameraParameters.cpp): printing with "%d", reading
 with strtol as section 7.22.1.4 of ISO/IEC 9899:2011 defines it, "WxH" pairs and lists of them.
 `limit` is LONG_MAX, at least 2^31 - 1; strtol saturates there and the result is cast to int.
 */
module CameraSizes {
  import opened Sequences
  import opened CameraParameters

  const INT_MAX := 0x7FFF_FFFF

  ghost predicate IsInt(n: int) {
    -INT_MAX - 1 <= n <= INT_MAX
  }

  datatype Size = Size(width: int, height: int)

  // ----- printing

  function Digit(d: nat): char
    requires d < 10
  {
    "0123456789"[d]
  }

  function PrintNat(n: nat): string {
    if n < 10 then [Digit(n)] else PrintNat(n / 10) + [Digit(n % 10)]
  }

  function PrintInt(n: int): string {
    if n < 0 then "-" + PrintNat(-n) else PrintNat(n)
  }

  function PrintSize(size: Size): string {
    PrintInt(size.width) + "x" + PrintInt(size.height)
  }

  /** Sizes joined with commas, as the supported-sizes keys hold them. */
  function PrintSizes(sizes: seq<Size>): string {
    if sizes == [] then ""
    else if |sizes| == 1 then PrintSize(sizes[0])
    else PrintSize(sizes[0]) + "," + PrintSizes(sizes[1..])
  }

  // ----- strtol

  predicate IsSpace(c: char) {
    c in " \t\n\r" || c as int == 11 || c as int == 12
  }

  function SkipSpaces(s: string): (k: nat)
    ensures k <= |s|
  {
    if s != [] && IsSpace(s[0]) then 1 + SkipSpaces(s[1..]) else 0
  }

  /** The value of a digit or letter, or 36. */
  function DigitValue(c: char): nat {
    if '0' <= c <= '9' then c as int - '0' as int
    else if 'a' <= c <= 'z' then c as int - 'a' as int + 10
    else if 'A' <= c <= 'Z' then c as int - 'A' as int + 10
    else 36
  }

  /** Reads digits from the left: the value so far and how many were read. */
  function Scan(s: string, base: nat, acc: nat, count: nat): (r: (nat, nat))
    ensures count <= r.1 <= count + |s|
  {
    if s != [] && DigitValue(s[0]) < base then Scan(s[1..], base, acc * base + DigitValue(s[0]), count + 1)
    else (acc, count)
  }

  function Saturate(n: int, limit: nat): int {
    if n > limit then limit else if n + limit + 1 < 0 then 0 - limit - 1 else n
  }

  /** The base that base 0 stands for, and the length of its prefix. */
  function AutoBase(s: string): (r: (nat, nat))
    ensures r.1 <= |s|
  {
    if |s| >= 3 && s[0] == '0' && s[1] in "xX" && DigitValue(s[2]) < 16 then (16, 2)
    else if s != [] && s[0] == '0' then (8, 0)
    else (10, 0)
  }

  /** An unsigned number: its value and length, which is 0 without digits. */
  function ReadDigits(s: string, base: nat): (r: (nat, nat))
    ensures r.1 <= |s|
  {
    var (radix, prefix) := if base == 0 then AutoBase(s) else (base, 0);
    var (value, digits) := Scan(s[prefix..], radix, 0, 0);
    if digits == 0 then (0, 0) else (value, prefix + digits)
  }

  /** A number with an optional sign. */
  function ReadSigned(s: string, base: nat): (r: (int, nat))
    ensures r.1 <= |s|
  {
    if s != [] && s[0] in "+-" then
      var (value, length) := ReadDigits(s[1..], base);
      if length == 0 then (0, 0) else (if s[0] == '-' then 0 - value else value, 1 + length)
    else ReadDigits(s, base)
  }

  /** The value and the end position; without digits both are 0. */
  function StrToL(s: string, base: nat, limit: nat): (r: (int, nat))
    ensures r.1 <= |s|
  {
    var spaces := SkipSpaces(s);
    var (n, length) := ReadSigned(s[spaces..], base);
    if length == 0 then (0, 0) else (Saturate(n, limit), spaces + length)
  }

  /** The cast from long to a 32-bit int. */
  function ToInt(n: int): int {
    (n + INT_MAX + 1) % 0x1_0000_0000 - INT_MAX - 1
  }

  /** Text that a number can be followed by. */
  ghost predicate EndsNumber(rest: string) {
    rest == [] || DigitValue(rest[0]) >= 10
  }

  lemma DigitIsDigit(d: nat)
    requires d < 10
    ensures DigitValue(Digit(d)) == d && '0' <= Digit(d) <= '9'
  {
  }

  lemma {:induction false} PrintNatDigits(n: nat)
    ensures PrintNat(n) != [] && forall c :: c in PrintNat(n) ==> '0' <= c <= '9'
  {
    if n >= 10 {
      PrintNatDigits(n / 10);
      DigitIsDigit(n % 10);
    } else {
      DigitIsDigit(n);
    }
  }

  lemma {:induction false} PrintNatLeads(n: nat)
    ensures PrintNat(n) != [] && (PrintNat(n)[0] == '0' ==> n == 0 && PrintNat(n) == "0")
  {
    if n >= 10 {
      PrintNatLeads(n / 10);
    }
  }

  /** Scanning a printed number consumes it and yields its value. */
  lemma {:induction false} ScanPrinted(n: nat, rest: string, count: nat)
    ensures Scan(PrintNat(n) + rest, 10, 0, count) == Scan(rest, 10, n, count + |PrintNat(n)|)
  {
    if n < 10 {
      DigitIsDigit(n);
      assert (PrintNat(n) + rest)[1..] == rest;
    } else {
      var d := [Digit(n % 10)];
      DigitIsDigit(n % 10);
      assert PrintNat(n) + rest == PrintNat(n / 10) + (d + rest);
      ScanPrinted(n / 10, d + rest, count);
      assert (d + rest)[1..] == rest;
    }
  }

  /** Base 0 reads a printed number in base 10, or as the octal number 0. */
  ghost predicate ReadsDecimals(base: nat, n: nat, rest: string) {
    base == 10 || (base == 0 && (n > 0 || rest == []))
  }

  lemma ReadDigitsPrinted(n: nat, rest: string, base: nat)
    requires EndsNumber(rest) && ReadsDecimals(base, n, rest)
    ensures ReadDigits(PrintNat(n) + rest, base) == (n, |PrintNat(n)|)
  {
    var s := PrintNat(n) + rest;
    PrintNatLeads(n);
    ScanPrinted(n, rest, 0);
    assert s[0] == PrintNat(n)[0] && s[0..] == s;
    if base == 0 && n == 0 {
      assert s == "0";
      assert Scan(s[1..], 8, 0, 1) == (0, 1);
    }
  }

  lemma ReadSignedPrinted(n: int, rest: string, base: nat)
    requires EndsNumber(rest) && ReadsDecimals(base, if n < 0 then -n else n, rest)
    ensures ReadSigned(PrintInt(n) + rest, base) == (n, |PrintInt(n)|)
    ensures !IsSpace((PrintInt(n) + rest)[0])
  {
    hide ReadDigits, PrintNat;
    var m := if n < 0 then -n else n;
    var s := PrintInt(n) + rest;
    PrintNatDigits(m);
    ReadDigitsPrinted(m, rest, base);
    var first := PrintNat(m)[0];
    assert first in PrintNat(m);
    if n < 0 {
      assert s == ['-'] + (PrintNat(m) + rest);
      assert s[0] == '-' && s[1..] == PrintNat(m) + rest;
    } else {
      assert s[0] == first && '0' <= first <= '9';
    }
  }

  /** strtol reads back what "%d" printed and stops right behind it. */
  lemma StrToLPrinted(n: int, rest: string, base: nat, limit: nat)
    requires IsInt(n) && limit >= INT_MAX && EndsNumber(rest)
    requires ReadsDecimals(base, if n < 0 then -n else n, rest)
    ensures StrToL(PrintInt(n) + rest, base, limit) == (n, |PrintInt(n)|) && ToInt(n) == n
  {
    hide ReadSigned, IsSpace;
    var s := PrintInt(n) + rest;
    ReadSignedPrinted(n, rest, base);
    assert s[0..] == s;
    PrintNatDigits(if n < 0 then -n else n);
  }

  // ----- strtol on any text

  /** The white space of section 7.4.1.10. */
  ghost predicate AllSpaces(ws: string) {
    forall i :: 0 <= i < |ws| ==> ws[i] as int == 32 || 9 <= ws[i] as int <= 13
  }

  ghost predicate AllDigits(ds: string, radix: nat) {
    forall i :: 0 <= i < |ds| ==> DigitValue(ds[i]) < radix
  }

  /** The value of a string of digits, the last one the least significant. */
  function Value(ds: string, radix: nat): nat {
    if ds == [] then 0 else Value(ds[..|ds| - 1], radix) * radix + DigitValue(ds[|ds| - 1])
  }

  /** ASCII digits, small and capital letters have the values 0 to 9 and 10 to 35, and no other has one. */
  lemma DigitValuesInOrder(d: nat)
    ensures d < 10 ==> DigitValue((48 + d) as char) == d
    ensures 10 <= d < 36 ==> DigitValue((87 + d) as char) == DigitValue((55 + d) as char) == d
    ensures forall c: char :: !(48 <= c as int <= 57 || 65 <= c as int <= 90 || 97 <= c as int <= 122) ==> DigitValue(c) >= 36
  {
  }

  lemma SaturateMeans(n: int, limit: nat)
    ensures 0 - limit - 1 <= Saturate(n, limit) <= limit
    ensures 0 - limit - 1 <= n <= limit ==> Saturate(n, limit) == n
    ensures n > limit ==> Saturate(n, limit) == limit
    ensures n < 0 - limit - 1 ==> Saturate(n, limit) == 0 - limit - 1
  {
  }

  /** The cast keeps the low 32 bits. */
  lemma ToIntMeans(n: int)
    ensures IsInt(ToInt(n)) && (ToInt(n) - n) % 0x1_0000_0000 == 0
  {
  }

  lemma {:induction false} SkipSpacesIs(ws: string, rest: string)
    requires AllSpaces(ws) && (rest == [] || !IsSpace(rest[0]))
    ensures SkipSpaces(ws + rest) == |ws|
  {
    if ws == [] {
      assert ws + rest == rest;
    } else {
      assert (ws + rest)[1..] == ws[1..] + rest && (ws + rest)[0] == ws[0];
      SkipSpacesIs(ws[1..], rest);
    }
  }

  lemma {:induction false} ScanIs(done: string, ds: string, rest: string, radix: nat, count: nat)
    requires AllDigits(ds, radix) && (rest == [] || DigitValue(rest[0]) >= radix)
    ensures Scan(ds + rest, radix, Value(done, radix), count) == (Value(done + ds, radix), count + |ds|)
    decreases |ds|
  {
    if ds == [] {
      assert ds + rest == rest && done + ds == done;
    } else {
      var (s, more) := (ds + rest, done + [ds[0]]);
      assert s[0] == ds[0] && s[1..] == ds[1..] + rest;
      assert more[..|more| - 1] == done;
      assert more + ds[1..] == done + ds;
      ScanIs(more, ds[1..], rest, radix, count + 1);
    }
  }

  /** Which radix and prefix a number has: 10, or by its first characters when the base is 0. */
  ghost predicate HasRadix(base: nat, prefix: string, ds: string, rest: string, radix: nat)
    requires ds != []
  {
    || (base == 10 && prefix == "" && radix == 10)
    || (base == 0 && prefix == "" && radix == 10 && '1' <= ds[0] <= '9')
    || (base == 0 && (prefix == "0x" || prefix == "0X") && radix == 16)
    || (&& base == 0 && prefix == "" && radix == 8 && ds[0] == '0'
        && !(|ds| == 1 && |rest| >= 2 && rest[0] in "xX" && DigitValue(rest[1]) < 16))
  }

  lemma RadixIs(base: nat, prefix: string, ds: string, rest: string, radix: nat)
    requires ds != [] && AllDigits(ds, radix) && HasRadix(base, prefix, ds, rest, radix)
    ensures base == 0 ==> AutoBase(prefix + ds + rest) == (radix, |prefix|)
    ensures base != 0 ==> base == radix && prefix == ""
  {
    var s := prefix + ds + rest;
    if base == 0 && prefix != "" {
      assert s[0] == prefix[0] && s[1] == prefix[1] && s[2] == ds[0];
    } else if base == 0 {
      assert s == ds + rest && s[0] == ds[0];
      if |ds| > 1 {
        assert s[1] == ds[1] && DigitValue(ds[1]) < radix;
      } else {
        assert |rest| >= 2 ==> s[1] == rest[0] && s[2] == rest[1];
      }
    }
  }

  lemma ReadDigitsIs(base: nat, prefix: string, ds: string, rest: string, radix: nat)
    requires ds != [] && AllDigits(ds, radix) && (rest == [] || DigitValue(rest[0]) >= radix)
    requires HasRadix(base, prefix, ds, rest, radix)
    ensures ReadDigits(prefix + ds + rest, base) == (Value(ds, radix), |prefix| + |ds|)
  {
    hide AutoBase, HasRadix;
    RadixIs(base, prefix, ds, rest, radix);
    ScanIs([], ds, rest, radix, 0);
    assert [] + ds == ds && (prefix + ds + rest)[|prefix|..] == ds + rest;
  }

  /** A number in any text: white space, a sign, a prefix for base 0, digits, and what cannot go on the
      number. strtol yields the signed value, saturated, and stops right behind the digits. */
  lemma StrToLReads(ws: string, sign: string, prefix: string, ds: string, rest: string, base: nat, radix: nat, limit: nat)
    requires AllSpaces(ws) && (sign == "" || sign == "+" || sign == "-")
    requires ds != [] && AllDigits(ds, radix) && (rest == [] || DigitValue(rest[0]) >= radix)
    requires HasRadix(base, prefix, ds, rest, radix)
    ensures var n := if sign == "-" then 0 - Value(ds, radix) else Value(ds, radix);
            StrToL(ws + (sign + (prefix + ds + rest)), base, limit) ==
            (Saturate(n, limit), |ws| + |sign| + |prefix| + |ds|)
  {
    hide ReadSigned, SkipSpaces, IsSpace, Value, HasRadix, DigitValue;
    var signed := sign + (prefix + ds + rest);
    StartsNumber(sign, prefix, ds, rest, base, radix);
    SkipSpacesIs(ws, signed);
    assert (ws + signed)[|ws|..] == signed;
    ReadSignedIs(sign, prefix, ds, rest, base, radix);
  }

  lemma StartsNumber(sign: string, prefix: string, ds: string, rest: string, base: nat, radix: nat)
    requires sign == "" || sign == "+" || sign == "-"
    requires ds != [] && AllDigits(ds, radix) && HasRadix(base, prefix, ds, rest, radix)
    ensures !IsSpace((sign + (prefix + ds + rest))[0])
  {
    var number := prefix + ds + rest;
    assert number[0] == if prefix == "" then ds[0] else prefix[0];
    assert DigitValue(ds[0]) < radix <= 16;
    assert (sign + number)[0] == if sign == "" then number[0] else sign[0];
  }

  lemma ReadSignedIs(sign: string, prefix: string, ds: string, rest: string, base: nat, radix: nat)
    requires sign == "" || sign == "+" || sign == "-"
    requires ds != [] && AllDigits(ds, radix) && (rest == [] || DigitValue(rest[0]) >= radix)
    requires HasRadix(base, prefix, ds, rest, radix)
    ensures var n := if sign == "-" then 0 - Value(ds, radix) else Value(ds, radix);
            ReadSigned(sign + (prefix + ds + rest), base) == (n, |sign| + |prefix| + |ds|)
  {
    hide ReadDigits;
    var number := prefix + ds + rest;
    ReadDigitsIs(base, prefix, ds, rest, radix);
    assert number[0] == if prefix == "" then ds[0] else prefix[0];
    if sign == "" {
      assert sign + number == number;
    } else {
      assert (sign + number)[1..] == number && (sign + number)[0] == sign[0];
    }
  }

  /** Without digits after white space and sign, nothing is read. */
  lemma StrToLReadsNothing(ws: string, sign: string, rest: string, limit: nat)
    requires AllSpaces(ws) && (sign == "" || sign == "+" || sign == "-")
    requires rest == [] || !('0' <= rest[0] <= '9')
    requires rest == [] || sign != "" || !(AllSpaces([rest[0]]) || rest[0] in "+-")
    ensures StrToL(ws + (sign + rest), 10, limit) == (0, 0)
  {
    var signed := sign + rest;
    assert rest != [] && sign == "" ==> [rest[0]][0] == rest[0];
    assert signed != [] ==> signed[0] == if sign == "" then rest[0] else sign[0];
    SkipSpacesIs(ws, signed);
    assert (ws + signed)[|ws|..] == signed;
    if sign == "" {
      assert signed == rest && signed[0..] == signed;
    } else {
      assert signed[1..] == rest && rest[0..] == rest;
    }
  }

  // ----- pairs and lists

  /** parse_pair: the two numbers and where the second one ends, or nothing when the delimiter is missing. */
  function ParsePair(s: string, delim: char, limit: nat): (r: Option<(Size, nat)>)
    ensures r.Some? ==> 0 < r.value.1 <= |s|
  {
    var (w, end) := StrToL(s, 10, limit);
    if end == |s| || s[end] != delim then None
    else
      var (h, end') := StrToL(s[end + 1..], 10, limit);
      Some((Size(ToInt(w), ToInt(h)), end + 1 + end'))
  }

  /** parseSizesList: what is pushed before the text ends or an item is malformed. */
  function ParseSizes(s: string, limit: nat): seq<Size>
    decreases |s|
  {
    match ParsePair(s, 'x', limit)
    case None => []
    case Some((size, end)) =>
      if end == |s| then [size]
      else if s[end] != ',' then []
      else [size] + ParseSizes(s[end + 1..], limit)
  }

  lemma ParsePairPrinted(size: Size, delim: char, rest: string, limit: nat)
    requires IsInt(size.width) && IsInt(size.height) && limit >= INT_MAX
    requires DigitValue(delim) >= 10 && EndsNumber(rest)
    ensures var text := PrintInt(size.width) + [delim] + PrintInt(size.height);
            ParsePair(text + rest, delim, limit) == Some((size, |text|))
  {
    hide StrToL, PrintInt, ToInt, DigitValue;
    var (a, b) := (PrintInt(size.width), PrintInt(size.height));
    var s := a + [delim] + b + rest;
    assert s == a + ([delim] + b + rest);
    StrToLPrinted(size.width, [delim] + b + rest, 10, limit);
    assert s[|a|] == delim && s[|a| + 1..] == b + rest;
    StrToLPrinted(size.height, rest, 10, limit);
  }

  ghost predicate AllInts(sizes: seq<Size>) {
    forall i :: 0 <= i < |sizes| ==> IsInt(sizes[i].width) && IsInt(sizes[i].height)
  }

  /** One printed size and a comma are taken off the front. */
  lemma ParseSizesHead(size: Size, more: string, limit: nat)
    requires IsInt(size.width) && IsInt(size.height) && limit >= INT_MAX
    ensures ParseSizes(PrintSize(size) + "," + more, limit) == [size] + ParseSizes(more, limit)
  {
    hide ParsePair, PrintInt;
    var text := PrintSize(size);
    var s := text + "," + more;
    assert s == text + ("," + more);
    ParsePairPrinted(size, 'x', "," + more, limit);
    assert s[|text|] == ',' && s[|text| + 1..] == more;
  }

  /** Parsing a comma-joined list of sizes gives exactly that list. */
  lemma {:induction false} ParsePrintedSizes(sizes: seq<Size>, limit: nat)
    requires AllInts(sizes) && limit >= INT_MAX
    ensures ParseSizes(PrintSizes(sizes), limit) == sizes
  {
    hide ParsePair, PrintInt;
    if sizes == [] {
      assert ParsePair("", 'x', limit).None?;
    } else if |sizes| == 1 {
      ParsePairPrinted(sizes[0], 'x', "", limit);
      assert PrintSize(sizes[0]) + "" == PrintSize(sizes[0]);
    } else {
      hide ParseSizes;
      ParseSizesHead(sizes[0], PrintSizes(sizes[1..]), limit);
      ParsePrintedSizes(sizes[1..], limit);
      assert sizes == [sizes[0]] + sizes[1..];
    }
  }

  /** Parsing goes on behind a printed list and a comma. */
  lemma {:induction false} ParseSizesContinues(sizes: seq<Size>, rest: string, limit: nat)
    requires AllInts(sizes) && sizes != [] && limit >= INT_MAX
    ensures ParseSizes(PrintSizes(sizes) + "," + rest, limit) == sizes + ParseSizes(rest, limit)
  {
    hide ParseSizes, PrintSize;
    if |sizes| == 1 {
      ParseSizesHead(sizes[0], rest, limit);
      assert sizes == [sizes[0]];
    } else {
      var (first, others) := (sizes[0], sizes[1..]);
      ParseSizesHead(first, PrintSizes(others) + "," + rest, limit);
      ParseSizesContinues(others, rest, limit);
      PrintedBefore(PrintSize(first), PrintSizes(others), rest);
      AppendAssoc([first], others, ParseSizes(rest, limit));
      assert sizes == [first] + others;
    }
  }

  lemma PrintedBefore(a: string, b: string, c: string)
    ensures a + "," + b + "," + c == a + "," + (b + "," + c)
  {
  }

  /** The text does not start with a pair that ends the text or is followed by a comma. */
  predicate StartsBadly(s: string, limit: nat) {
    var pair := ParsePair(s, 'x', limit);
    pair.None? || (pair.value.1 < |s| && s[pair.value.1] != ',')
  }

  /** A list that turns out malformed has already given its earlier sizes; nothing is given exactly when
      the first item is bad. */
  lemma MalformedKeepsEarlier(sizes: seq<Size>, bad: string, limit: nat)
    requires AllInts(sizes) && limit >= INT_MAX
    ensures ParseSizes(bad, limit) == [] <==> StartsBadly(bad, limit)
    ensures StartsBadly(bad, limit) && sizes != [] ==> ParseSizes(PrintSizes(sizes) + "," + bad, limit) == sizes
  {
    hide ParsePair;
    if sizes != [] {
      ParseSizesContinues(sizes, bad, limit);
    }
  }

  /** The loop of parseSizesList, which pushes onto a list that may already hold sizes. */
  method ParseSizesList(text: Option<string>, before: seq<Size>, limit: nat) returns (sizes: seq<Size>)
    ensures sizes == before + if text.None? then [] else ParseSizes(text.value, limit)
  {
    hide ParsePair;
    sizes := before;
    if text.None? {
      return;
    }
    var s := text.value;
    while true
      invariant sizes + ParseSizes(s, limit) == before + ParseSizes(text.value, limit)
      decreases |s|
    {
      var pair := ParsePair(s, 'x', limit);
      if pair.None? || (pair.value.1 < |s| && s[pair.value.1] != ',') {
        return;
      }
      sizes := sizes + [pair.value.0];
      if pair.value.1 == |s| {
        return;
      }
      s := s[pair.value.1 + 1..];
    }
  }

  // ----- setters and getters

  const MISSING := Size(-1, -1)

  function SetSize(es: seq<Entry>, key: string, size: Size): seq<Entry> {
    SetEntry(es, Some(key), Some(PrintSize(size)))
  }

  /** A missing or malformed value leaves -1 by -1. */
  function GetSize(es: seq<Entry>, key: string, limit: nat): Size {
    match GetEntry(es, key)
    case None => MISSING
    case Some(text) =>
      (match ParsePair(text, 'x', limit)
       case None => MISSING
       case Some((size, _)) => size)
  }

  function SetInt(es: seq<Entry>, key: string, n: int): seq<Entry> {
    SetEntry(es, Some(key), Some(PrintInt(n)))
  }

  function GetInt(es: seq<Entry>, key: string, limit: nat): int {
    match GetEntry(es, key)
    case None => -1
    case Some(text) => ToInt(StrToL(text, 0, limit).0)
  }

  lemma PrintIntChars(n: int)
    ensures PrintInt(n) != [] && !HasReserved(PrintInt(n))
  {
    PrintNatDigits(if n < 0 then -n else n);
  }

  /** What setPreviewSize, setVideoSize and setPictureSize store comes back from their getters, for all
      32-bit numbers including negative ones; other keys keep their values. */
  lemma SizeRoundTrip(es: seq<Entry>, key: string, size: Size, other: string, limit: nat)
    requires IsInt(size.width) && IsInt(size.height) && limit >= INT_MAX && !HasReserved(key)
    ensures GetSize(SetSize(es, key, size), key, limit) == size
    ensures other != key ==> ValueFor(SetSize(es, key, size), other) == ValueFor(es, other)
  {
    var text := PrintSize(size);
    PrintIntChars(size.width);
    PrintIntChars(size.height);
    assert !HasReserved(text) && text != [];
    ValueForAfterPut(es, key, text, key);
    ValueForAfterPut(es, key, text, other);
    ParsePairPrinted(size, 'x', "", limit);
    assert text + "" == text;
  }

  /** set and getInt for one number: base 0 reads printed decimals as decimals. */
  lemma IntRoundTrip(es: seq<Entry>, key: string, n: int, limit: nat)
    requires IsInt(n) && limit >= INT_MAX && !HasReserved(key)
    ensures GetInt(SetInt(es, key, n), key, limit) == n
  {
    hide StrToL;
    PrintIntChars(n);
    ValueForAfterPut(es, key, PrintInt(n), key);
    StrToLPrinted(n, "", 0, limit);
    assert PrintInt(n) + "" == PrintInt(n);
  }

  /** A getter without a usable value: -1 by -1, and -1. It has none when the map holds no non-empty text
      for the key, or, for a size, when no 'x' follows directly behind the first number. Otherwise the
      size is the two numbers before and behind the 'x'. */
  lemma MissingGivesMinusOne(es: seq<Entry>, key: string, limit: nat)
    requires Sorted(es)
    ensures (forall v :: v != "" ==> Entry(key, v) !in es) ==>
              GetSize(es, key, limit) == Size(-1, -1) && GetInt(es, key, limit) == -1
    ensures forall v :: v != "" && Entry(key, v) in es ==>
              var (w, end) := StrToL(v, 10, limit);
              GetSize(es, key, limit) ==
              if end == |v| || v[end] != 'x' then Size(-1, -1)
              else Size(ToInt(w), ToInt(StrToL(v[end + 1..], 10, limit).0))
    ensures forall v :: v != "" && Entry(key, v) in es ==> GetInt(es, key, limit) == ToInt(StrToL(v, 0, limit).0)
  {
    hide StrToL, ToInt;
    var held := ValueFor(es, key);
    if held != "" {
      ValueForFinds(es, key, held);
    }
    forall v | v != "" && Entry(key, v) in es ensures held == v {
      ValueForFinds(es, key, v);
    }
  }
}
