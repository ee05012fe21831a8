/**
 * The hexadecimal codec of blocksearch: print_off_t formats a match offset, convert_off_t parses the
 * <buffer_size> and <start> arguments (blocksearch.c:237-272). Both work on prefix-less hexadecimal.
 */
module BlockHex {
  import opened Wrappers

  datatype Error =
    | NoDigits      // die("Number without any digits!")
    | InvalidDigit  // die("Invalid hexadecimal digit in number!")

  /** The digit table `xdigits`. */
  const XDigits: string := "0123456789abcdef"

  /** The case table `map` of convert_off_t: each upper-case letter followed by its lower-case form. */
  const CaseMap: string := "AaBbCcDdEeFf"

  predicate IsLowerHexDigit(c: char) {
    '0' <= c <= '9' || 'a' <= c <= 'f'
  }

  /** The conventional value of a hexadecimal digit of either case. */
  function StandardDigit(c: char): Option<nat> {
    if '0' <= c <= '9' then Some(c as nat - '0' as nat)
    else if 'a' <= c <= 'f' then Some(c as nat - 'a' as nat + 10)
    else if 'A' <= c <= 'F' then Some(c as nat - 'A' as nat + 10)
    else None
  }

  /** The text print_off_t and convert_off_t agree on: lower-case digits, no leading zero except in "0". */
  predicate Canonical(s: string) {
    |s| >= 1 && (forall i :: 0 <= i < |s| ==> IsLowerHexDigit(s[i])) && (|s| > 1 ==> s[0] != '0')
  }

  function XDigitChar(d: nat): char
    requires d < 16
  {
    if d < 10 then ('0' as int + d) as char else ('a' as int + d - 10) as char
  }

  lemma XDigitsAt(d: nat)
    requires d < 16
    ensures XDigits[d] == XDigitChar(d)
  {
  }

  function CaseMapChar(j: nat): char
    requires j < 12
  {
    if j % 2 == 0 then ('A' as int + j / 2) as char else ('a' as int + j / 2) as char
  }

  lemma CaseMapAt(j: nat)
    requires j < 12
    ensures CaseMap[j] == CaseMapChar(j)
  {
  }

  // ---------------------------------------------------------------------------------------------
  // print_off_t

  /**
   * The characters print_off_t writes for a non-negative value: those of value >> 4 first when value is
   * 0x10 or more, then xdigits[value & 0xf]. The table entry is XDigitChar(d), as XDigitsAt shows.
   */
  function FormatHex(value: nat): (s: string)
    decreases value
    ensures Canonical(s)
    ensures s == "0" <==> value == 0
  {
    if value >= 0x10 then FormatHex(value / 16) + [XDigitChar(value % 16)]
    else [XDigitChar(value)]
  }

  // ---------------------------------------------------------------------------------------------
  // convert_off_t

  /** strchr(s, c) on a table: the first index holding c. */
  function IndexOf(s: string, c: char): (r: Option<nat>)
    ensures r.Some? ==> r.value < |s| && s[r.value] == c
  {
    IndexFrom(s, c, 0)
  }

  function IndexFrom(s: string, c: char, i: nat): (r: Option<nat>)
    requires i <= |s|
    decreases |s| - i
    ensures r.Some? ==> i <= r.value < |s| && s[r.value] == c
  {
    if i == |s| then None
    else if s[i] == c then Some(i)
    else IndexFrom(s, c, i + 1)
  }

  /** Nothing before the index IndexFrom finds holds c; when it finds none, no index does. */
  lemma {:induction false} IndexFromIsFirst(s: string, c: char, i: nat)
    requires i <= |s|
    ensures var r := IndexFrom(s, c, i);
      (r.Some? ==> forall j :: i <= j < r.value ==> s[j] != c) &&
      (r.None? ==> forall j :: i <= j < |s| ==> s[j] != c)
    decreases |s| - i
  {
    if i < |s| && s[i] != c {
      IndexFromIsFirst(s, c, i + 1);
    }
  }

  /**
   * The value convert_off_t gives one character, or None where it dies. A character found in `map` at
   * an even offset (an upper-case letter) is replaced by map[off + 1]; since off is that offset's low
   * bit, which is 0 there, this is always map[1] == 'a'. The result is looked up in xdigits.
   */
  function DigitValue(c: char): (r: Option<nat>)
    ensures r == if 'A' <= c <= 'F' then Some(10) else if IsLowerHexDigit(c) then StandardDigit(c) else None
  {
    CaseMapCases(c);
    var digit :=
      match IndexOf(CaseMap, c)
      case Some(found) =>
        var off := found % 2;
        if off == 0 then CaseMap[off + 1] else c
      case None => c;
    XDigitsIndexOf(digit);
    IndexOf(XDigits, digit)
  }

  /** Where `map` holds c: an even offset for an upper-case digit, an odd one for a lower-case digit, none otherwise. */
  lemma CaseMapCases(c: char)
    ensures CaseMap[1] == 'a'
    ensures 'A' <= c <= 'F' ==> IndexOf(CaseMap, c).Some? && IndexOf(CaseMap, c).value % 2 == 0
    ensures 'a' <= c <= 'f' ==> IndexOf(CaseMap, c).Some? && IndexOf(CaseMap, c).value % 2 == 1
    ensures !('A' <= c <= 'F') && !('a' <= c <= 'f') ==> IndexOf(CaseMap, c).None?
  {
    if 'A' <= c <= 'F' {
      CaseMapUpper(c);
    } else if 'a' <= c <= 'f' {
      CaseMapLower(c);
    } else {
      CaseMapOther(c);
    }
  }

  lemma CaseMapUpper(c: char)
    requires 'A' <= c <= 'F'
    ensures IndexOf(CaseMap, c).Some? && IndexOf(CaseMap, c).value % 2 == 0
  {
    var r := IndexOf(CaseMap, c);
    if r.Some? {
      CaseMapAt(r.value);
    } else {
      IndexFromIsFirst(CaseMap, c, 0);
      CaseMapAt(2 * (c as nat - 'A' as nat));
    }
  }

  lemma CaseMapLower(c: char)
    requires 'a' <= c <= 'f'
    ensures IndexOf(CaseMap, c).Some? && IndexOf(CaseMap, c).value % 2 == 1
  {
    var r := IndexOf(CaseMap, c);
    if r.Some? {
      CaseMapAt(r.value);
    } else {
      IndexFromIsFirst(CaseMap, c, 0);
      CaseMapAt(2 * (c as nat - 'a' as nat) + 1);
    }
  }

  lemma CaseMapOther(c: char)
    requires !('A' <= c <= 'F') && !('a' <= c <= 'f')
    ensures IndexOf(CaseMap, c).None?
  {
    var r := IndexOf(CaseMap, c);
    if r.Some? {
      CaseMapAt(r.value);
    }
  }

  /** Looking a character up in xdigits yields its value exactly for the lower-case hexadecimal digits. */
  lemma XDigitsIndexOf(c: char)
    ensures IndexOf(XDigits, c) == if IsLowerHexDigit(c) then StandardDigit(c) else None
  {
    var r := IndexOf(XDigits, c);
    if r.Some? {
      XDigitsAt(r.value);
    } else if IsLowerHexDigit(c) {
      IndexFromIsFirst(XDigits, c, 0);
      XDigitsAt(StandardDigit(c).value);
    }
  }

  predicate AllDigits(s: string, digit: char -> Option<nat>) {
    forall i :: 0 <= i < |s| ==> digit(s[i]).Some?
  }

  /** The left fold value * 16 + digit over s. */
  function Fold(s: string, digit: char -> Option<nat>): nat
    requires AllDigits(s, digit)
    decreases |s|
  {
    if s == [] then 0 else Fold(s[..|s| - 1], digit) * 16 + digit(s[|s| - 1]).value
  }

  /** Parsing with a given digit table: no digits, some character without a value, or the fold. */
  function ParseWith(s: string, digit: char -> Option<nat>): Result<nat, Error> {
    if s == [] then Failure(NoDigits)
    else if !AllDigits(s, digit) then Failure(InvalidDigit)
    else Success(Fold(s, digit))
  }

  /** The result of convert_off_t, as written. */
  function ParseHex(s: string): Result<nat, Error> {
    ParseWith(s, DigitValue)
  }

  /**
   * convert_off_t: the do-while loop accumulating `value << 4 | digit`, which equals value * 16 + digit
   * for the non-negative values it builds, with digits looked up through the case table as written.
   */
  method ConvertOffT(hex: string) returns (r: Result<nat, Error>)
    ensures r == ParseHex(hex)
  {
    r := ConvertDigits(hex, DigitValue);
  }

  /** The loop of convert_off_t over an arbitrary digit lookup; it stops at the first character without a value. */
  method ConvertDigits(hex: string, digit: char -> Option<nat>) returns (r: Result<nat, Error>)
    ensures r == ParseWith(hex, digit)
  {
    var value: nat := 0;
    if |hex| == 0 {
      return Failure(NoDigits);
    }
    var i := 0;
    while true
      invariant 0 <= i < |hex|
      invariant AllDigits(hex[..i], digit) && value == Fold(hex[..i], digit)
      decreases |hex| - i
    {
      var found := digit(hex[i]);
      if found.None? {
        assert !AllDigits(hex, digit);
        return Failure(InvalidDigit);
      }
      assert hex[..i + 1] == hex[..i] + [hex[i]];
      FoldSnoc(hex[..i], hex[i], digit);
      value := value * 16 + found.value;
      i := i + 1;
      if i == |hex| {
        break;
      }
    }
    assert hex[..i] == hex;
    return Success(value);
  }

  /** convert_off_t fails exactly on the empty text and on text with a character that is no hexadecimal digit. */
  lemma ParseHexFailures(s: string)
    ensures ParseHex(s) == Failure(NoDigits) <==> s == []
    ensures ParseHex(s) == Failure(InvalidDigit) <==> s != [] && exists i :: 0 <= i < |s| && StandardDigit(s[i]).None?
  {
    assert forall i :: 0 <= i < |s| ==> (DigitValue(s[i]).None? <==> StandardDigit(s[i]).None?);
  }

  /** Appending one digit multiplies the folded value by 16 and adds the digit. */
  lemma FoldSnoc(p: string, c: char, digit: char -> Option<nat>)
    requires AllDigits(p, digit) && digit(c).Some?
    ensures AllDigits(p + [c], digit)
    ensures Fold(p + [c], digit) == Fold(p, digit) * 16 + digit(c).value
  {
    assert (p + [c])[..|p|] == p;
  }

  /** A digit table that gives every lower-case hexadecimal digit its conventional value. */
  ghost predicate ReadsLowerHex(digit: char -> Option<nat>) {
    forall c :: IsLowerHexDigit(c) ==> digit(c) == StandardDigit(c)
  }

  lemma XDigitCharValue(d: nat)
    requires d < 16
    ensures IsLowerHexDigit(XDigitChar(d)) && StandardDigit(XDigitChar(d)) == Some(d)
  {
  }

  lemma {:induction false} FormatThenParse(v: nat, digit: char -> Option<nat>)
    requires ReadsLowerHex(digit)
    ensures ParseWith(FormatHex(v), digit) == Success(v)
    decreases v
  {
    var p, d := if v >= 0x10 then FormatHex(v / 16) else [], v % 16;
    if v >= 0x10 {
      FormatThenParse(v / 16, digit);
    }
    XDigitCharValue(d);
    FoldSnoc(p, XDigitChar(d), digit);
    assert FormatHex(v) == p + [XDigitChar(d)];
  }

  /** A table that reads lower-case hexadecimal has a value for every character of a canonical text. */
  lemma CanonicalAllDigits(s: string, digit: char -> Option<nat>)
    requires Canonical(s) && ReadsLowerHex(digit)
    ensures AllDigits(s, digit)
  {
    forall i | 0 <= i < |s| ensures digit(s[i]).Some? {
      assert IsLowerHexDigit(s[i]);
    }
  }

  /** Dropping the last digit of a canonical text of two or more digits leaves a canonical text without a leading zero. */
  lemma CanonicalPrefix(s: string)
    requires Canonical(s) && |s| > 1
    ensures Canonical(s[..|s| - 1]) && s[..|s| - 1][0] != '0'
  {
    var p := s[..|s| - 1];
    assert forall i :: 0 <= i < |p| ==> p[i] == s[i];
  }

  /** A canonical text of two or more digits has a value of at least 16; one without a leading zero, of at least 1. */
  lemma {:induction false} FoldOfCanonical(s: string, digit: char -> Option<nat>)
    requires Canonical(s) && ReadsLowerHex(digit)
    ensures AllDigits(s, digit)
    ensures |s| > 1 ==> Fold(s, digit) >= 16
    ensures s[0] != '0' ==> Fold(s, digit) >= 1
    decreases |s|
  {
    CanonicalAllDigits(s, digit);
    var p, last := s[..|s| - 1], s[|s| - 1];
    assert IsLowerHexDigit(last) && digit(last) == StandardDigit(last);
    if |s| > 1 {
      CanonicalPrefix(s);
      FoldOfCanonical(p, digit);
    } else {
      assert p == [] && last == s[0];
    }
    assert Fold(s, digit) == Fold(p, digit) * 16 + digit(last).value;
  }

  lemma {:induction false} ParseThenFormat(s: string, digit: char -> Option<nat>)
    requires Canonical(s) && ReadsLowerHex(digit)
    ensures ParseWith(s, digit).Success? && FormatHex(ParseWith(s, digit).value) == s
    decreases |s|
  {
    FoldOfCanonical(s, digit);
    var v := Fold(s, digit);
    var p, last := s[..|s| - 1], s[|s| - 1];
    var d := StandardDigit(last).value;
    assert IsLowerHexDigit(last) && digit(last) == Some(d);
    assert XDigitChar(d) == last;
    if |s| > 1 {
      CanonicalPrefix(s);
      ParseThenFormat(p, digit);
      assert v == Fold(p, digit) * 16 + d;
      assert v / 16 == Fold(p, digit) && v % 16 == d;
      assert FormatHex(v) == p + [last];
    } else {
      assert p == [] && v == Fold(p, digit) * 16 + d;
      assert FormatHex(v) == [last];
    }
    assert s == p + [last];
  }

  lemma DigitValueReadsLowerHex()
    ensures ReadsLowerHex(DigitValue)
  {
    assert forall c :: IsLowerHexDigit(c) ==> DigitValue(c) == StandardDigit(c);
  }

  /** convert_off_t reads back what print_off_t writes. */
  lemma ParseFormatRoundTrip(v: nat)
    ensures ParseHex(FormatHex(v)) == Success(v)
  {
    DigitValueReadsLowerHex();
    FormatThenParse(v, DigitValue);
  }

  /** print_off_t writes back, character for character, any canonical text that convert_off_t has read. */
  lemma FormatParseRoundTrip(s: string)
    requires Canonical(s)
    ensures ParseHex(s).Success? && FormatHex(ParseHex(s).value) == s
  {
    DigitValueReadsLowerHex();
    ParseThenFormat(s, DigitValue);
  }

  // ---------------------------------------------------------------------------------------------
  // The evidently intended case mapping

  /** convert_off_t with the upper-case letter replaced by its own lower-case partner map[found + 1]. */
  function IntendedDigitValue(c: char): Option<nat> {
    var digit :=
      match IndexOf(CaseMap, c)
      case Some(found) =>
        if found % 2 == 0 then CaseMap[found + 1] else c
      case None => c;
    IndexOf(XDigits, digit)
  }

  lemma IntendedUpper(c: char)
    requires 'A' <= c <= 'F'
    ensures IntendedDigitValue(c) == StandardDigit(c)
  {
    CaseMapUpper(c);
    var found := IndexOf(CaseMap, c).value;
    CaseMapAt(found);
    CaseMapAt(found + 1);
    var lower := CaseMapChar(found + 1);
    assert lower == ('a' as int + (c as int - 'A' as int)) as char;
    XDigitsIndexOf(lower);
  }

  /** With the corrected mapping every hexadecimal digit of either case has its conventional value. */
  lemma IntendedDigitValueIsStandard(c: char)
    ensures IntendedDigitValue(c) == StandardDigit(c)
  {
    if 'A' <= c <= 'F' {
      IntendedUpper(c);
    } else if 'a' <= c <= 'f' {
      CaseMapLower(c);
      XDigitsIndexOf(c);
    } else {
      CaseMapOther(c);
      XDigitsIndexOf(c);
    }
  }

  function ParseHexIntended(s: string): Result<nat, Error> {
    ParseWith(s, IntendedDigitValue)
  }

  /** Two digit tables that agree on every character of s fold s alike. */
  lemma {:induction false} FoldsAgree(s: string, d1: char -> Option<nat>, d2: char -> Option<nat>)
    requires forall i :: 0 <= i < |s| ==> d1(s[i]) == d2(s[i])
    requires AllDigits(s, d1)
    ensures AllDigits(s, d2) && Fold(s, d1) == Fold(s, d2)
    decreases |s|
  {
    if s != [] {
      FoldsAgree(s[..|s| - 1], d1, d2);
    }
  }

  /** Two digit tables that agree on every character of s parse s alike. */
  lemma ParseWithAgree(s: string, d1: char -> Option<nat>, d2: char -> Option<nat>)
    requires forall i :: 0 <= i < |s| ==> d1(s[i]) == d2(s[i])
    ensures ParseWith(s, d1) == ParseWith(s, d2)
  {
    if AllDigits(s, d1) {
      FoldsAgree(s, d1, d2);
    }
  }

  /** The corrected parser reads hexadecimal of either case by its conventional digit values. */
  lemma ParseHexIntendedIsStandard(s: string)
    ensures ParseHexIntended(s) == ParseWith(s, StandardDigit)
  {
    forall i | 0 <= i < |s| ensures IntendedDigitValue(s[i]) == StandardDigit(s[i]) {
      IntendedDigitValueIsStandard(s[i]);
    }
    ParseWithAgree(s, IntendedDigitValue, StandardDigit);
  }

  /** On text without upper-case letters the code as written and the corrected code agree. */
  lemma ParseHexAgreesWithoutUpperCase(s: string)
    requires forall i :: 0 <= i < |s| ==> !('A' <= s[i] <= 'F')
    ensures ParseHex(s) == ParseHexIntended(s)
  {
    forall i | 0 <= i < |s| ensures DigitValue(s[i]) == IntendedDigitValue(s[i]) {
      IntendedDigitValueIsStandard(s[i]);
    }
    ParseWithAgree(s, DigitValue, IntendedDigitValue);
  }

  /** The corrected parser, too, reads back what print_off_t writes. */
  lemma IntendedParseFormatRoundTrip(v: nat)
    ensures ParseHexIntended(FormatHex(v)) == Success(v)
  {
    var s := FormatHex(v);
    forall i | 0 <= i < |s| ensures !('A' <= s[i] <= 'F') {
      assert IsLowerHexDigit(s[i]);
    }
    ParseHexAgreesWithoutUpperCase(s);
    ParseFormatRoundTrip(v);
  }

  lemma ParseTwoDigits(c1: char, c2: char, digit: char -> Option<nat>)
    requires digit(c1).Some? && digit(c2).Some?
    ensures ParseWith([c1], digit) == Success(digit(c1).value)
    ensures ParseWith([c1, c2], digit) == Success(digit(c1).value * 16 + digit(c2).value)
  {
    FoldSnoc([], c1, digit);
    FoldSnoc([c1], c2, digit);
    assert [] + [c1] == [c1] && [c1] + [c2] == [c1, c2];
  }

  /** The discrepancy, as written: "B" reads as 0xa and "FF" as 0xaa. */
  lemma UpperCaseReadsAsA()
    ensures ParseHex("B") == Success(0xa)
    ensures ParseHex("FF") == Success(0xaa)
  {
    assert DigitValue('B') == Some(10) && DigitValue('F') == Some(10);
    ParseTwoDigits('B', 'B', DigitValue);
    ParseTwoDigits('F', 'F', DigitValue);
  }

  /** The corrected case mapping reads "B" as 0xb and "FF" as 0xff. */
  lemma IntendedReadsUpperCase()
    ensures ParseHexIntended("B") == Success(0xb)
    ensures ParseHexIntended("FF") == Success(0xff)
  {
    IntendedDigitValueIsStandard('B');
    IntendedDigitValueIsStandard('F');
    assert IntendedDigitValue('B') == Some(11) && IntendedDigitValue('F') == Some(15);
    ParseTwoDigits('B', 'B', IntendedDigitValue);
    ParseTwoDigits('F', 'F', IntendedDigitValue);
  }
}
