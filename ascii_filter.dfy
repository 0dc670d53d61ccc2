/**
 * The character filters the program applies to the ASCII replies of the
 * meters before handing the rest to a number parser, and the three parsers
 * built on them.
 *
 * `char.IsDigit` is modelled for the ASCII digits '0'..'9' only. The number
 * parsers themselves (`decimal.TryParse` and `double.TryParse` with
 * `NumberStyles.Any`) are parameters: a function from the filtered text to
 * the number it denotes, or `None` when the text does not parse.
 */
module AsciiFilter {
  import opened Bytes

  /** `char.IsDigit`, restricted to ASCII. */
  predicate IsDigit(c: char) {
    '0' <= c <= '9'
  }

  /** The characters `ParsePressureValue` and `ParseCurrentValue` keep. */
  predicate IsNumericChar(c: char) {
    IsDigit(c) || c == '.' || c == '-' || c == '+'
  }

  /** The characters `ParseReceivedData` keeps: no '+'. */
  predicate IsReceivedNumericChar(c: char) {
    IsDigit(c) || c == '.' || c == '-'
  }

  /** LINQ's `Where` on a string: the characters satisfying `keep`, in their order. */
  function Where(s: string, keep: char -> bool): (r: string)
    ensures |r| <= |s|
    ensures forall i :: 0 <= i < |r| ==> keep(r[i])
  {
    if s == [] then []
    else (if keep(s[0]) then [s[0]] else []) + Where(s[1..], keep)
  }

  /** Filtering a concatenation filters each part. */
  lemma {:induction false} WhereAppend(a: string, b: string, keep: char -> bool)
    ensures Where(a + b, keep) == Where(a, keep) + Where(b, keep)
  {
    if a == [] {
      assert a + b == b;
    } else {
      assert (a + b)[0] == a[0];
      assert (a + b)[1..] == a[1..] + b;
      WhereAppend(a[1..], b, keep);
    }
  }

  /** The filter keeps every occurrence of a kept character and none of a dropped one. */
  lemma {:induction false} WhereCounts(s: string, keep: char -> bool, c: char)
    ensures multiset(Where(s, keep))[c] == if keep(c) then multiset(s)[c] else 0
  {
    if s != [] {
      assert s == [s[0]] + s[1..];
      WhereCounts(s[1..], keep, c);
    }
  }

  /** Text made only of kept characters passes unchanged, and only such text does. */
  lemma {:induction false} WhereKeepsAll(s: string, keep: char -> bool)
    ensures Where(s, keep) == s <==> forall i :: 0 <= i < |s| ==> keep(s[i])
  {
    if s != [] {
      WhereKeepsAll(s[1..], keep);
      if !keep(s[0]) {
        assert |Where(s, keep)| < |s|;
      } else if Where(s, keep) == s {
        assert Where(s[1..], keep) == s[1..];
      }
    }
  }

  /** Filtering twice is filtering once. */
  lemma WhereIdempotent(s: string, keep: char -> bool)
    ensures Where(Where(s, keep), keep) == Where(s, keep)
  {
    WhereKeepsAll(Where(s, keep), keep);
  }

  /** A dropped character anywhere in the text changes nothing. */
  lemma DroppedCharIgnored(a: string, c: char, b: string, keep: char -> bool)
    requires !keep(c)
    ensures Where(a + [c] + b, keep) == Where(a + b, keep)
  {
    WhereAppend(a + [c], b, keep);
    WhereAppend(a, [c], keep);
    WhereAppend(a, b, keep);
    assert Where([c], keep) == [];
  }

  /** Filtering by a laxer predicate first and a stricter one after is filtering by the stricter one. */
  lemma {:induction false} WhereNarrowing(s: string, lax: char -> bool, strict: char -> bool)
    requires forall c :: strict(c) ==> lax(c)
    ensures Where(Where(s, lax), strict) == Where(s, strict)
  {
    if s != [] {
      WhereNarrowing(s[1..], lax, strict);
      var head := if lax(s[0]) then [s[0]] else [];
      WhereAppend(head, Where(s[1..], lax), strict);
    }
  }

  /** `ParseReceivedData`'s filter is the meters' filter with the '+' removed. */
  lemma ReceivedFilterDropsPlus(s: string)
    ensures Where(s, IsReceivedNumericChar) == Where(Where(s, IsNumericChar), IsReceivedNumericChar)
    ensures Where(Where(s, IsNumericChar), IsReceivedNumericChar) == Where(Where(s, IsNumericChar), c => c != '+')
  {
    WhereNarrowing(s, IsNumericChar, IsReceivedNumericChar);
    SameFilterOn(Where(s, IsNumericChar), IsReceivedNumericChar, c => c != '+');
  }

  /** Two predicates that agree on every character of the text filter it alike. */
  lemma {:induction false} SameFilterOn(s: string, p: char -> bool, q: char -> bool)
    requires forall i :: 0 <= i < |s| ==> (p(s[i]) <==> q(s[i]))
    ensures Where(s, p) == Where(s, q)
  {
    if s != [] {
      SameFilterOn(s[1..], p, q);
    }
  }

  /** What `ParsePressureValue` shows: the value in the format "F2", or the invalid-response text. */
  datatype PressureText = Pressure(value: real) | InvalidResponse

  /**
   * `ParsePressureValue`: keep the digits, '.', '-' and '+', parse the rest
   * as a decimal; the text is the value when it parses and the
   * invalid-response sentinel when it does not.
   */
  function ParsePressureValue(response: string, tryParseDecimal: string -> Option<real>): (r: PressureText)
    ensures r == InvalidResponse <==> tryParseDecimal(Where(response, IsNumericChar)) == None
    ensures r.Pressure? ==> tryParseDecimal(Where(response, IsNumericChar)) == Some(r.value)
  {
    var numericPart := Where(response, IsNumericChar);
    match tryParseDecimal(numericPart)
    case Some(pressureValue) => Pressure(pressureValue)
    case None => InvalidResponse
  }

  /**
   * `ParseCurrentValue`: the same filter, parsed as a double; 0.0 when the
   * filtered text does not parse.
   */
  function ParseCurrentValue(response: string, tryParseDouble: string -> Option<real>): (r: real)
    ensures tryParseDouble(Where(response, IsNumericChar)) == None ==> r == 0.0
    ensures tryParseDouble(Where(response, IsNumericChar)) != None ==>
      Some(r) == tryParseDouble(Where(response, IsNumericChar))
  {
    var numericPart := Where(response, IsNumericChar);
    match tryParseDouble(numericPart)
    case Some(currentValue) => currentValue
    case None => 0.0
  }

  /** What `ParseReceivedData` does with a line from port 2. */
  datatype ReceivedCurrent =
    | NoCurrentInfo     // no '=' in the line
    | ParseFailed       // the filtered text does not parse
    | Current(milliamps: real)

  /**
   * `ParseReceivedData`: a line without '=' carries no current; otherwise
   * keep the digits, '.' and '-' and parse the rest as a double.
   */
  function ParseReceivedData(data: string, tryParseDouble: string -> Option<real>): (r: ReceivedCurrent)
    ensures r == NoCurrentInfo <==> '=' !in data
    ensures r == ParseFailed <==> '=' in data && tryParseDouble(Where(data, IsReceivedNumericChar)) == None
    ensures r.Current? ==> tryParseDouble(Where(data, IsReceivedNumericChar)) == Some(r.milliamps)
  {
    if '=' in data then
      var numericPart := Where(data, IsReceivedNumericChar);
      match tryParseDouble(numericPart)
      case Some(currentValue) => Current(currentValue)
      case None => ParseFailed
    else NoCurrentInfo
  }

  /** Inserting a character the meters' filter drops changes neither meter reading. */
  lemma MeterParsersIgnoreNoise(a: string, c: char, b: string, tryParse: string -> Option<real>)
    requires !IsNumericChar(c)
    ensures ParsePressureValue(a + [c] + b, tryParse) == ParsePressureValue(a + b, tryParse)
    ensures ParseCurrentValue(a + [c] + b, tryParse) == ParseCurrentValue(a + b, tryParse)
  {
    DroppedCharIgnored(a, c, b, IsNumericChar);
  }

  /** Inserting a '+' into a port 2 line changes nothing: `ParseReceivedData` drops it. */
  lemma ReceivedDataIgnoresPlus(a: string, b: string, tryParse: string -> Option<real>)
    ensures ParseReceivedData(a + ['+'] + b, tryParse) == ParseReceivedData(a + b, tryParse)
  {
    DroppedCharIgnored(a, '+', b, IsReceivedNumericChar);
    assert ('=' in a + ['+'] + b) <==> ('=' in a + b) by {
      assert a + ['+'] + b == a + (['+'] + b);
      assert multiset(a + ['+'] + b)['='] == multiset(a + b)['='];
    }
  }

  /** Text made only of dropped characters filters to nothing. */
  lemma {:induction false} WhereDropsAll(s: string, keep: char -> bool)
    requires forall i :: 0 <= i < |s| ==> !keep(s[i])
    ensures Where(s, keep) == []
  {
    if s != [] {
      WhereDropsAll(s[1..], keep);
    }
  }

  /** A number between a tag and a unit made of dropped characters is all that passes. */
  lemma NumberAmidNoise(tag: string, number: string, unit: string, keep: char -> bool)
    requires forall i :: 0 <= i < |tag| ==> !keep(tag[i])
    requires forall i :: 0 <= i < |number| ==> keep(number[i])
    requires forall i :: 0 <= i < |unit| ==> !keep(unit[i])
    ensures Where(tag + number + unit, keep) == number
  {
    WhereDropsAll(tag, keep);
    WhereDropsAll(unit, keep);
    WhereKeepsAll(number, keep);
    WhereAppend(tag + number, unit, keep);
    WhereAppend(tag, number, keep);
  }

  /** A meter reply "P=+12.34 mA" reaches the meters' parsers as "+12.34". */
  lemma MeterFilterExample()
    ensures Where("P=" + "+12.34" + " mA", IsNumericChar) == "+12.34"
  {
    NumberAmidNoise("P=", "+12.34", " mA", IsNumericChar);
  }

  /** The same reply reaches `ParseReceivedData`'s parser as "12.34". */
  lemma ReceivedFilterExample()
    ensures Where("P=+" + "12.34" + " mA", IsReceivedNumericChar) == "12.34"
  {
    NumberAmidNoise("P=+", "12.34", " mA", IsReceivedNumericChar);
  }
}
