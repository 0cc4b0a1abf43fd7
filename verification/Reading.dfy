/** What hexadecimal strings and decimal numerals spell, and which strings are read. */
module Reading {
  import opened Bytes

  const LOWER_DIGITS: string := "0123456789abcdef"
  const UPPER_DIGITS: string := "0123456789ABCDEF"

  lemma {:induction false} HexDigitIs(d: nat)
    requires d < 16
    ensures HexDigit(d) == LOWER_DIGITS[d]
  {
  }

  /** Digits of either case are read, and nothing else. */
  lemma {:induction false} HexValueIs(c: char)
    ensures var v := HexValue(c);
            && (v.Some? ==> c == LOWER_DIGITS[v.value] || c == UPPER_DIGITS[v.value])
            && (v == None ==> c !in LOWER_DIGITS && c !in UPPER_DIGITS)
  {
  }

  /** Two lower-case digits per byte, the high one first. */
  lemma {:induction false} HexAt(b: Bytes, i: nat)
    requires i < |b|
    ensures |Hex(b)| == 2 * |b|
    ensures Hex(b)[2 * i] == LOWER_DIGITS[b[i] as nat / 16] && Hex(b)[2 * i + 1] == LOWER_DIGITS[b[i] as nat % 16]
  {
    HexDigitIs(b[i] as nat / 16);
    HexDigitIs(b[i] as nat % 16);
    if i > 0 {
      HexAt(b[1..], i - 1);
    } else if |b| > 1 {
      HexAt(b[1..], 0);
    }
  }

  lemma {:induction false} SpacesAre(c: char)
    ensures IsSpace(c) <==> 9 <= c as int <= 13 || c as int == 32
  {
    if 9 <= c as int <= 13 || c as int == 32 {
      assert c in [' ', '\t', '\n', '\r', 11 as char, 12 as char];
    }
  }

  ghost predicate AllDigits(s: string) {
    forall i :: 0 <= i < |s| ==> HexValue(s[i]).Some?
  }

  lemma {:induction false} AllDigitsTail(s: string)
    requires |s| >= 2
    ensures AllDigits(s) <==> HexValue(s[0]).Some? && HexValue(s[1]).Some? && AllDigits(s[2..])
  {
    var t := s[2..];
    assert forall i :: 2 <= i < |s| ==> s[i] == t[i - 2];
  }

  /** Without blanks, exactly the strings of whole digit pairs are accepted. */
  lemma {:induction false} FromHexIff(s: string)
    requires forall i :: 0 <= i < |s| ==> !IsSpace(s[i])
    ensures FromHex(s).Some? <==> |s| % 2 == 0 && AllDigits(s)
    ensures FromHex(s).Some? ==> |s| == 2 * |FromHex(s).value|
  {
    if |s| >= 2 {
      FromHexIff(s[2..]);
      AllDigitsTail(s);
    }
  }

  /** Each pair of digits spells its byte. */
  lemma {:induction false} FromHexAt(s: string, i: nat)
    requires AllDigits(s) && |s| % 2 == 0 && 2 * i + 1 < |s|
    ensures var b := FromHex(s);
            b.Some? && i < |b.value| && b.value[i] as nat == 16 * HexValue(s[2 * i]).value + HexValue(s[2 * i + 1]).value
  {
    assert HexValue(s[0]).Some? && HexValue(s[1]).Some?;
    AllDigitsTail(s);
    DigitsAreNoBlanks(s);
    FromHexIff(s);
    if i > 0 {
      FromHexAt(s[2..], i - 1);
    }
  }

  lemma {:induction false} DigitsAreNoBlanks(s: string)
    requires AllDigits(s)
    ensures forall i :: 0 <= i < |s| ==> !IsSpace(s[i])
  {
    forall i | 0 <= i < |s| ensures !IsSpace(s[i]) {
      assert HexValue(s[i]).Some?;
      assert s[i] as int >= 48;
    }
  }

  /** A blank between pairs is skipped, one inside a pair is not. */
  lemma {:induction false} FromHexBlanks(c: char, d: char, s: string)
    requires IsSpace(c)
    ensures FromHex([c] + s) == FromHex(s)
    ensures !IsSpace(d) ==> FromHex([d, c] + s) == None
  {
    assert ([c] + s)[1..] == s;
    assert c as int < 48;
    assert HexValue(c) == None;
  }

  /** The number that digits spell, most significant first. */
  function DecimalValue(s: string): int {
    if s == "" then 0 else 10 * DecimalValue(s[..|s| - 1]) + s[|s| - 1] as int - '0' as int
  }

  /** A numeral spells its number, without leading zeros. */
  lemma {:induction false} DecimalSpells(n: nat)
    ensures DecimalValue(Decimal(n)) == n && (n > 0 ==> Decimal(n)[0] as int != 48)
  {
    var s := Decimal(n);
    assert s[|s| - 1] == '0' + (n % 10) as char;
    if n >= 10 {
      DecimalSpells(n / 10);
      assert s[..|s| - 1] == Decimal(n / 10);
    } else {
      assert s[..|s| - 1] == "";
    }
  }
}
