/**
 * The recipient key ids of the OpenPGPCrypto constructor: the preference
 * string is split on "," (String.split, which drops trailing empty fields)
 * and every field is read with Long.parseLong.
 */
module KeyIds {
  import opened Wrappers

  /** The range of a Java long. */
  const LongMin: int := -0x8000_0000_0000_0000
  const LongMax: int := 0x7FFF_FFFF_FFFF_FFFF

  /** Every field of `s` between commas, empty ones included. */
  function Fields(s: string): (r: seq<string>)
    ensures |r| >= 1
    ensures forall k :: 0 <= k < |r| ==> ',' !in r[k]
  {
    if s == [] then [""]
    else if s[0] == ',' then [""] + Fields(s[1..])
    else
      var rest := Fields(s[1..]);
      [[s[0]] + rest[0]] + rest[1..]
  }

  /** The inverse of Fields: the fields separated by commas. */
  function Join(parts: seq<string>): string
    requires |parts| >= 1
  {
    if |parts| == 1 then parts[0] else parts[0] + "," + Join(parts[1..])
  }

  /** `parts` without its trailing empty strings. */
  function DropTrailingEmpty(parts: seq<string>): (r: seq<string>)
    ensures |r| <= |parts| && r == parts[..|r|]
    ensures r == [] || r[|r| - 1] != ""
    ensures forall k :: |r| <= k < |parts| ==> parts[k] == ""
  {
    if parts == [] || parts[|parts| - 1] != "" then parts
    else DropTrailingEmpty(parts[..|parts| - 1])
  }

  /**
   * keyIdsStr.split(","): the whole string (even an empty one) when it has
   * no comma, otherwise its fields without the trailing empty ones. Either
   * way the pieces are the leading fields, and only empty fields are lost.
   */
  function SplitOnComma(s: string): (r: seq<string>)
    ensures ',' !in s ==> r == [s]
    ensures ',' in s ==> r == [] || r[|r| - 1] != ""
    ensures |r| <= |Fields(s)| && r == Fields(s)[..|r|]
    ensures forall k :: |r| <= k < |Fields(s)| ==> Fields(s)[k] == ""
  {
    if ',' !in s then FieldsNoComma(s); [s] else DropTrailingEmpty(Fields(s))
  }

  /** Joining the fields of a string gives the string back. */
  lemma {:induction false} JoinFields(s: string)
    ensures Join(Fields(s)) == s
  {
    if s == [] {
    } else if s[0] == ',' {
      JoinFields(s[1..]);
      assert s == [','] + s[1..];
    } else {
      var rest := Fields(s[1..]);
      JoinFields(s[1..]);
      if |rest| > 1 {
        assert Fields(s)[1..] == rest[1..];
      }
      assert s == [s[0]] + s[1..];
    }
  }

  /** A string without a comma is its own single field. */
  lemma {:induction false} FieldsNoComma(s: string)
    requires ',' !in s
    ensures Fields(s) == [s]
  {
    if s != [] {
      FieldsNoComma(s[1..]);
      assert s == [s[0]] + s[1..];
    }
  }

  /** The last field of a string that does not end in a comma is not empty. */
  lemma {:induction false} LastFieldNonEmpty(s: string)
    requires s != [] && s[|s| - 1] != ','
    ensures Fields(s)[|Fields(s)| - 1] != ""
  {
    var rest := Fields(s[1..]);
    if s[0] == ',' {
      LastFieldNonEmpty(s[1..]);
    } else if |rest| > 1 {
      LastFieldNonEmpty(s[1..]);
    }
  }

  /**
   * Unless the preference ends in a comma, split loses nothing: its pieces
   * are exactly the comma-separated fields and join back to the string.
   */
  lemma SplitOnCommaExact(s: string)
    requires s == [] || s[|s| - 1] != ','
    ensures SplitOnComma(s) == Fields(s)
    ensures Join(SplitOnComma(s)) == s
  {
    if ',' !in s {
      FieldsNoComma(s);
    } else {
      LastFieldNonEmpty(s);
    }
    JoinFields(s);
  }

  predicate IsDigit(c: char)
  {
    '0' <= c <= '9'
  }

  predicate AllDigits(s: string)
  {
    forall k :: 0 <= k < |s| ==> IsDigit(s[k])
  }

  /** The value of a string of decimal digits, most significant first. */
  function DigitsValue(s: string): nat
    requires AllDigits(s)
  {
    if s == [] then 0 else DigitsValue(s[..|s| - 1]) * 10 + (s[|s| - 1] - '0') as int
  }

  /**
   * Long.parseLong for ASCII decimal text: an optional '-' or '+', at least one
   * digit, and a value within the range of a long; None where it throws
   * NumberFormatException.
   */
  function ParseLong(s: string): (r: Option<int>)
    ensures r.Some? ==> LongMin <= r.value <= LongMax
    ensures r.Some? ==> |s| > 0 && (r.value < 0 ==> s[0] == '-')
    ensures var digits := if |s| > 0 && (s[0] == '-' || s[0] == '+') then s[1..] else s;
      r.Some? <==> digits != [] && AllDigits(digits) && LongMin <= (if s[0] == '-' then 0 - DigitsValue(digits) as int else DigitsValue(digits)) <= LongMax
    ensures var digits := if |s| > 0 && (s[0] == '-' || s[0] == '+') then s[1..] else s;
      r.Some? ==> r.value == if s[0] == '-' then 0 - DigitsValue(digits) as int else DigitsValue(digits)
  {
    var signed := |s| > 0 && (s[0] == '-' || s[0] == '+');
    var digits := if signed then s[1..] else s;
    if digits == [] || !AllDigits(digits) then None
    else
      var v: int := if signed && s[0] == '-' then 0 - DigitsValue(digits) as int else DigitsValue(digits);
      if LongMin <= v <= LongMax then Some(v) else None
  }

  /** The decimal text of `n`, without sign or leading zeros. */
  function Decimal(n: nat): (s: string)
    ensures |s| >= 1 && AllDigits(s)
  {
    var d := ['0' + (n % 10) as char];
    if n < 10 then d else Decimal(n / 10) + d
  }

  lemma {:induction false} DecimalValue(n: nat)
    ensures DigitsValue(Decimal(n)) == n
  {
    if n >= 10 {
      DecimalValue(n / 10);
      var s := Decimal(n);
      assert s[..|s| - 1] == Decimal(n / 10);
    }
  }

  /** Every long, written in decimal, parses back to itself. */
  lemma ParseDecimal(n: int)
    requires LongMin <= n <= LongMax
    ensures n >= 0 ==> ParseLong(Decimal(n)) == Some(n)
    ensures n < 0 ==> ParseLong("-" + Decimal(-n)) == Some(n)
  {
    if n >= 0 {
      DecimalValue(n);
    } else {
      DecimalValue(-n);
      assert ("-" + Decimal(-n))[1..] == Decimal(-n);
    }
  }

  /**
   * The key-id loop of the constructor: an array as long as the split
   * preference, filled field by field with Long.parseLong; None where a
   * field does not parse (the constructor throws).
   */
  method ParseKeyIds(keyIdsStr: string) returns (r: Option<seq<int>>)
    ensures r.Some? ==> |r.value| == |SplitOnComma(keyIdsStr)|
    ensures r.Some? ==> forall k :: 0 <= k < |r.value| ==> ParseLong(SplitOnComma(keyIdsStr)[k]) == Some(r.value[k])
    ensures r.None? ==> exists k :: 0 <= k < |SplitOnComma(keyIdsStr)| && ParseLong(SplitOnComma(keyIdsStr)[k]).None?
  {
    var pieces := SplitOnComma(keyIdsStr);
    var ids := new int[|pieces|];
    for i := 0 to |pieces|
      invariant forall k :: 0 <= k < i ==> ParseLong(pieces[k]) == Some(ids[..i][k])
    {
      var v := ParseLong(pieces[i]);
      if v.None? {
        return None;
      }
      ghost var before := ids[..i];
      ids[i] := v.value;
      assert ids[..i + 1] == before + [v.value];
    }
    return Some(ids[..]);
  }
}
