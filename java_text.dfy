/**
  The pieces of java.lang.String and java.lang.Long the session handler relies on:
  `startsWith`, `split` on a one-character separator, and `Long.parseLong`.
*/
module JavaText {
  import opened Wrappers
  import opened Decimal

  predicate StartsWith(s: string, prefix: string) {
    |prefix| <= |s| && s[..|prefix|] == prefix
  }

  /**
    Every piece between separators, including empty ones: "a&&b&" gives "a", "", "b", "".
    This is the split before Java drops anything.
  */
  function SplitAll(s: string, sep: char): (parts: seq<string>)
    ensures |parts| >= 1
    ensures forall i :: 0 <= i < |parts| ==> sep !in parts[i]
  {
    if s == [] then [""]
    else
      var parts := SplitAll(s[..|s| - 1], sep);
      var last := s[|s| - 1];
      if last == sep then parts + [""]
      else parts[..|parts| - 1] + [parts[|parts| - 1] + [last]]
  }

  /** The pieces put back together with the separator between them. */
  function Join(parts: seq<string>, sep: char): string
    requires |parts| >= 1
  {
    if |parts| == 1 then parts[0] else Join(parts[..|parts| - 1], sep) + [sep] + parts[|parts| - 1]
  }

  /** Splitting loses nothing: joining the pieces gives the text back. */
  lemma {:induction false} JoinSplitAll(s: string, sep: char)
    ensures Join(SplitAll(s, sep), sep) == s
  {
    if s != [] {
      var init := s[..|s| - 1];
      JoinSplitAll(init, sep);
      assert s == init + [s[|s| - 1]];
      if s[|s| - 1] == sep {
        JoinAppendEmpty(SplitAll(init, sep), sep);
      } else {
        JoinExtendLast(SplitAll(init, sep), sep, s[|s| - 1]);
      }
    }
  }

  /** A new empty piece adds one separator. */
  lemma JoinAppendEmpty(parts: seq<string>, sep: char)
    requires |parts| >= 1
    ensures Join(parts + [""], sep) == Join(parts, sep) + [sep]
  {
    assert (parts + [""])[..|parts|] == parts;
  }

  /** A character added to the last piece is added to the end of the text. */
  lemma JoinExtendLast(parts: seq<string>, sep: char, c: char)
    requires |parts| >= 1
    ensures Join(parts[..|parts| - 1] + [parts[|parts| - 1] + [c]], sep) == Join(parts, sep) + [c]
  {
    var r := parts[..|parts| - 1] + [parts[|parts| - 1] + [c]];
    if |parts| > 1 {
      assert r[..|r| - 1] == parts[..|parts| - 1];
    }
  }

  function DropTrailingEmpty(parts: seq<string>): (r: seq<string>)
    ensures |r| <= |parts| && r == parts[..|r|]
    ensures forall i :: |r| <= i < |parts| ==> parts[i] == ""
    ensures r != [] ==> r[|r| - 1] != ""
  {
    if parts == [] then []
    else if parts[|parts| - 1] == "" then DropTrailingEmpty(parts[..|parts| - 1])
    else parts
  }

  /**
    `s.split(String.valueOf(sep))`: the whole text when the separator does not occur, otherwise
    the pieces without the trailing empty ones (so "&" gives no piece at all).
  */
  function JavaSplit(s: string, sep: char): (parts: seq<string>)
  {
    if sep !in s then [s] else DropTrailingEmpty(SplitAll(s, sep))
  }

  /** Java's split keeps a prefix of all the pieces and drops only empty ones. */
  lemma JavaSplitIsPrefix(s: string, sep: char)
    ensures |JavaSplit(s, sep)| <= |SplitAll(s, sep)|
    ensures JavaSplit(s, sep) == SplitAll(s, sep)[..|JavaSplit(s, sep)|]
    ensures forall i :: |JavaSplit(s, sep)| <= i < |SplitAll(s, sep)| ==> SplitAll(s, sep)[i] == ""
  {
    if sep !in s {
      NoSeparatorOnePiece(s, sep);
    }
  }

  lemma {:induction false} NoSeparatorOnePiece(s: string, sep: char)
    requires sep !in s
    ensures SplitAll(s, sep) == [s]
  {
    if s != [] {
      NoSeparatorOnePiece(s[..|s| - 1], sep);
      assert s == s[..|s| - 1] + [s[|s| - 1]];
    }
  }

  const LongMin: int := -0x8000_0000_0000_0000
  const LongMax: int := 0x7fff_ffff_ffff_ffff

  /** The digits after an optional leading sign. */
  function Unsigned(s: string): string
  {
    if |s| > 0 && (s[0] == '-' || s[0] == '+') then s[1..] else s
  }

  /** The value a sign and a run of digits denote, the sign being '-' or absent / '+'. */
  function SignedValue(s: string): int
    requires AllDigits(Unsigned(s))
  {
    if |s| > 0 && s[0] == '-' then 0 - DigitsValue(Unsigned(s)) as int else DigitsValue(Unsigned(s)) as int
  }

  /**
    `Long.parseLong(s)`: an optional '-' or '+', then at least one decimal digit, with the value
    in the range of a 64-bit long; anything else throws NumberFormatException (None).
  */
  function ParseLong(s: string): (r: Option<int>)
    ensures r.Some? ==> LongMin <= r.value <= LongMax
    ensures r.Some? <==> |Unsigned(s)| >= 1 && AllDigits(Unsigned(s)) && LongMin <= SignedValue(s) <= LongMax
    ensures r.Some? ==> r.value == SignedValue(s)
  {
    var digits := Unsigned(s);
    if |digits| == 0 || !AllDigits(digits) then None
    else
      var v := if s[0] == '-' then 0 - DigitsValue(digits) as int else DigitsValue(digits) as int;
      if LongMin <= v <= LongMax then Some(v) else None
  }

  /** `Long.toString(v)`. */
  function LongToString(v: int): string
  {
    if v < 0 then "-" + NatToString(-v) else NatToString(v)
  }

  /** Every long survives printing and parsing back. */
  lemma ParseLongToString(v: int)
    requires LongMin <= v <= LongMax
    ensures ParseLong(LongToString(v)) == Some(v)
  {
    var s := LongToString(v);
    if v < 0 {
      NatToStringValue(-v);
      assert Unsigned(s) == NatToString(-v);
      assert SignedValue(s) == v;
    } else {
      NatToStringValue(v);
      assert Unsigned(s) == NatToString(v) by {
        assert s[0] != '-' && s[0] != '+';
      }
      assert SignedValue(s) == v;
    }
  }

  /** A leading '+' and leading zeros are accepted. */
  lemma ParseLongAccepts()
    ensures ParseLong("+5") == Some(5)
    ensures ParseLong("007") == Some(7)
    ensures ParseLong("-12") == Some(-12)
  {
    assert Unsigned("+5") == "5";
    assert DigitsValue("5") == 5;
    assert DigitsValue("007") == 7 by {
      assert "007"[..2] == "00";
      assert "00"[..1] == "0";
    }
    assert Unsigned("-12") == "12";
    assert DigitsValue("12") == 12 by { assert "12"[..1] == "1"; }
  }

  /** An empty digit run, a bare sign or a letter makes `parseLong` throw. */
  lemma ParseLongRejects()
    ensures ParseLong("") == None
    ensures ParseLong("-") == None
    ensures ParseLong("1a") == None
  {
    assert Unsigned("-") == "";
    assert !IsDigit("1a"[1]);
  }
}
