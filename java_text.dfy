/** The pieces of java.lang text handling the client relies on: 64-bit decimal
    numbers (Long.toString, Long.parseLong) and String.split on a single space. */
module JavaText {
  import opened Outcomes

  const LongMin: int := -0x8000_0000_0000_0000
  const LongMax: int := 0x7FFF_FFFF_FFFF_FFFF

  predicate IsLong(n: int) { LongMin <= n <= LongMax }

  /** The largest Java int, and so the largest length a Java array can have. */
  const IntMax: int := 0x7FFF_FFFF

  /** Two's-complement addition of two Java longs. */
  function AddLong(a: int, b: int): (r: int)
    requires IsLong(a) && IsLong(b)
    ensures IsLong(r)
    ensures IsLong(a + b) ==> r == a + b
    ensures !IsLong(a + b) ==> r == a + b - 0x1_0000_0000_0000_0000 || r == a + b + 0x1_0000_0000_0000_0000
  {
    if a + b > LongMax then a + b - 0x1_0000_0000_0000_0000
    else if a + b < LongMin then a + b + 0x1_0000_0000_0000_0000
    else a + b
  }

  // ---------------------------------------------------------------- digits

  predicate IsDigit(c: char) { '0' <= c <= '9' }

  predicate AllDigits(s: string) { forall i :: 0 <= i < |s| ==> IsDigit(s[i]) }

  function DigitChar(d: nat): (c: char)
    requires d < 10
    ensures IsDigit(c)
  {
    ['0', '1', '2', '3', '4', '5', '6', '7', '8', '9'][d]
  }

  function DigitValue(c: char): (d: nat)
    requires IsDigit(c)
    ensures d < 10
  {
    (c as int - '0' as int) as nat
  }

  /** The value of a run of decimal digits, most significant first. */
  function DigitsValue(s: string): nat
    requires AllDigits(s)
  {
    if |s| == 0 then 0 else DigitsValue(s[..|s| - 1]) * 10 + DigitValue(s[|s| - 1])
  }

  /** The shortest decimal spelling of a natural number. */
  function NatDigits(n: nat): (s: string)
    ensures |s| >= 1 && AllDigits(s)
    ensures n > 0 ==> s[0] != '0'
  {
    if n < 10 then [DigitChar(n)] else NatDigits(n / 10) + [DigitChar(n % 10)]
  }

  lemma {:induction false} NatDigitsValue(n: nat)
    ensures DigitsValue(NatDigits(n)) == n
  {
    if n >= 10 {
      var s := NatDigits(n);
      assert s[..|s| - 1] == NatDigits(n / 10);
      NatDigitsValue(n / 10);
      assert DigitValue(DigitChar(n % 10)) == n % 10;
    } else {
      assert DigitValue(DigitChar(n)) == n;
    }
  }

  /** Long.toString(n) (and String.valueOf of an int): a '-' for negatives, then the digits. */
  function DecimalString(n: int): (s: string)
    ensures |s| >= 1
    ensures forall i :: 0 <= i < |s| ==> IsDigit(s[i]) || (i == 0 && s[i] == '-')
    ensures (s[0] == '-') <==> n < 0
  {
    if n < 0 then "-" + NatDigits(0 - n) else NatDigits(n)
  }

  /** The digit loop of Long.parseLong: the value of a run of decimal digits, None as soon as a
      character is not one. */
  function ReadDigits(s: string): Option<nat>
  {
    if |s| == 0 then Some(0)
    else if !IsDigit(s[|s| - 1]) then None
    else match ReadDigits(s[..|s| - 1])
         case None => None
         case Some(v) => Some(v * 10 + DigitValue(s[|s| - 1]))
  }

  /** The digit loop reads exactly the runs of digits, as the value DigitsValue gives them. */
  lemma {:induction false} ReadDigitsValue(s: string)
    ensures ReadDigits(s).Some? <==> AllDigits(s)
    ensures AllDigits(s) ==> ReadDigits(s) == Some(DigitsValue(s))
  {
    if |s| > 0 {
      var front := s[..|s| - 1];
      ReadDigitsValue(front);
      if AllDigits(s) {
        assert AllDigits(front) by {
          forall i | 0 <= i < |front| ensures IsDigit(front[i]) { assert front[i] == s[i]; }
        }
      } else if IsDigit(s[|s| - 1]) {
        assert !AllDigits(front);
      }
    }
  }

  /** Long.parseLong of Java 6: an optional '-', then at least one decimal digit, within the
      64-bit range; anything else (a leading '+' included) throws NumberFormatException (None). */
  function ParseLong(s: string): (r: Option<int>)
    ensures r.Some? ==> IsLong(r.value)
  {
    if |s| == 0 then None
    else if s[0] == '-' then
      if |s| < 2 then None
      else match ReadDigits(s[1..])
           case None => None
           case Some(d) => if d <= -LongMin then Some(0 - d) else None
    else match ReadDigits(s)
         case None => None
         case Some(d) => if d <= LongMax then Some(d) else None
  }

  /** Long.parseLong applied to each field in turn; None as soon as one of them throws. */
  function ParseLongs(fields: seq<string>): (r: Option<seq<int>>)
    ensures r.Some? ==> |r.value| == |fields|
  {
    if |fields| == 0 then Some([])
    else match ParseLong(fields[0])
         case None => None
         case Some(n) =>
           match ParseLongs(fields[1..])
           case None => None
           case Some(ns) => Some([n] + ns)
  }

  /** The fields parse exactly when each of them does, each to its own value. */
  lemma {:induction false} ParseLongsEach(fields: seq<string>)
    ensures ParseLongs(fields).Some? <==> forall i :: 0 <= i < |fields| ==> ParseLong(fields[i]).Some?
    ensures ParseLongs(fields).Some? ==>
      forall i :: 0 <= i < |fields| ==> Some(ParseLongs(fields).value[i]) == ParseLong(fields[i])
  {
    if |fields| > 0 {
      ParseLongsEach(fields[1..]);
      assert forall i :: 1 <= i < |fields| ==> fields[i] == fields[1..][i - 1];
    }
  }

  /** What Long.parseLong accepts: digits alone, or a '-' and at least one digit, whose value
      is a long; the value is the digits' value, negated after the '-'. */
  lemma ParseLongAccepts(s: string)
    ensures ParseLong(s).Some? <==>
      |s| >= 1 &&
      (if s[0] == '-'
       then |s| >= 2 && AllDigits(s[1..]) && IsLong(0 - DigitsValue(s[1..]))
       else AllDigits(s) && DigitsValue(s) <= LongMax)
    ensures ParseLong(s).Some? ==>
      ParseLong(s).value == (if s[0] == '-' then 0 - DigitsValue(s[1..]) else DigitsValue(s))
  {
    if |s| >= 2 {
      ReadDigitsValue(s[1..]);
    }
    ReadDigitsValue(s);
  }

  /** Printing a long and parsing it back gives the same long. */
  lemma ParseLongOfDecimal(n: int)
    requires IsLong(n)
    ensures ParseLong(DecimalString(n)) == Some(n)
  {
    if n < 0 {
      ParseLongOfNegative(n);
    } else {
      ParseLongOfNatural(n);
    }
  }

  lemma ParseLongOfNegative(n: int)
    requires LongMin <= n < 0
    ensures ParseLong(DecimalString(n)) == Some(n)
  {
    var s := DecimalString(n);
    assert s[0] == '-' && s[1..] == NatDigits(-n);
    ReadDigitsOfNat(-n);
    ParseLongOfMinus(s, -n);
  }

  /** A '-' followed by digits worth at most 2^63 parses to minus their value. */
  lemma ParseLongOfMinus(s: string, m: nat)
    requires |s| >= 2 && s[0] == '-' && ReadDigits(s[1..]) == Some(m) && m <= -LongMin
    ensures ParseLong(s) == Some(0 - m)
  {
  }

  lemma ParseLongOfNatural(n: nat)
    requires n <= LongMax
    ensures ParseLong(DecimalString(n)) == Some(n)
  {
    ReadDigitsOfNat(n);
  }

  /** The digit loop reads the decimal spelling of a natural number as that number. */
  lemma ReadDigitsOfNat(m: nat)
    ensures ReadDigits(NatDigits(m)) == Some(m)
  {
    NatDigitsValue(m);
    ReadDigitsValue(NatDigits(m));
  }

  // ---------------------------------------------------------------- splitting

  /** The text between the spaces of s, every space a separator (empty pieces kept). */
  function Pieces(s: string): (r: seq<string>)
    ensures |r| >= 1
  {
    if |s| == 0 then [""]
    else if s[0] == ' ' then [""] + Pieces(s[1..])
    else var rest := Pieces(s[1..]); [[s[0]] + rest[0]] + rest[1..]
  }

  /** The pieces without the empty ones at the end. */
  function DropTrailingEmpty(fs: seq<string>): seq<string>
  {
    if |fs| == 0 then []
    else if fs[|fs| - 1] == "" then DropTrailingEmpty(fs[..|fs| - 1])
    else fs
  }

  /** String.split("[ ]"): the pieces between spaces, with the empty pieces at the end removed;
      the empty string splits into itself. */
  function Split(s: string): seq<string>
  {
    if s == "" then [s] else DropTrailingEmpty(Pieces(s))
  }

  /** The fields joined by single spaces. */
  function Join(fs: seq<string>): string
    requires |fs| >= 1
  {
    if |fs| == 1 then fs[0] else fs[0] + " " + Join(fs[1..])
  }

  predicate NoSpace(s: string) { ' ' !in s }

  lemma {:induction false} PiecesOfPrefix(x: string, rest: string)
    requires NoSpace(x)
    ensures Pieces(x + " " + rest) == [x] + Pieces(rest)
  {
    if |x| == 0 {
      assert x + " " + rest == [' '] + rest;
      assert (x + " " + rest)[1..] == rest;
    } else {
      assert (x + " " + rest)[1..] == x[1..] + " " + rest;
      PiecesOfPrefix(x[1..], rest);
      assert [x[0]] + x[1..] == x;
    }
  }

  lemma {:induction false} PiecesOfNoSpace(x: string)
    requires NoSpace(x)
    ensures Pieces(x) == [x]
  {
    if |x| > 0 {
      PiecesOfNoSpace(x[1..]);
      assert [x[0]] + x[1..] == x;
    }
  }

  lemma {:induction false} PiecesOfJoin(fs: seq<string>)
    requires |fs| >= 1
    requires forall i :: 0 <= i < |fs| ==> NoSpace(fs[i])
    ensures Pieces(Join(fs)) == fs
  {
    if |fs| == 1 {
      PiecesOfNoSpace(fs[0]);
    } else {
      PiecesOfPrefix(fs[0], Join(fs[1..]));
      PiecesOfJoin(fs[1..]);
    }
  }

  lemma {:induction false} JoinHasSpace(fs: seq<string>)
    requires |fs| >= 2
    ensures ' ' in Join(fs)
  {
    var j := Join(fs);
    assert j == fs[0] + " " + Join(fs[1..]);
    assert j[|fs[0]|] == ' ';
  }

  /** Splitting the space-joined fields gives the fields back, provided none of them holds a
      space and a trailing empty field does not get dropped. */
  lemma SplitOfJoin(fs: seq<string>)
    requires |fs| >= 1
    requires forall i :: 0 <= i < |fs| ==> NoSpace(fs[i])
    requires |fs| >= 2 ==> fs[|fs| - 1] != ""
    ensures Split(Join(fs)) == fs
  {
    PiecesOfJoin(fs);
    if |fs| == 1 {
      assert Join(fs) == fs[0];
    } else {
      JoinHasSpace(fs);
      assert DropTrailingEmpty(fs) == fs;
    }
  }
}
