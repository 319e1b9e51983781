/** Room names: the decimal rendering of the floor number followed by one character,
    as the string interpolation in the Floor constructor produces them. */
module Names {

  predicate IsDigit(c: char) { '0' <= c <= '9' }

  function DigitChar(d: nat): (c: char)
    requires d < 10
    ensures IsDigit(c) && c as int - '0' as int == d
  {
    ('0' as int + d) as char
  }

  /** Decimal digits of a natural number, most significant first, no leading zeros. */
  function NatToString(n: nat): (s: string)
    ensures |s| >= 1
    ensures forall k | 0 <= k < |s| :: IsDigit(s[k])
  {
    if n < 10 then [DigitChar(n)] else NatToString(n / 10) + [DigitChar(n % 10)]
  }

  /** How an `int` is rendered inside `$"{floor}..."` under the invariant culture: a
      minus sign ('-'), then the digits. A culture with another negative sign would
      render negative floors differently; the hotel's floors are always positive. */
  function IntToString(i: int): (s: string)
    ensures |s| >= 1
    ensures s[0] == '-' <==> i < 0
  {
    if i < 0 then "-" + NatToString(-i) else NatToString(i)
  }

  /** The value of a string of decimal digits: the inverse of NatToString. */
  function ParseNat(s: string): nat
    requires forall k | 0 <= k < |s| :: IsDigit(s[k])
  {
    if s == [] then 0
    else
      assert IsDigit(s[|s| - 1]);
      ParseNat(s[..|s| - 1]) * 10 + (s[|s| - 1] as int - '0' as int)
  }

  lemma {:induction false} ParseNatToString(n: nat)
    ensures ParseNat(NatToString(n)) == n
  {
    if n >= 10 {
      var s := NatToString(n);
      assert s[..|s| - 1] == NatToString(n / 10);
      ParseNatToString(n / 10);
    }
  }

  lemma NatToStringInjective(a: nat, b: nat)
    ensures NatToString(a) == NatToString(b) <==> a == b
  {
    if NatToString(a) == NatToString(b) {
      ParseNatToString(a);
      ParseNatToString(b);
    }
  }

  lemma IntToStringInjective(a: int, b: int)
    ensures IntToString(a) == IntToString(b) <==> a == b
  {
    if IntToString(a) == IntToString(b) {
      if a < 0 && b < 0 {
        assert NatToString(-a) == IntToString(a)[1..];
        NatToStringInjective(-a, -b);
      } else if a >= 0 && b >= 0 {
        NatToStringInjective(a, b);
      }
    }
  }

  /** The name of the room with character `c` on floor `floor`. */
  function RoomName(floor: int, c: char): (s: string)
    ensures |s| >= 2 && s[|s| - 1] == c
  {
    IntToString(floor) + [c]
  }

  /** Equal names mean the same floor and the same character, since the character is
      always the last one and the decimal rendering of the floor is injective. */
  lemma RoomNameInjective(f1: int, c1: char, f2: int, c2: char)
    ensures RoomName(f1, c1) == RoomName(f2, c2) <==> f1 == f2 && c1 == c2
  {
    var n1, n2 := RoomName(f1, c1), RoomName(f2, c2);
    if n1 == n2 {
      assert n1[..|n1| - 1] == IntToString(f1);
      assert n2[..|n2| - 1] == IntToString(f2);
      IntToStringInjective(f1, f2);
    }
  }
}
