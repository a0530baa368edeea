/**
 * The identifiers given to team resources: ten decimal digits, each drawn
 * as `Math.floor(Math.random() * 10)` and appended to a string. The draws
 * are a parameter here; what is checked is the shape of the result.
 */
module Identifiers {

  /** One draw of `Math.floor(Math.random() * 10)`. */
  type Digit = d: int | 0 <= d < 10

  /** How many digits an identifier has. */
  const IdentifierLength: nat := 10

  predicate IsDigitChar(c: char) {
    '0' as int <= c as int <= '9' as int
  }

  /** The decimal text of one digit, as `+=` of a number onto a string gives it. */
  function DigitChar(d: Digit): (c: char)
    ensures IsDigitChar(c)
    ensures c as int - '0' as int == d
  {
    ('0' as int + d) as char
  }

  /** The string spelled by a sequence of draws. */
  function Spell(draws: seq<Digit>): (s: string)
    ensures |s| == |draws|
    ensures forall i :: 0 <= i < |s| ==> IsDigitChar(s[i])
  {
    if |draws| == 0 then [] else Spell(draws[..|draws| - 1]) + [DigitChar(draws[|draws| - 1])]
  }

  /** The digit values of a string of decimal digits. */
  function Digits(s: string): (ds: seq<int>)
    requires forall i :: 0 <= i < |s| ==> IsDigitChar(s[i])
    ensures |ds| == |s|
    ensures forall i :: 0 <= i < |ds| ==> 0 <= ds[i] < 10
  {
    if |s| == 0 then []
    else
      var last := s[|s| - 1];
      assert IsDigitChar(last);
      Digits(s[..|s| - 1]) + [last as int - '0' as int]
  }

  /** Reading the digits back gives the draws: two identifiers are equal
      exactly when their draws were. */
  lemma {:induction false} DigitsOfSpell(draws: seq<Digit>)
    ensures Digits(Spell(draws)) == draws
  {
    if |draws| > 0 {
      var init := draws[..|draws| - 1];
      DigitsOfSpell(init);
      var s := Spell(draws);
      assert s[..|s| - 1] == Spell(init);
      forall i | 0 <= i < |draws| ensures Digits(s)[i] == draws[i] {
        if i < |draws| - 1 {
          assert s[i] == Spell(init)[i];
          assert Digits(Spell(init))[i] == init[i];
        }
      }
    }
  }

  /** generateRandomIdentifier: ten draws appended one at a time. */
  method GenerateRandomIdentifier(draws: seq<Digit>) returns (identifier: string)
    requires |draws| == IdentifierLength
    ensures identifier == Spell(draws)
    ensures |identifier| == IdentifierLength
    ensures forall i :: 0 <= i < |identifier| ==> IsDigitChar(identifier[i])
  {
    identifier := "";
    for i := 0 to IdentifierLength
      invariant identifier == Spell(draws[..i])
    {
      assert draws[..i + 1][..i] == draws[..i];
      identifier := identifier + [DigitChar(draws[i])];
    }
    assert draws[..IdentifierLength] == draws;
  }
}
