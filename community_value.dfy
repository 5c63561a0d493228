/** Validation of a BGP community's `value`: a required text of at most 64
    characters that must contain a match of the pattern `\d+:\d+`. The
    pattern is searched for, not matched against the whole value, so any
    text with digits, a colon and digits somewhere in it passes. */
module CommunityValue {

  const MaxLength := 64

  /** The validation errors the value can collect. */
  datatype ValueError =
    | Blank            // the field is required and the value is empty
    | NoAsnValuePair   // the pattern `\d+:\d+` occurs nowhere in the value
    | TooLong          // more than MaxLength characters

  predicate IsDigit(c: char)
  {
    '0' <= c <= '9'
  }

  ghost predicate AllDigits(t: string)
  {
    forall i :: 0 <= i < |t| ==> IsDigit(t[i])
  }

  /** `t` as a whole is one or more digits, a colon, one or more digits. */
  ghost predicate PatternMatches(t: string)
  {
    exists j :: 0 < j < |t| - 1 && t[j] == ':' && AllDigits(t[..j]) && AllDigits(t[j + 1..])
  }

  /** A regular-expression search for the pattern succeeds on `s`: some
      substring of `s` matches it. */
  ghost predicate SearchFinds(s: string)
  {
    exists i, k :: 0 <= i <= k <= |s| && PatternMatches(s[i..k])
  }

  /** The scan the validator amounts to: a digit, a colon and a digit next
      to each other somewhere in `s`. */
  function HasAsnValuePair(s: string): bool
  {
    |s| >= 3 && ((IsDigit(s[0]) && s[1] == ':' && IsDigit(s[2])) || HasAsnValuePair(s[1..]))
  }

  lemma {:induction false} PairAtPosition(s: string, p: nat)
    requires p + 2 < |s| && IsDigit(s[p]) && s[p + 1] == ':' && IsDigit(s[p + 2])
    ensures HasAsnValuePair(s)
  {
    if p > 0 {
      PairAtPosition(s[1..], p - 1);
    }
  }

  /** The scan decides exactly the unanchored search. */
  lemma {:induction false} ScanIsSearch(s: string)
    ensures HasAsnValuePair(s) <==> SearchFinds(s)
  {
    if HasAsnValuePair(s) {
      if IsDigit(s[0]) && s[1] == ':' && IsDigit(s[2]) {
        var t := s[0..3];
        assert t[1] == ':' && AllDigits(t[..1]) && AllDigits(t[2..]);
        assert PatternMatches(t);
      } else {
        ScanIsSearch(s[1..]);
        var i, k :| 0 <= i <= k <= |s[1..]| && PatternMatches(s[1..][i..k]);
        assert s[1..][i..k] == s[i + 1..k + 1];
      }
    }
    if SearchFinds(s) {
      var i, k :| 0 <= i <= k <= |s| && PatternMatches(s[i..k]);
      var t := s[i..k];
      var j :| 0 < j < |t| - 1 && t[j] == ':' && AllDigits(t[..j]) && AllDigits(t[j + 1..]);
      assert t[..j][j - 1] == t[j - 1];
      assert t[j + 1..][0] == t[j + 1];
      PairAtPosition(s, i + j - 1);
    }
  }

  /** The errors that cleaning a community's value reports: a blank value
      fails the required check and is not validated further; otherwise the
      pattern validator and then the length validator each add their error. */
  function Validate(value: string): (errors: seq<ValueError>)
    ensures errors == [] <==> |value| <= MaxLength && SearchFinds(value)
    ensures value == "" ==> errors == [Blank]
    ensures value != "" ==>
              errors == (if SearchFinds(value) then [] else [NoAsnValuePair])
                        + (if |value| > MaxLength then [TooLong] else [])
    ensures NoAsnValuePair in errors <==> value != "" && !SearchFinds(value)
    ensures TooLong in errors <==> value != "" && |value| > MaxLength
  {
    ScanIsSearch(value);
    if value == "" then [Blank]
    else (if HasAsnValuePair(value) then [] else [NoAsnValuePair])
         + (if |value| > MaxLength then [TooLong] else [])
  }

  /** The search is unanchored: text around the pair does not matter. */
  lemma UnanchoredExample()
    ensures Validate("x12:3y") == []
    ensures Validate("65000:") == [NoAsnValuePair]
  {
    assert HasAsnValuePair("x12:3y") by {
      PairAtPosition("x12:3y", 2);
    }
    assert !HasAsnValuePair("65000:") by {
      assert "65000:"[1..] == "5000:";
      assert "5000:"[1..] == "000:";
      assert "000:"[1..] == "00:";
      assert "00:"[1..] == "0:";
    }
  }
}
