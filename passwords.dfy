/**
 * What the two password forms share: the messages they show, the minimum
 * length, and the length JavaScript reports for a string, which counts UTF-16
 * code units, so a character outside the Basic Multilingual Plane counts twice.
 */
module Passwords {

  const MIN_PASSWORD_LENGTH := 6
  const MISMATCH_MESSAGE := "Passwords do not match"
  const TOO_SHORT_MESSAGE := "Password must be at least 6 characters"

  /** `s.length`: UTF-16 code units. */
  function Utf16Length(s: string): (n: nat)
    ensures |s| <= n <= 2 * |s|
    ensures (forall i :: 0 <= i < |s| ==> s[i] as int < 0x1_0000) ==> n == |s|
  {
    if s == [] then 0
    else (if s[0] as int >= 0x1_0000 then 2 else 1) + Utf16Length(s[1..])
  }

  lemma {:induction false} Utf16LengthConcat(a: string, b: string)
    ensures Utf16Length(a + b) == Utf16Length(a) + Utf16Length(b)
  {
    if a == [] {
      assert a + b == b;
    } else {
      assert (a + b)[1..] == a[1..] + b && (a + b)[0] == a[0];
      Utf16LengthConcat(a[1..], b);
    }
  }

  /** `password.length < 6`. */
  predicate TooShort(password: string) {
    Utf16Length(password) < MIN_PASSWORD_LENGTH
  }

  /** Three emoji are long enough: each is two code units. Five Latin letters are not. */
  lemma LengthExamples()
    ensures !TooShort("\U{1F338}\U{1F338}\U{1F338}")
    ensures TooShort("abcde")
  {
    Utf16LengthConcat("\U{1F338}", "\U{1F338}\U{1F338}");
    Utf16LengthConcat("\U{1F338}", "\U{1F338}");
  }

  lemma MessagesDiffer()
    ensures MISMATCH_MESSAGE != TOO_SHORT_MESSAGE
  {
    assert MISMATCH_MESSAGE[8] != TOO_SHORT_MESSAGE[8];
  }
}
