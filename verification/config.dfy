/** The request record and the four default alphabets of
    `internal/config/password.go`. */
module Config {
  import opened Bytes

  /** One generation request. `length` is a Go `int`; `customSymbols` is a Go
      string, so any bytes at all. */
  datatype PasswordConfig = PasswordConfig(
    length: int,
    useUppercase: bool,
    useLowercase: bool,
    useNumbers: bool,
    useSymbols: bool,
    customSymbols: seq<byte>)

  const Uppercase: seq<byte> := Ascii("ABCDEFGHIJKLMNOPQRSTUVWXYZ")
  const Lowercase: seq<byte> := Ascii("abcdefghijklmnopqrstuvwxyz")
  const Numbers: seq<byte> := Ascii("0123456789")
  const Symbols: seq<byte> := Ascii("!@#$%^&*()_+-=[]{}|;:,.<>?")

  predicate IsUpperLetter(b: byte) { 'A' as int <= b <= 'Z' as int }
  predicate IsLowerLetter(b: byte) { 'a' as int <= b <= 'z' as int }
  predicate IsDigit(b: byte) { '0' as int <= b <= '9' as int }

  /** No byte occurs twice in `s`. */
  predicate NoRepeats(s: seq<byte>) {
    forall i, j :: 0 <= i < j < |s| ==> s[i] != s[j]
  }

  /** No byte occurs in both `a` and `b`. */
  predicate Disjoint(a: seq<byte>, b: seq<byte>) {
    forall x :: x in a ==> x !in b
  }

  /** The four default alphabets are usable for `byte % len(charset)`. */
  lemma DefaultAlphabetsNonEmpty()
    ensures |Uppercase| > 0 && |Lowercase| > 0 && |Numbers| > 0 && |Symbols| > 0
  {
  }

  /** `Uppercase` is exactly the 26 letters A..Z, in order. */
  lemma UppercaseIsAToZ()
    ensures |Uppercase| == 26
    ensures forall i :: 0 <= i < 26 ==> Uppercase[i] == 'A' as int + i
  {
  }

  /** `Lowercase` is exactly the 26 letters a..z, in order. */
  lemma LowercaseIsAToZ()
    ensures |Lowercase| == 26
    ensures forall i :: 0 <= i < 26 ==> Lowercase[i] == 'a' as int + i
  {
  }

  /** `Numbers` is exactly the 10 digits 0..9, in order. */
  lemma NumbersAreDigits()
    ensures |Numbers| == 10
    ensures forall i :: 0 <= i < 10 ==> Numbers[i] == '0' as int + i
  {
  }

  /** `Symbols` holds 26 bytes, none of them a letter or a digit. */
  lemma SymbolsAreNotAlphanumeric()
    ensures |Symbols| == 26
    ensures forall b :: b in Symbols ==> !IsUpperLetter(b) && !IsLowerLetter(b) && !IsDigit(b)
  {
  }

  /** No default alphabet repeats a byte. */
  lemma DefaultAlphabetsHaveNoRepeats()
    ensures NoRepeats(Uppercase) && NoRepeats(Lowercase) && NoRepeats(Numbers) && NoRepeats(Symbols)
  {
    UppercaseIsAToZ();
    LowercaseIsAToZ();
    NumbersAreDigits();
    SymbolsHaveNoRepeats();
  }

  /** Where each byte of `Symbols` sits in it; -1 for any other byte. */
  function SymbolIndex(b: byte): int {
    match b
    case 33 => 0 case 64 => 1 case 35 => 2 case 36 => 3 case 37 => 4 case 94 => 5
    case 38 => 6 case 42 => 7 case 40 => 8 case 41 => 9 case 95 => 10 case 43 => 11
    case 45 => 12 case 61 => 13 case 91 => 14 case 93 => 15 case 123 => 16 case 125 => 17
    case 124 => 18 case 59 => 19 case 58 => 20 case 44 => 21 case 46 => 22 case 60 => 23
    case 62 => 24 case 63 => 25 case _ => -1
  }

  /** The 26 symbol bytes are pairwise distinct: each one's position can be
      recovered from the byte itself. */
  lemma SymbolsHaveNoRepeats()
    ensures NoRepeats(Symbols)
  {
    assert forall i :: 0 <= i < 26 ==> SymbolIndex(Symbols[i]) == i;
  }

  /** The four default alphabets are pairwise disjoint. */
  lemma DefaultAlphabetsDisjoint()
    ensures Disjoint(Uppercase, Lowercase) && Disjoint(Uppercase, Numbers) && Disjoint(Uppercase, Symbols)
    ensures Disjoint(Lowercase, Numbers) && Disjoint(Lowercase, Symbols)
    ensures Disjoint(Numbers, Symbols)
  {
    UppercaseIsAToZ();
    LowercaseIsAToZ();
    NumbersAreDigits();
    SymbolsAreNotAlphanumeric();
    assert forall x :: x in Uppercase ==> IsUpperLetter(x);
    assert forall x :: x in Lowercase ==> IsLowerLetter(x);
    assert forall x :: x in Numbers ==> IsDigit(x);
  }
}
