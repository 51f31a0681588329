/**
 * The character tables of Python's `string` module that the attacks draw
 * on, the ASCII part of `str.lower()`, and the facts that make each table a
 * usable charset: non-empty and free of repeated characters.
 */
module Alphabets {

  /** The characters `first..last` in code order. */
  function CharRange(first: char, last: char): (s: string)
    requires first <= last && last as int < 0xD800
    ensures |s| == last as int - first as int + 1
    ensures forall i :: 0 <= i < |s| ==> s[i] as int == first as int + i
  {
    seq(last as int - first as int + 1, i requires 0 <= i <= last as int - first as int => (first as int + i) as char)
  }

  /** `string.digits`, "0123456789". */
  const Digits: string := CharRange('0', '9')
  /** `string.ascii_lowercase`, "abcdefghijklmnopqrstuvwxyz". */
  const AsciiLowercase: string := CharRange('a', 'z')
  /** `string.ascii_uppercase`, "ABCDEFGHIJKLMNOPQRSTUVWXYZ". */
  const AsciiUppercase: string := CharRange('A', 'Z')
  const AsciiLetters: string := AsciiLowercase + AsciiUppercase
  /** `string.punctuation`: the printable ASCII characters between and around the digits and letters. */
  const Punctuation: string := CharRange('!', '/') + CharRange(':', '@') + CharRange('[', '`') + CharRange('{', '~')

  /** No element occurs twice. */
  predicate Distinct<T(==)>(s: seq<T>) {
    forall i, j :: 0 <= i < j < |s| ==> s[i] != s[j]
  }

  /** Strictly ascending character codes. */
  predicate Ascending(s: string) {
    forall i :: 0 <= i < |s| - 1 ==> s[i] < s[i + 1]
  }

  predicate IsDigit(c: char) { '0' <= c <= '9' }
  predicate IsLower(c: char) { 'a' <= c <= 'z' }
  predicate IsUpper(c: char) { 'A' <= c <= 'Z' }

  /** `str.lower()` on one character, for the ASCII range. */
  function LowerChar(c: char): char {
    if IsUpper(c) then (c as int + 32) as char else c
  }

  /** `str.lower()` for strings whose upper-case letters are ASCII. */
  function Lower(s: string): (r: string)
    ensures |r| == |s|
    ensures forall i :: 0 <= i < |s| ==> r[i] == LowerChar(s[i])
  {
    seq(|s|, i requires 0 <= i < |s| => LowerChar(s[i]))
  }

  lemma LowerIdempotent(s: string)
    ensures Lower(Lower(s)) == Lower(s)
  {
    assert forall i :: 0 <= i < |s| ==> LowerChar(LowerChar(s[i])) == LowerChar(s[i]);
  }

  lemma {:induction false} AscendingLess(s: string, i: int, j: int)
    requires Ascending(s)
    requires 0 <= i < j < |s|
    ensures s[i] < s[j]
    decreases j - i
  {
    if i + 1 < j {
      AscendingLess(s, i + 1, j);
    }
  }

  lemma AscendingDistinct(s: string)
    requires Ascending(s)
    ensures Distinct(s)
  {
    forall i, j | 0 <= i < j < |s| ensures s[i] != s[j] {
      AscendingLess(s, i, j);
    }
  }

  /** Two duplicate-free tables over disjoint character classes concatenate to a duplicate-free table. */
  lemma DistinctConcat<T>(a: seq<T>, b: seq<T>)
    requires Distinct(a) && Distinct(b)
    requires forall i, j :: 0 <= i < |a| && 0 <= j < |b| ==> a[i] != b[j]
    ensures Distinct(a + b)
  {
    forall i, j | 0 <= i < j < |a + b| ensures (a + b)[i] != (a + b)[j] {
      if j < |a| {
      } else if i < |a| {
        assert (a + b)[j] == b[j - |a|];
      } else {
        assert (a + b)[i] == b[i - |a|] && (a + b)[j] == b[j - |a|];
      }
    }
  }

  lemma DigitsFacts()
    ensures |Digits| == 10 && Distinct(Digits)
    ensures forall i :: 0 <= i < |Digits| ==> IsDigit(Digits[i])
  {
    AscendingDistinct(Digits);
  }

  lemma LowercaseFacts()
    ensures |AsciiLowercase| == 26 && Distinct(AsciiLowercase)
    ensures forall i :: 0 <= i < |AsciiLowercase| ==> IsLower(AsciiLowercase[i])
  {
    AscendingDistinct(AsciiLowercase);
  }

  lemma UppercaseFacts()
    ensures |AsciiUppercase| == 26 && Distinct(AsciiUppercase)
    ensures forall i :: 0 <= i < |AsciiUppercase| ==> IsUpper(AsciiUppercase[i])
  {
    AscendingDistinct(AsciiUppercase);
  }

  lemma PunctuationFacts()
    ensures |Punctuation| == 32 && Distinct(Punctuation)
    ensures forall i :: 0 <= i < |Punctuation| ==>
      !IsDigit(Punctuation[i]) && !IsLower(Punctuation[i]) && !IsUpper(Punctuation[i])
  {
    AscendingDistinct(Punctuation);
  }

  /** `string.ascii_letters`: 52 characters, none repeated. */
  lemma LettersDistinct()
    ensures |AsciiLetters| == 52 && Distinct(AsciiLetters)
    ensures forall i :: 0 <= i < |AsciiLetters| ==> !IsDigit(AsciiLetters[i])
  {
    LowercaseFacts();
    UppercaseFacts();
    DistinctConcat(AsciiLowercase, AsciiUppercase);
  }

  /** `ascii_lowercase + digits`: 36 characters, none repeated. */
  lemma LowercaseDigitsDistinct()
    ensures |AsciiLowercase + Digits| == 36 && Distinct(AsciiLowercase + Digits)
  {
    LowercaseFacts();
    DigitsFacts();
    DistinctConcat(AsciiLowercase, Digits);
  }

  /** `ascii_letters + digits`: 62 characters, none repeated. */
  lemma LettersDigitsDistinct()
    ensures |AsciiLetters + Digits| == 62 && Distinct(AsciiLetters + Digits)
  {
    LettersDistinct();
    DigitsFacts();
    DistinctConcat(AsciiLetters, Digits);
  }

  /** `ascii_letters + digits + punctuation`: 94 characters, none repeated. */
  lemma PrintableDistinct()
    ensures |AsciiLetters + Digits + Punctuation| == 94
    ensures Distinct(AsciiLetters + Digits + Punctuation)
  {
    LettersDistinct();
    DigitsFacts();
    PunctuationFacts();
    var alnum := AsciiLetters + Digits;
    LettersDigitsDistinct();
    assert forall i :: 0 <= i < |alnum| ==> IsDigit(alnum[i]) || IsLower(alnum[i]) || IsUpper(alnum[i]) by {
      forall i | 0 <= i < |alnum|
        ensures IsDigit(alnum[i]) || IsLower(alnum[i]) || IsUpper(alnum[i])
      {
        if i < |AsciiLowercase| {
          assert alnum[i] == AsciiLowercase[i];
        } else if i < |AsciiLetters| {
          assert alnum[i] == AsciiUppercase[i - |AsciiLowercase|];
        } else {
          assert alnum[i] == Digits[i - |AsciiLetters|];
        }
      }
    }
    DistinctConcat(alnum, Punctuation);
  }
}
