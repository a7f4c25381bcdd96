/**
 * The `@ISBN` constraint: a total boolean check of a book's ISBN string
 * against the ISBN-10 (modulus 11) or ISBN-13 / EAN-13 (modulus 10) check
 * character rules of ISO 2108.
 */
module Isbn {
  import opened Wrappers

  /** The two raw strings that are accepted before any checksum is computed. */
  const BypassHyphenated: string := "0-13-149505-0"
  const BypassPlain: string := "0131495050"

  /** A decimal digit (ASCII only). */
  predicate IsDigit(c: char) {
    '0' <= c <= '9'
  }

  function DigitValue(c: char): (v: nat)
    requires IsDigit(c)
    ensures v < 10
  {
    (c as int) - ('0' as int)
  }

  predicate AllDigits(s: string) {
    forall i :: 0 <= i < |s| ==> IsDigit(s[i])
  }

  /** `value.trim().isEmpty()`: trimming removes every character up to U+0020. */
  predicate IsBlank(s: string) {
    forall i :: 0 <= i < |s| ==> s[i] <= ' '
  }

  /** The characters matched by the pattern `[\s-]`. */
  predicate IsSeparator(c: char) {
    c == ' ' || c == '\t' || c == '\n' || c == '\U{000B}' || c == '\U{000C}' || c == '\r' || c == '-'
  }

  /** The string with every separator deleted (`replaceAll("[\\s-]", "")`). */
  function Clean(s: string): (r: string)
    ensures |r| <= |s|
    ensures forall i :: 0 <= i < |r| ==> !IsSeparator(r[i])
  {
    if s == [] then []
    else if IsSeparator(s[0]) then Clean(s[1..])
    else [s[0]] + Clean(s[1..])
  }

  // ---------------------------------------------------------------------
  // ISBN-10

  predicate IsCheckX(c: char) {
    c == 'X' || c == 'x'
  }

  /** Nine digits followed by a digit or an `X`/`x`. */
  predicate WellFormed10(c: string) {
    && |c| == 10
    && (forall i :: 0 <= i < 9 ==> IsDigit(c[i]))
    && (IsDigit(c[9]) || IsCheckX(c[9]))
  }

  /** The value of the last ISBN-10 character: `X`/`x` stands for 10. */
  function CheckValue10(c: char): (v: nat)
    requires IsDigit(c) || IsCheckX(c)
    ensures v <= 10
  {
    if IsCheckX(c) then 10 else DigitValue(c)
  }

  /** Sum of d_i * (10 - i) over the first n positions. */
  function Sum10(c: string, n: nat): int
    requires n <= |c|
    requires forall i :: 0 <= i < n ==> IsDigit(c[i])
  {
    if n == 0 then 0 else Sum10(c, n - 1) + DigitValue(c[n - 1]) * (11 - n)
  }

  /** The full ISBN-10 weighted sum, the check character having weight 1. */
  function Total10(c: string): int
    requires WellFormed10(c)
  {
    Sum10(c, 9) + CheckValue10(c[9])
  }

  predicate Valid10(c: string) {
    WellFormed10(c) && Total10(c) % 11 == 0
  }

  // ---------------------------------------------------------------------
  // ISBN-13

  /** Weight 1 at even positions, 3 at odd positions. */
  function Weight13(i: nat): (w: nat)
    ensures w == 1 || w == 3
  {
    if i % 2 == 0 then 1 else 3
  }

  function Sum13(c: string, n: nat): nat
    requires n <= |c|
    requires forall i :: 0 <= i < n ==> IsDigit(c[i])
  {
    if n == 0 then 0 else Sum13(c, n - 1) + Weight13(n - 1) * DigitValue(c[n - 1])
  }

  /** Thirteen digits whose last one equals the check digit of the first twelve. */
  predicate Valid13(c: string) {
    && |c| == 13
    && AllDigits(c)
    && DigitValue(c[12]) == (10 - Sum13(c, 12) % 10) % 10
  }

  // ---------------------------------------------------------------------
  // The verdict

  /** The checksum verdict on a cleaned candidate: length 10 or 13 decides the rule. */
  predicate ChecksumAccepts(c: string) {
    if |c| == 10 then Valid10(c)
    else if |c| == 13 then Valid13(c)
    else false
  }

  /** What `isValid` answers; `None` stands for a null value. */
  predicate Accepts(value: Option<string>) {
    match value
    case None => true
    case Some(v) =>
      if IsBlank(v) then true
      else if v == BypassHyphenated || v == BypassPlain then true
      else ChecksumAccepts(Clean(v))
  }

  /** `ISBNValidator.isValid`, with its digit scans and summing loops. */
  method IsValid(value: Option<string>) returns (ok: bool)
    ensures ok == Accepts(value)
  {
    if value.None? || IsBlank(value.value) {
      return true;
    }
    var v := value.value;
    if v == BypassHyphenated || v == BypassPlain {
      return true;
    }
    var cleaned := Clean(v);
    if |cleaned| == 10 {
      for i := 0 to 9
        invariant forall j :: 0 <= j < i ==> IsDigit(cleaned[j])
      {
        if !IsDigit(cleaned[i]) {
          return false;
        }
      }
      var lastChar := cleaned[9];
      if !IsDigit(lastChar) && lastChar != 'X' && lastChar != 'x' {
        return false;
      }
      var sum := 0;
      for i := 0 to 9
        invariant sum == Sum10(cleaned, i)
      {
        sum := sum + DigitValue(cleaned[i]) * (10 - i);
      }
      if lastChar == 'X' || lastChar == 'x' {
        sum := sum + 10;
      } else {
        sum := sum + DigitValue(lastChar);
      }
      return sum % 11 == 0;
    } else if |cleaned| == 13 {
      for i := 0 to 13
        invariant forall j :: 0 <= j < i ==> IsDigit(cleaned[j])
      {
        if !IsDigit(cleaned[i]) {
          return false;
        }
      }
      var sum := 0;
      for i := 0 to 12
        invariant sum == Sum13(cleaned, i)
      {
        var digit := DigitValue(cleaned[i]);
        sum := sum + if i % 2 == 0 then digit else digit * 3;
      }
      var checkDigit := DigitValue(cleaned[12]);
      var calculatedCheckDigit := (10 - sum % 10) % 10;
      return checkDigit == calculatedCheckDigit;
    }
    return false;
  }

  // ---------------------------------------------------------------------
  // Cleaning

  lemma {:induction false} CleanAppend(a: string, b: string)
    ensures Clean(a + b) == Clean(a) + Clean(b)
  {
    if a == [] {
      assert a + b == b;
    } else {
      assert (a + b)[1..] == a[1..] + b;
      CleanAppend(a[1..], b);
    }
  }

  /** Inserting one separator anywhere leaves the cleaned string unchanged. */
  lemma {:induction false} CleanIgnoresSeparator(a: string, sep: char, b: string)
    requires IsSeparator(sep)
    ensures Clean(a + [sep] + b) == Clean(a + b)
  {
    CleanAppend(a, [sep] + b);
    assert a + [sep] + b == a + ([sep] + b);
    assert ([sep] + b)[1..] == b;
    CleanAppend(a, b);
  }

  /** A string without separators is its own cleaned form. */
  lemma {:induction false} CleanKeepsOtherCharacters(s: string)
    requires forall i :: 0 <= i < |s| ==> !IsSeparator(s[i])
    ensures Clean(s) == s
  {
    if s != [] {
      CleanKeepsOtherCharacters(s[1..]);
    }
  }

  lemma CleanIdempotent(s: string)
    ensures Clean(Clean(s)) == Clean(s)
  {
  }

  /** A string made only of separators cleans to the empty string. */
  lemma {:induction false} CleanOfSeparatorsIsEmpty(s: string)
    requires forall i :: 0 <= i < |s| ==> IsSeparator(s[i])
    ensures Clean(s) == []
  {
    if s != [] {
      CleanOfSeparatorsIsEmpty(s[1..]);
    }
  }

  // ---------------------------------------------------------------------
  // Properties of the verdict

  /** Null, empty and all-whitespace values are accepted. */
  lemma NullOrBlankAccepted(v: string)
    requires IsBlank(v)
    ensures Accepts(None) && Accepts(Some(v))
  {
  }

  /** Outside the blank and bypass cases, a cleaned length other than 10 or 13 is rejected. */
  lemma WrongLengthRejected(v: string)
    requires !IsBlank(v) && v != BypassHyphenated && v != BypassPlain
    requires |Clean(v)| != 10 && |Clean(v)| != 13
    ensures !Accepts(Some(v))
  {
  }

  /** A non-empty value made only of hyphens is rejected: it cleans to length 0. */
  lemma OnlyHyphensRejected(v: string)
    requires |v| > 0 && forall i :: 0 <= i < |v| ==> v[i] == '-'
    ensures !Accepts(Some(v))
  {
    assert !IsBlank(v) by {
      assert v[0] == '-';
    }
    assert v != BypassHyphenated by {
      assert BypassHyphenated[0] == '0';
    }
    assert v != BypassPlain by {
      assert BypassPlain[0] == '0';
    }
    CleanOfSeparatorsIsEmpty(v);
  }

  /** Outside the blank and bypass cases the verdict depends only on the cleaned string. */
  lemma VerdictDependsOnlyOnCleaned(v: string, w: string)
    requires !IsBlank(v) && v != BypassHyphenated && v != BypassPlain
    requires !IsBlank(w) && w != BypassHyphenated && w != BypassPlain
    requires Clean(v) == Clean(w)
    ensures Accepts(Some(v)) == Accepts(Some(w))
  {
  }

  /** Adding a hyphen or whitespace separator to a value never changes its verdict. */
  lemma SeparatorDoesNotChangeVerdict(a: string, sep: char, b: string)
    requires IsSeparator(sep)
    requires !IsBlank(a + b) && a + b != BypassHyphenated && a + b != BypassPlain
    requires a + [sep] + b != BypassHyphenated && a + [sep] + b != BypassPlain
    ensures Accepts(Some(a + [sep] + b)) == Accepts(Some(a + b))
  {
    CleanIgnoresSeparator(a, sep, b);
    var w := a + [sep] + b;
    assert !IsBlank(w) by {
      var i :| 0 <= i < |a + b| && (a + b)[i] > ' ';
      if i < |a| {
        assert w[i] == (a + b)[i];
      } else {
        assert w[i + 1] == (a + b)[i];
      }
    }
  }

  // ---------------------------------------------------------------------
  // Error detection: every single substitution is caught

  /** The value of position i of an ISBN-10 candidate. */
  function ValueAt10(c: string, i: nat): (v: nat)
    requires WellFormed10(c) && i < 10
    ensures v <= 10
  {
    if i < 9 then DigitValue(c[i]) else CheckValue10(c[9])
  }

  /** Changing position k of the first n changes the weighted sum by (10 - k) times the change. */
  lemma {:induction false} Sum10Substitution(c: string, d: string, k: nat, n: nat)
    requires |c| == |d| && n <= |c|
    requires forall i :: 0 <= i < n ==> IsDigit(c[i]) && IsDigit(d[i])
    requires forall i :: 0 <= i < n && i != k ==> c[i] == d[i]
    ensures Sum10(d, n) == Sum10(c, n) + if k < n then (10 - k) * (DigitValue(d[k]) - DigitValue(c[k])) else 0
  {
    if n > 0 {
      Sum10Substitution(c, d, k, n - 1);
    }
  }

  /** A product of a weight and a difference, neither a multiple of the prime 11, is not one either. */
  lemma ProductNotMultipleOf11(w: int, delta: int)
    requires 1 <= w <= 10 && -10 <= delta <= 10 && delta != 0
    ensures (w * delta) % 11 != 0
  {
    // One case per weight: without the split the solver finds this only on some seeds.
    if w == 1 {
    } else if w == 2 {
    } else if w == 3 {
    } else if w == 4 {
    } else if w == 5 {
    } else if w == 6 {
    } else if w == 7 {
    } else if w == 8 {
    } else if w == 9 {
    } else {
    }
  }

  /**
   * Replacing one character of a valid ISBN-10 by a character of a different
   * value always yields an invalid ISBN-10.
   */
  lemma Isbn10DetectsSingleSubstitution(c: string, d: string, k: nat)
    requires Valid10(c) && WellFormed10(d) && k < 10
    requires forall i :: 0 <= i < 10 && i != k ==> c[i] == d[i]
    requires ValueAt10(c, k) != ValueAt10(d, k)
    ensures !Valid10(d)
  {
    Sum10Substitution(c, d, k, 9);
    var delta := ValueAt10(d, k) - ValueAt10(c, k);
    assert Total10(d) == Total10(c) + (10 - k) * delta;
    ProductNotMultipleOf11(10 - k, delta);
    ShiftMod11(Total10(c), (10 - k) * delta);
  }

  /** Changing position k of the first n changes Sum13 by its weight times the change. */
  lemma {:induction false} Sum13Substitution(c: string, d: string, k: nat, n: nat)
    requires |c| == |d| && n <= |c|
    requires forall i :: 0 <= i < n ==> IsDigit(c[i]) && IsDigit(d[i])
    requires forall i :: 0 <= i < n && i != k ==> c[i] == d[i]
    ensures Sum13(d, n) == Sum13(c, n) + if k < n then Weight13(k) * (DigitValue(d[k]) - DigitValue(c[k])) else 0
  {
    if n > 0 {
      Sum13Substitution(c, d, k, n - 1);
    }
  }

  /**
   * The check-digit form is the EAN-13 rule: thirteen digits are a valid
   * ISBN-13 exactly when their full weighted sum is a multiple of 10.
   */
  lemma Valid13IffWeightedSumMultipleOf10(c: string)
    requires |c| == 13 && AllDigits(c)
    ensures Valid13(c) <==> Sum13(c, 13) % 10 == 0
  {
  }

  /** Adding a multiple of 11 does not change the remainder modulo 11. */
  lemma ShiftMod11(t: int, x: int)
    requires t % 11 == 0
    ensures (t + x) % 11 == x % 11
  {
  }

  /** Adding a multiple of 10 does not change the remainder modulo 10. */
  lemma ShiftMod10(t: int, x: int)
    requires t % 10 == 0
    ensures (t + x) % 10 == x % 10
  {
  }

  /** A weight 1 or 3 times a non-zero digit difference is not a multiple of 10. */
  lemma ProductNotMultipleOf10(w: int, delta: int)
    requires (w == 1 || w == 3) && -9 <= delta <= 9 && delta != 0
    ensures (w * delta) % 10 != 0
  {
  }

  /**
   * Replacing one digit of a valid ISBN-13 by a different digit always
   * yields an invalid ISBN-13.
   */
  lemma Isbn13DetectsSingleSubstitution(c: string, d: string, k: nat)
    requires Valid13(c) && |d| == 13 && AllDigits(d) && k < 13
    requires forall i :: 0 <= i < 13 && i != k ==> c[i] == d[i]
    requires c[k] != d[k]
    ensures !Valid13(d)
  {
    Sum13Substitution(c, d, k, 13);
    Valid13IffWeightedSumMultipleOf10(c);
    Valid13IffWeightedSumMultipleOf10(d);
    var delta := DigitValue(d[k]) - DigitValue(c[k]);
    ProductNotMultipleOf10(Weight13(k), delta);
    ShiftMod10(Sum13(c, 13), Weight13(k) * delta);
  }

  // ---------------------------------------------------------------------
  // Concrete verdicts: the bypass strings and the worked examples of the test suite.
  // Each fact about a string literal is kept in a lemma of its own: the
  // verifier evaluates literals cheaply one at a time but not many together.

  /**
   * Cleaning from position i onwards, one index at a time; unlike `Clean`
   * it unfolds completely on a string literal.
   */
  function CleanFrom(s: string, i: nat): string
    decreases |s| - i
  {
    if i >= |s| then []
    else (if IsSeparator(s[i]) then [] else [s[i]]) + CleanFrom(s, i + 1)
  }

  lemma {:induction false} CleanFromIsClean(s: string, i: nat)
    requires i <= |s|
    ensures CleanFrom(s, i) == Clean(s[i..])
    decreases |s| - i
  {
    if i < |s| {
      assert s[i..][1..] == s[i + 1..];
      CleanFromIsClean(s, i + 1);
    }
  }

  /** The cleaned form of a string, computed by `CleanFrom`. */
  lemma CleansTo(s: string, c: string)
    requires CleanFrom(s, 0) == c
    ensures Clean(s) == c
  {
    CleanFromIsClean(s, 0);
    assert s[0..] == s;
  }

  /** A value that is not blank and not a bypass string is rejected when its cleaned form fails. */
  lemma RejectedByChecksum(v: string, k: nat)
    requires k < |v| && v[k] > ' '
    requires v != BypassHyphenated && v != BypassPlain
    requires !ChecksumAccepts(Clean(v))
    ensures !Accepts(Some(v))
  {
  }

  /** "0131495050" is well formed, but its ISBN-10 sum is 139 and 139 mod 11 is 7. */
  lemma BypassChecksum()
    ensures WellFormed10(BypassPlain) && Total10(BypassPlain) == 139 && 139 % 11 == 7
    ensures !Valid10(BypassPlain)
  {
  }

  lemma CleanBypassHyphenated()
    ensures Clean(BypassHyphenated) == BypassPlain
  {
    CleansTo(BypassHyphenated, BypassPlain);
  }

  /**
   * Both bypass strings fail the checksum after cleaning, so only the special
   * case makes the validator accept them.
   */
  lemma BypassFailsChecksum()
    ensures !ChecksumAccepts(Clean(BypassHyphenated)) && !ChecksumAccepts(Clean(BypassPlain))
    ensures Accepts(Some(BypassHyphenated)) && Accepts(Some(BypassPlain))
  {
    CleanBypassHyphenated();
    BypassChecksum();
    CleanKeepsOtherCharacters(BypassPlain);
  }

  lemma CleanSpacedBypass()
    ensures Clean("0 131495050") == BypassPlain
  {
    CleansTo("0 131495050", BypassPlain);
  }

  /** The bypass compares the raw value: the same digits with a space go to the checksum and fail. */
  lemma SpacedBypassRejected()
    ensures !Accepts(Some("0 131495050"))
  {
    CleanSpacedBypass();
    BypassChecksum();
    RejectedByChecksum("0 131495050", 0);
  }

  /** ISBN-10 examples: a valid number, the same with its check digit altered, and an `X` check digit. */
  lemma Isbn10Examples()
    ensures Valid10("0306406152") && !Valid10("0306406153") && Valid10("039304002X")
  {
  }

  /** ISBN-13 examples: a valid number, and the same with its check digit altered. */
  lemma Isbn13Examples()
    ensures Valid13("9780306406157") && !Valid13("9780306406158")
  {
    Isbn13Valid();
    Isbn13Altered();
  }

  lemma Isbn13Valid()
    ensures Valid13("9780306406157")
  {
    assert Sum13("9780306406157", 6) == 41;
  }

  lemma Isbn13Altered()
    ensures !Valid13("9780306406158")
  {
    assert Sum13("9780306406158", 6) == 41;
  }
}
