/**
 * The VIN character class `[A-HJ-NPR-Z0-9]` shared by both validators and
 * by the OCR pattern: digits and capital letters except I, O and Q
 * (ISO 3779).  No check digit is computed anywhere.
 */
module VinAlphabet {
  /** One character of the class, range by range as the pattern writes it. */
  predicate VinChar(c: char) {
    ('A' <= c <= 'H') || ('J' <= c <= 'N') || c == 'P' || ('R' <= c <= 'Z') || ('0' <= c <= '9')
  }

  /** Every character of `s` is in the class. */
  predicate AllVinChars(s: string) {
    forall i :: 0 <= i < |s| ==> VinChar(s[i])
  }

  /** The class is exactly the capital letters and digits other than I, O and Q. */
  lemma VinCharIsAlnumExceptIOQ(c: char)
    ensures VinChar(c) <==> (('0' <= c <= '9') || ('A' <= c <= 'Z')) && c != 'I' && c != 'O' && c != 'Q'
  {
  }
}
