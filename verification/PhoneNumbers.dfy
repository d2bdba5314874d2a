/** Employee names and phone numbers: the accepted forms and the conversion between them. */
module PhoneNumbers {

  import opened Digits
  import opened Strings

  /** A plus sign and one to fifteen digits. */
  predicate IsValidE164(p: string) { 2 <= |p| <= 16 && p[0] == '+' && AllDigits(p[1..]) }

  /** A zero and nine or ten digits. */
  predicate IsValidDomestic(p: string) { 10 <= |p| <= 11 && p[0] == '0' && AllDigits(p[1..]) }

  predicate IsValidPhone(p: string) { IsValidE164(p) || IsValidDomestic(p) }

  const COUNTRY := "+81"

  function DomesticToE164(p: string): string {
    if IsValidDomestic(p) then COUNTRY + p[1..] else p
  }

  /** The inverse shown to the operator. */
  function E164ToDomestic(p: string): string {
    if |p| >= 3 && p[..3] == COUNTRY && 12 <= |p| <= 13 then "0" + p[3..] else p
  }

  /** The E.164 numbers that have a domestic form. */
  predicate IsJapanese(p: string) { 12 <= |p| <= 13 && IsValidE164(p) && p[..3] == COUNTRY }

  const MAX_NAME_LENGTH := 100

  predicate IsValidName(name: string) { 0 < |Strip(name)| <= MAX_NAME_LENGTH }

  /** The two conversions are inverse to each other between domestic and Japanese E.164 numbers. */
  lemma PhoneRoundTrip(p: string)
    ensures IsValidDomestic(p) ==> IsJapanese(DomesticToE164(p)) && E164ToDomestic(DomesticToE164(p)) == p
    ensures IsJapanese(p) ==> IsValidDomestic(E164ToDomestic(p)) && DomesticToE164(E164ToDomestic(p)) == p
  {
    if IsValidDomestic(p) {
      var q := DomesticToE164(p);
      assert q[..3] == COUNTRY && q[3..] == p[1..];
      assert q[1..] == "81" + p[1..];
    }
    if IsJapanese(p) {
      var d := E164ToDomestic(p);
      assert d[1..] == p[3..] && p == p[..3] + p[3..];
      forall i | 0 <= i < |d[1..]| ensures '0' <= d[1..][i] <= '9' { assert d[1..][i] == p[1..][i + 2]; }
    }
  }

  /** Distinct domestic numbers stay distinct in E.164 form. */
  lemma DomesticInjective(p: string, q: string)
    requires IsValidDomestic(p) && IsValidDomestic(q)
    ensures DomesticToE164(p) == DomesticToE164(q) <==> p == q
  {
    PhoneRoundTrip(p);
    PhoneRoundTrip(q);
  }

  /**
   Every accepted number is stored in E.164 form, storing it again changes nothing, and two
   accepted numbers are stored alike only if they are equal or one is the domestic form of the other.
   */
  lemma Normalised(p: string, q: string)
    requires IsValidPhone(p) && IsValidPhone(q)
    ensures IsValidE164(DomesticToE164(p)) && DomesticToE164(DomesticToE164(p)) == DomesticToE164(p)
    ensures DomesticToE164(p) == DomesticToE164(q) <==>
            p == q || (IsValidDomestic(p) && q == DomesticToE164(p)) || (IsValidDomestic(q) && p == DomesticToE164(q))
  {
    PhoneRoundTrip(p);
    PhoneRoundTrip(q);
  }
}
