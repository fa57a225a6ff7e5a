/** The input validators and the free-text sanitiser of the customer
    management application (utils.py). Every check is a pure predicate over
    the raw form text; `validate_date` lives in the `Dates` module. */
module Validators {
  import opened Wrappers
  import opened Text

  // ---------------------------------------------------------------------
  // validate_phone
  // ---------------------------------------------------------------------

  /** The class `[\s\-\(\)]` removed before a phone number is checked. */
  predicate IsPhoneSeparator(c: char) {
    IsSpace(c) || c == '-' || c == '(' || c == ')'
  }

  /** What the body of `^[\+]?[0-9]{10,15}$` accepts: an optional leading
      plus sign, then ten to fifteen ASCII digits. */
  predicate PhoneBody(t: string) {
    var digits := if |t| > 0 && t[0] == '+' then t[1..] else t;
    10 <= |digits| <= 15 && AllAsciiDigits(digits)
  }

  /** The phone number with its separators removed. */
  function CleanPhone(phone: string): string {
    RemoveAll(IsPhoneSeparator, phone)
  }

  /** `validate_phone`: empty input fails; otherwise the separators are
      removed and what is left must match the phone pattern. */
  function ValidatePhone(phone: string): (r: bool)
    ensures r <==> PhoneBody(CleanPhone(phone))
  {
    if phone == [] then false
    else
      var cleaned := CleanPhone(phone);
      assert cleaned != [] ==> !IsPhoneSeparator(cleaned[|cleaned| - 1]);
      assert IsSpace('\n');
      MatchesToEnd(PhoneBody, cleaned)
  }

  /** Two numbers that differ only in separators get the same verdict. */
  lemma PhoneDependsOnlyOnCleaned(a: string, b: string)
    requires CleanPhone(a) == CleanPhone(b)
    ensures ValidatePhone(a) == ValidatePhone(b)
  {
  }

  /** Cleaning ignores a separator inserted anywhere. */
  lemma CleanIgnoresSeparator(a: string, c: char, b: string)
    requires IsPhoneSeparator(c)
    ensures CleanPhone(a + [c] + b) == CleanPhone(a + b)
  {
    var drop := IsPhoneSeparator;
    assert RemoveAll(drop, [c]) == [];
    RemoveAllConcat(drop, a + [c], b);
    RemoveAllConcat(drop, a, [c]);
    RemoveAllConcat(drop, a, b);
  }

  /** Inserting a space, dash or parenthesis anywhere never changes the
      verdict. */
  lemma PhoneSeparatorInsertion(phone: string, i: nat, c: char)
    requires i <= |phone|
    requires IsPhoneSeparator(c)
    ensures ValidatePhone(phone[..i] + [c] + phone[i..]) == ValidatePhone(phone)
  {
    assert phone[..i] + phone[i..] == phone;
    CleanIgnoresSeparator(phone[..i], c, phone[i..]);
    PhoneDependsOnlyOnCleaned(phone[..i] + [c] + phone[i..], phone);
  }

  /** A run of digits, with or without a leading plus, is a valid phone
      number exactly when it has ten to fifteen digits: nine fail and
      sixteen fail. */
  lemma PhoneDigitCount(digits: string)
    requires AllAsciiDigits(digits)
    ensures ValidatePhone(digits) <==> 10 <= |digits| <= 15
    ensures ValidatePhone(['+'] + digits) <==> 10 <= |digits| <= 15
  {
    var plus := ['+'] + digits;
    assert forall i :: 0 <= i < |digits| ==> !IsPhoneSeparator(digits[i]);
    assert CleanPhone(digits) == digits;
    assert forall i :: 0 <= i < |plus| ==> !IsPhoneSeparator(plus[i]);
    assert CleanPhone(plus) == plus;
    assert plus[1..] == digits;
    if |digits| > 0 {
      assert IsAsciiDigit(digits[0]);
    }
  }

  // ---------------------------------------------------------------------
  // validate_customer_id
  // ---------------------------------------------------------------------

  /** The class `[A-Za-z0-9_-]`. */
  predicate IsIdChar(c: char) {
    IsAsciiLetter(c) || IsAsciiDigit(c) || c == '_' || c == '-'
  }

  /** What the body of `^[A-Za-z0-9_-]{3,20}$` accepts. */
  predicate IdBody(t: string) {
    3 <= |t| <= 20 && forall i :: 0 <= i < |t| ==> IsIdChar(t[i])
  }

  /** `validate_customer_id` as written: empty input fails; otherwise the
      pattern is applied with `re.match`, whose `$` also matches just before
      a final newline. */
  function ValidateCustomerId(customerId: string): (r: bool)
    ensures IdBody(customerId) ==> r
    ensures r ==> 3 <= |customerId| <= 21
    ensures r ==> forall i :: 0 <= i < |customerId| - 1 ==> IsIdChar(customerId[i])
    ensures r && customerId[|customerId| - 1] != '\n' ==> IdBody(customerId)
  {
    if customerId == [] then false
    else
      assert forall i :: 0 <= i < |customerId| - 1 ==> customerId[..|customerId| - 1][i] == customerId[i];
      MatchesToEnd(IdBody, customerId)
  }

  /** The identifier check as evidently intended: the whole string is three
      to twenty identifier characters. */
  function ValidateCustomerIdStrict(customerId: string): (r: bool)
    ensures r ==> ValidateCustomerId(customerId)
    ensures r ==> customerId[|customerId| - 1] != '\n'
  {
    IdBody(customerId)
  }

  /** On text that does not end in a newline the check accepts exactly
      three to twenty letters, digits, underscores and dashes. */
  lemma CustomerIdWithoutNewline(customerId: string)
    requires customerId == [] || customerId[|customerId| - 1] != '\n'
    ensures ValidateCustomerId(customerId) <==>
              3 <= |customerId| <= 20 &&
              forall i :: 0 <= i < |customerId| ==> IsIdChar(customerId[i])
  {
  }

  /** An identifier whose characters are all allowed passes exactly when its
      length is 3 to 20: lengths 2 and 21 fail, 3 and 20 pass. */
  lemma CustomerIdLengthBounds(customerId: string)
    requires forall i :: 0 <= i < |customerId| ==> IsIdChar(customerId[i])
    ensures ValidateCustomerId(customerId) <==> 3 <= |customerId| <= 20
  {
    if customerId != [] {
      assert IsIdChar(customerId[|customerId| - 1]);
    }
  }

  /** As written, a valid identifier followed by one newline is accepted
      too, although the newline is not an identifier character. */
  lemma CustomerIdTrailingNewline(t: string)
    ensures ValidateCustomerId(t + ['\n']) == ValidateCustomerIdStrict(t)
    ensures !ValidateCustomerIdStrict(t + ['\n'])
  {
    var s := t + ['\n'];
    assert s[..|s| - 1] == t;
    assert !IsIdChar(s[|s| - 1]);
  }

  /** A concrete instance: `"abc\n"` passes the check as written and fails
      the intended one. */
  lemma CustomerIdNewlineWitness()
    ensures ValidateCustomerId("abc\n")
    ensures !ValidateCustomerIdStrict("abc\n")
  {
    CustomerIdTrailingNewline("abc");
    assert "abc" + ['\n'] == "abc\n";
  }

  /** The intended check accepts exactly what the written one accepts,
      minus the strings that end in a newline. */
  lemma CustomerIdStrictAgrees(customerId: string)
    ensures ValidateCustomerIdStrict(customerId) <==>
              ValidateCustomerId(customerId) &&
              (customerId == [] || customerId[|customerId| - 1] != '\n')
  {
    if customerId != [] && customerId[|customerId| - 1] == '\n' {
      CustomerIdTrailingNewline(customerId[..|customerId| - 1]);
      assert customerId[..|customerId| - 1] + ['\n'] == customerId;
    }
  }

  // ---------------------------------------------------------------------
  // validate_amount
  // ---------------------------------------------------------------------

  /** A value Python's `float()` can produce. */
  datatype PyFloat = Finite(value: real) | Infinity(negative: bool) | NaN

  /** Python's `x >= y` on floats: every comparison with NaN is false, and
      the infinities lie beyond every finite value. */
  predicate FloatAtLeast(x: PyFloat, y: PyFloat) {
    match (x, y)
    case (NaN, _) => false
    case (_, NaN) => false
    case (Infinity(nx), Infinity(ny)) => !nx || ny
    case (Infinity(nx), Finite(_)) => !nx
    case (Finite(_), Infinity(ny)) => ny
    case (Finite(a), Finite(b)) => a >= b
  }

  /** `validate_amount`, given the outcome of `float(amount)`: `None` when
      the conversion raised `ValueError` or `TypeError`. */
  function ValidateAmount(parsed: Option<PyFloat>): (r: bool)
    ensures r <==> parsed.Some? && FloatAtLeast(parsed.value, Finite(0.0))
  {
    match parsed
    case None => false
    case Some(Finite(v)) => v >= 0.0
    case Some(Infinity(negative)) => !negative
    case Some(NaN) => false
  }

  /** An amount passes exactly when it parsed to a number, NaN excluded,
      that is at least zero: negatives fail, zero passes, and text that does
      not parse fails. */
  lemma AmountAcceptsNonNegative(parsed: Option<PyFloat>)
    ensures ValidateAmount(parsed) <==>
              parsed.Some? &&
              match parsed.value
              case Finite(v) => 0.0 <= v
              case Infinity(negative) => !negative
              case NaN => false
    ensures ValidateAmount(Some(Finite(0.0)))
    ensures forall v: real :: v < 0.0 ==> !ValidateAmount(Some(Finite(v)))
  {
  }

  // ---------------------------------------------------------------------
  // validate_name
  // ---------------------------------------------------------------------

  /** The class `[A-Za-z\s\.\-\']`. */
  predicate IsNameChar(c: char) {
    IsAsciiLetter(c) || IsSpace(c) || c == '.' || c == '-' || c == '\''
  }

  /** What the body of `^[A-Za-z\s\.\-\']+$` accepts. */
  predicate NameBody(t: string) {
    |t| >= 1 && forall i :: 0 <= i < |t| ==> IsNameChar(t[i])
  }

  /** `validate_name`: the raw length must be 2 to 100, then the pattern is
      applied with `re.match`. */
  function ValidateName(name: string): (r: bool)
    ensures r ==> 2 <= |name| <= 100
    ensures r ==> forall i :: 0 <= i < |name| ==> IsNameChar(name[i])
  {
    if name == [] || |name| < 2 || |name| > 100 then false
    else
      assert IsSpace('\n');
      assert forall i :: 0 <= i < |name| - 1 ==> name[..|name| - 1][i] == name[i];
      MatchesToEnd(NameBody, name)
  }

  /** A name passes exactly when it has 2 to 100 characters, each an ASCII
      letter, whitespace, a dot, a dash or an apostrophe. The newline
      tolerance of `$` adds nothing here, since a newline is whitespace. */
  lemma NameCharacterisation(name: string)
    ensures ValidateName(name) <==>
              2 <= |name| <= 100 &&
              forall i :: 0 <= i < |name| ==> IsNameChar(name[i])
  {
    if 2 <= |name| <= 100 && name[|name| - 1] == '\n' && NameBody(name[..|name| - 1]) {
      assert IsSpace('\n');
      assert forall i :: 0 <= i < |name| - 1 ==> name[i] == name[..|name| - 1][i];
    }
  }

  // ---------------------------------------------------------------------
  // sanitize_input
  // ---------------------------------------------------------------------

  /** The cap `sanitize_input` puts on free text. */
  const MaxInputLength: nat := 500

  /** `sanitize_input`: empty text gives the empty string; otherwise the
      stripped text cut to its first 500 characters. */
  function SanitizeInput(text: string): (r: string)
    ensures |r| <= MaxInputLength
    ensures r == [] || !IsSpace(r[0])
    ensures |r| <= |Strip(text)| && r == Strip(text)[..|r|]
    ensures |Strip(text)| <= MaxInputLength ==> r == Strip(text)
    ensures |Strip(text)| > MaxInputLength ==> |r| == MaxInputLength
    ensures LeadingSpaces(text) + |r| <= |text| &&
            r == text[LeadingSpaces(text)..LeadingSpaces(text) + |r|]
  {
    if text == [] then [] else Prefix(Strip(text), MaxInputLength)
  }

  /** Sanitising yields nothing exactly when the text is all whitespace. */
  lemma SanitizeEmptyIffBlank(text: string)
    ensures SanitizeInput(text) == [] <==> forall i :: 0 <= i < |text| ==> IsSpace(text[i])
  {
    StripEmptyIffAllSpace(text);
  }

  /** Text whose strip fits the cap is a fixed point of sanitising twice. */
  lemma SanitizeIdempotentWhenShort(text: string)
    requires |Strip(text)| <= MaxInputLength
    ensures SanitizeInput(SanitizeInput(text)) == SanitizeInput(text)
  {
    StripIdempotent(text);
  }

  /** Sanitising is not idempotent in general: when the cut lands just after
      a space, the first result ends in whitespace and a second pass strips
      it. */
  lemma SanitizeNotIdempotent(head: string, tail: string)
    requires |head| == MaxInputLength - 1
    requires !IsSpace(head[0]) && !IsSpace(head[|head| - 1])
    requires tail != [] && !IsSpace(tail[|tail| - 1])
    ensures var once := SanitizeInput(head + [' '] + tail);
            SanitizeInput(once) != once
  {
    var text := head + [' '] + tail;
    StripOfStripped(text);
    var once := SanitizeInput(text);
    assert once == head + [' '];
    var twice := SanitizeInput(once);
    assert |twice| <= |Strip(once)|;
    assert EndOfText(once) < |once|;
    assert |Strip(once)| < |once|;
  }

  /** Identifier and name examples: a four-character identifier passes, a
      two-character one fails, and a two-word name passes. */
  lemma IdAndNameExamples()
    ensures ValidateCustomerId("C001") && !ValidateCustomerId("C1")
    ensures ValidateName("Asha Rao")
  {
    assert ValidateCustomerId("C001") by { CustomerIdLengthBounds("C001"); }
    assert !ValidateCustomerId("C1") by { CustomerIdLengthBounds("C1"); }
    assert ValidateName("Asha Rao") by { NameCharacterisation("Asha Rao"); }
  }
}
