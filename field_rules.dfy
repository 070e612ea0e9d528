/**
 * The per-field validation rules attached to the registration form and to the
 * query parameters of the change actions: the regular expressions
 * `^[a-zA-Z0-9]*$` and `^[a-zA-Zа-яА-Я]*$`, the range `[0;2]` for gender and
 * the `DateNotInFuture` attribute. Dates are integer ticks; "now" is a parameter.
 */
module FieldRules {

  import opened Optional

  /** A character of the class `[a-zA-Z0-9]`. */
  predicate IsLatinLetterOrDigit(c: char) {
    'a' <= c <= 'z' || 'A' <= c <= 'Z' || '0' <= c <= '9'
  }

  /** A character of the class `[a-zA-Zа-яА-Я]`: Latin letters, and the Cyrillic
      ranges U+0430..U+044F and U+0410..U+042F (which do not contain ё and Ё). */
  predicate IsNameLetter(c: char) {
    'a' <= c <= 'z' || 'A' <= c <= 'Z' || '\U{0430}' <= c <= '\U{044F}' || '\U{0410}' <= c <= '\U{042F}'
  }

  /** `^[a-zA-Z0-9]*$`: the pattern alone admits the empty string. */
  predicate MatchesAlphanumeric(s: string) {
    forall i :: 0 <= i < |s| ==> IsLatinLetterOrDigit(s[i])
  }

  /** `^[a-zA-Zа-яА-Я]*$`. */
  predicate MatchesNameAlphabet(s: string) {
    forall i :: 0 <= i < |s| ==> IsNameLetter(s[i])
  }

  /** A `[Required]` login or password under `^[a-zA-Z0-9]*$`: `Required` refuses the
      empty and the all-white-space string; no white space matches the pattern, so
      together they mean "non-empty and alphanumeric". */
  predicate IsCredentialText(s: string) {
    |s| > 0 && MatchesAlphanumeric(s)
  }

  /** A `[Required]` name under `^[a-zA-Zа-яА-Я]*$`. */
  predicate IsNameText(s: string) {
    |s| > 0 && MatchesNameAlphabet(s)
  }

  /** `[Range(0, 2)]` on the gender (0 female, 1 male, 2 undefined). */
  predicate IsGenderInRange(g: int) {
    0 <= g <= 2
  }

  /** A colon never occurs in a credential, which is what makes the
      `login:password` transport format unambiguous. */
  lemma CredentialHasNoColon(s: string)
    requires IsCredentialText(s)
    ensures ':' !in s
  {
  }

  /** The value handed to a validation attribute: null, a `DateTime` (as ticks) or anything else. */
  datatype AttributeValue = NullValue | DateValue(ticks: int) | OtherValue

  datatype ValidationResult = Success | Failure(message: string)

  const BirthdayInFutureMessage := "Birthday cannot be in the future"

  /** `DateNotInFutureAttribute.IsValid`: a date passes only when strictly earlier than
      `now`; a date equal to `now` fails; null and non-date values pass. */
  function DateNotInFuture(value: AttributeValue, now: int): (r: ValidationResult)
    ensures !value.DateValue? ==> r == Success
    ensures value.DateValue? ==> (r == Success <==> value.ticks < now)
    ensures r != Success ==> r == Failure(BirthdayInFutureMessage)
  {
    match value
    case DateValue(date) =>
      if date < now then Success else Failure(BirthdayInFutureMessage)
    case _ => Success
  }

  /** The attribute applied to a `DateTime?` property or parameter. */
  predicate IsBirthdayAcceptable(birthday: Option<int>, now: int) {
    DateNotInFuture(if birthday.Some? then DateValue(birthday.value) else NullValue, now) == Success
  }
}
