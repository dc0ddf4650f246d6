/**
 * The real-data test the extractor applies to a stripped text value: a value
 * counts as something a user typed, rather than one of a form's option
 * literals, when it has a digit, an `@`, a space, more than 20 characters,
 * or more than 2 characters and is not one of eleven option words.
 */
module Heuristic {
  import opened PyStr

  /** The option words compared against the lower-cased value. */
  const CommonOptions: set<string> :=
    {"yes", "no", "male", "female", "english", "french",
     "married", "single", "other", "both", "neither"}

  predicate IsRealData(value: string) {
    HasDigit(value) || '@' in value || ' ' in value || |value| > 20
    || (|value| > 2 && Lower(value) !in CommonOptions)
  }

  /** A value with a digit, an `@` or a space is kept whatever the option
      list says. */
  lemma MarkedValueIsRealData(value: string)
    requires HasDigit(value) || '@' in value || ' ' in value
    ensures IsRealData(value)
  {
  }

  /** Every option word is at most 7 characters long. */
  lemma OptionsAreShort()
    ensures forall w :: w in CommonOptions ==> |w| <= 7
  {
  }

  /** A value without a digit, `@` or space is discarded exactly when it is
      at most 2 characters long or is an option word in some letter case:
      the length-over-20 clause never decides anything on its own. */
  lemma UnmarkedValueRule(value: string)
    requires !HasDigit(value) && '@' !in value && ' ' !in value
    ensures !IsRealData(value) <==> |value| <= 2 || Lower(value) in CommonOptions
  {
    if |value| > 20 {
      OptionsAreShort();
      assert |Lower(value)| > 7;
      assert Lower(value) !in CommonOptions;
    }
  }
}
