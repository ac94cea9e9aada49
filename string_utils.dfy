/**
  Null and blank tests on Java strings. A Java `String` reference is either
  null or a sequence of characters; `JString` keeps the two apart so that the
  manager's argument checks can be stated precisely.
 */
module StringUtils {

  /** A `java.lang.String` reference: null, or a character sequence (possibly empty). */
  datatype JString = Null | Str(chars: string)

  /** `isNull`: true exactly for the null reference. */
  predicate IsNull(s: JString)
  {
    s == Null
  }

  /** `isNotNull`: the negation of `IsNull`. */
  predicate IsNotNull(s: JString)
  {
    !IsNull(s)
  }

  /** `isBlank`: null, or equal to the empty string. */
  predicate IsBlank(s: JString)
  {
    if IsNull(s) then true
    else s.chars == ""
  }

  /** `isNotBlank`: the negation of `IsBlank`. */
  predicate IsNotBlank(s: JString)
  {
    !IsBlank(s)
  }

  /** Null-ness is decided by the shape of the reference alone. */
  lemma NullMeansNoString(s: JString)
    ensures IsNull(s) <==> !s.Str?
    ensures IsNotNull(s) <==> s.Str?
  {
  }

  /** Blank means null or no characters; not blank means at least one character. */
  lemma BlankMeansNoCharacters(s: JString)
    ensures IsBlank(s) <==> s == Null || s == Str("")
    ensures IsNotBlank(s) <==> s.Str? && |s.chars| > 0
  {
  }

  /** Null implies blank, but not conversely: the empty string is blank and not null. */
  lemma NullIsBlankButNotConversely(s: JString)
    ensures IsNull(s) ==> IsBlank(s)
    ensures IsBlank(Str("")) && !IsNull(Str(""))
  {
  }
}
