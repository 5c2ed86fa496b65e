/** The rule both forms apply to their required text field (task title, project name). */
module FormRules {
  import opened Wrappers
  import Text

  /** The two messages a required text field can show. */
  datatype FieldError = Required | TooLong

  /**
   * The longest value accepted, in JavaScript `length` units (UTF-16 code
   * units) of the untrimmed text.
   */
  const MaxLength := 100

  /**
   * The error the form records: "required" for blank text, replaced by "too
   * long" when the untrimmed text exceeds the limit.
   */
  function TextFieldError(s: string): (r: Option<FieldError>)
    ensures r.None? <==> Text.Trim(s) != "" && Text.Utf16Length(s) <= MaxLength
    ensures r == Some(TooLong) <==> Text.Utf16Length(s) > MaxLength
    ensures r == Some(Required) <==>
      Text.Utf16Length(s) <= MaxLength && forall k :: 0 <= k < |s| ==> Text.IsSpace(s[k])
  {
    Text.TrimEmptyIffBlank(s);
    var e := if Text.Trim(s) == "" then Some(Required) else None;
    if Text.Utf16Length(s) > MaxLength then Some(TooLong) else e
  }

  /** The "too long" message wins even for text that is all whitespace. */
  lemma LongBlankIsTooLong(s: string)
    requires |s| > MaxLength && forall k :: 0 <= k < |s| ==> Text.IsSpace(s[k])
    ensures TextFieldError(s) == Some(TooLong)
  {
  }

  /**
   * Astral characters (emoji, say) count twice: 51 of them already exceed
   * the limit although the text has only 51 characters.
   */
  lemma AstralTextCountsTwice(s: string)
    requires |s| > MaxLength / 2 && forall k :: 0 <= k < |s| ==> Text.IsAstral(s[k])
    ensures TextFieldError(s) == Some(TooLong)
  {
  }

  /** Text that passed the check still passes once trimmed. */
  lemma TrimmedStillValid(s: string)
    ensures TextFieldError(s).None? ==>
      TextFieldError(Text.Trim(s)).None? && Text.Trim(s) != "" &&
      Text.Utf16Length(Text.Trim(s)) <= MaxLength
  {
    Text.TrimIdempotent(s);
    var r := Text.Trim(s);
    var i, j :| Text.BlankOutside(s, i, j) && r == s[i..j];
    Text.Utf16LengthSlice(s, i, j);
  }
}
