/**
 * CustomBooleanDeserializer: the JSON reader for the `useFlag` style Boolean fields. "1" and
 * "true" (any case) are true, "0" and "false" (any case) are false, missing or whitespace-only
 * text is null, and anything else is rejected with IllegalArgumentException.
 */
module CustomBooleanDeserializer {
  import opened Wrappers
  import JavaText

  /** IllegalArgumentException("Invalid boolean value: " + value), with the trimmed value. */
  datatype DeserializeError = InvalidBooleanValue(value: string)

  predicate IsTrueText(t: string) {
    t == "1" || JavaText.EqualsIgnoreCase(t, "true")
  }

  predicate IsFalseText(t: string) {
    t == "0" || JavaText.EqualsIgnoreCase(t, "false")
  }

  /** deserialize: the parser's text, or None when it has none. */
  function Deserialize(text: Option<string>): (r: Result<Option<bool>, DeserializeError>)
    ensures r == Ok(None) <==> text.None? || JavaText.Trim(text.value) == []
    ensures r == Ok(Some(true)) <==> text.Some? && IsTrueText(JavaText.Trim(text.value))
    ensures r == Ok(Some(false)) <==> text.Some? && IsFalseText(JavaText.Trim(text.value))
    ensures r.Err? <==>
              text.Some? && JavaText.Trim(text.value) != []
              && !IsTrueText(JavaText.Trim(text.value)) && !IsFalseText(JavaText.Trim(text.value))
    ensures r.Err? ==> r.error == InvalidBooleanValue(JavaText.Trim(text.value))
  {
    if text.None? || JavaText.Trim(text.value) == [] then Ok(None)
    else
      var value := JavaText.Trim(text.value);
      if IsTrueText(value) then Ok(Some(true))
      else if IsFalseText(value) then Ok(Some(false))
      else Err(InvalidBooleanValue(value))
  }

  /** Surrounding blanks never change the outcome. */
  lemma DeserializeIgnoresPadding(s: string)
    ensures Deserialize(Some(s)) == Deserialize(Some(JavaText.Trim(s)))
  {
    JavaText.TrimIdempotent(s);
  }

  /** Jackson writes a Boolean as `true` or `false`; reading that text gives the value back. */
  lemma DeserializeWrittenBoolean(b: bool)
    ensures Deserialize(Some(if b then "true" else "false")) == Ok(Some(b))
  {
    if b {
      JavaText.TrimUntrimmable("true");
      JavaText.EqualsIgnoreCaseItself("true");
    } else {
      JavaText.TrimUntrimmable("false");
      JavaText.EqualsIgnoreCaseItself("false");
    }
  }
}

/**
 * OneZeroBooleanTypeHandler: the MyBatis mapping of Boolean columns stored as VARCHAR/CHAR. A
 * Boolean is written as "1" or "0"; a column is read as true for "1", Y or TRUE and false for
 * "0", N or FALSE (letters in any case, blanks trimmed), and as null otherwise.
 */
module OneZeroBooleanTypeHandler {
  import opened Wrappers
  import JavaText
  import CustomBooleanDeserializer

  /** setNonNullParameter: the column text written for a parameter. */
  function SetNonNullParameter(parameter: Option<bool>): (r: string)
    ensures r == "1" <==> parameter == Some(true)
    ensures r == "0" <==> parameter != Some(true)
  {
    if parameter == Some(true) then "1" else "0"
  }

  predicate IsTrueColumn(t: string) {
    t == "1" || JavaText.EqualsIgnoreCase(t, "Y") || JavaText.EqualsIgnoreCase(t, "TRUE")
  }

  predicate IsFalseColumn(t: string) {
    t == "0" || JavaText.EqualsIgnoreCase(t, "N") || JavaText.EqualsIgnoreCase(t, "FALSE")
  }

  /** toBoolean, which all three getNullableResult overloads apply to the column text. */
  function ToBoolean(s: Option<string>): (r: Option<bool>)
    ensures r == Some(true) <==> s.Some? && IsTrueColumn(JavaText.Trim(s.value))
    ensures r == Some(false) <==> s.Some? && IsFalseColumn(JavaText.Trim(s.value))
    ensures r.None? <==> s.None? || (!IsTrueColumn(JavaText.Trim(s.value)) && !IsFalseColumn(JavaText.Trim(s.value)))
  {
    if s.None? then None
    else
      var t := JavaText.Trim(s.value);
      if IsTrueColumn(t) then Some(true)
      else if IsFalseColumn(t) then Some(false)
      else None
  }

  /** Reading back what was written gives the parameter, with null written as false. */
  lemma ReadWritten(parameter: Option<bool>)
    ensures ToBoolean(Some(SetNonNullParameter(parameter))) == Some(parameter == Some(true))
  {
    if parameter == Some(true) {
      JavaText.TrimUntrimmable("1");
      assert IsTrueColumn("1");
    } else {
      JavaText.TrimUntrimmable("0");
      assert !JavaText.EqualsIgnoreCase("0", "Y") && !JavaText.EqualsIgnoreCase("0", "TRUE");
      assert !IsTrueColumn("0") && IsFalseColumn("0");
    }
  }

  /** Every text the JSON deserializer turns into a Boolean reads as the same Boolean from a
      column. */
  lemma ColumnAgreesWithJson(s: string, b: bool)
    requires CustomBooleanDeserializer.Deserialize(Some(s)) == Ok(Some(b))
    ensures ToBoolean(Some(s)) == Some(b)
  {
    TextAgrees(JavaText.Trim(s));
  }

  /** The column words cover the JSON words, with the same meaning. */
  lemma TextAgrees(t: string)
    ensures CustomBooleanDeserializer.IsTrueText(t) ==> IsTrueColumn(t)
    ensures CustomBooleanDeserializer.IsFalseText(t) ==> IsFalseColumn(t)
  {
    if JavaText.EqualsIgnoreCase(t, "true") {
      assert forall i :: 0 <= i < |t| ==> JavaText.FoldCase("true"[i]) == JavaText.FoldCase("TRUE"[i]);
    }
    if JavaText.EqualsIgnoreCase(t, "false") {
      assert forall i :: 0 <= i < |t| ==> JavaText.FoldCase("false"[i]) == JavaText.FoldCase("FALSE"[i]);
    }
  }
}

/**
 * JacksonConfig: every JSON string is trimmed on the way in, and a string left empty becomes null.
 */
module JacksonConfig {
  import opened Wrappers
  import JavaText

  /** The String deserializer registered by jacksonStringTrimToNull. */
  function TrimToNull(s: Option<string>): (r: Option<string>)
    ensures r.None? <==> s.None? || JavaText.Trim(s.value) == []
    ensures r.Some? ==> r.value == JavaText.Trim(s.value)
    ensures r.Some? ==> r.value != [] && !JavaText.IsTrimmable(r.value[0]) && !JavaText.IsTrimmable(r.value[|r.value| - 1])
  {
    if s.None? then None
    else
      var t := JavaText.Trim(s.value);
      if t == [] then None else Some(t)
  }

  /** Reading a value that was already read changes nothing. */
  lemma TrimToNullIdempotent(s: Option<string>)
    ensures TrimToNull(TrimToNull(s)) == TrimToNull(s)
  {
    if s.Some? {
      JavaText.TrimIdempotent(s.value);
    }
  }
}
