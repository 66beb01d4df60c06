/**
 * `AddItemForm` (catalog/forms.py): the `imdb_url` CharField as Django cleans it, followed by
 * the form's own `clean_imdb_url` check.
 */
module CatalogForms {
  import opened Wrappers
  import opened Text
  import ImdbUtils

  const ImdbUrlMaxLength: nat := 200

  /**
   * Why a submission is refused: the field is empty after stripping; one or both of the field's
   * validators (length and null characters), which Django runs together and reports together;
   * or the text holds no IMDB id.
   */
  datatype FieldError = Required | Validators(tooLong: bool, nullCharacter: bool) | NotImdbUrl

  /**
   * Django's `CharField(max_length=200).clean`: a missing value is empty, the text is stripped,
   * an empty result is refused as required, and then the length and null-character validators run.
   */
  function CleanCharField(raw: Option<string>): (r: Result<string, FieldError>)
    ensures r.Ok? <==> raw.Some? && 0 < |Strip(raw.value)| <= ImdbUrlMaxLength && '\0' !in Strip(raw.value)
    ensures r.Ok? ==> r.value == Strip(raw.value)
    ensures r == Err(Required) <==> raw.None? || Strip(raw.value) == ""
    ensures r.Err? && r.error.Validators? ==> r.error.tooLong || r.error.nullCharacter
    ensures r.Err? ==> r.error != NotImdbUrl
  {
    var value := if raw.None? then "" else Strip(raw.value);
    if value == "" then Err(Required)
    else if |value| > ImdbUrlMaxLength || '\0' in value then
      Err(Validators(|value| > ImdbUrlMaxLength, '\0' in value))
    else Ok(value)
  }

  /** `clean_imdb_url`: the cleaned text is kept as it is when an IMDB id can be extracted from it. */
  function CleanImdbUrl(url: string): (r: Result<string, FieldError>)
    ensures r.Ok? <==> ImdbUtils.ExtractImdbId(Some(url)).Some?
    ensures r.Ok? ==> r.value == url
    ensures r.Err? ==> r.error == NotImdbUrl
  {
    if ImdbUtils.ExtractImdbId(Some(url)).None? then Err(NotImdbUrl) else Ok(url)
  }

  /** The whole validation of the form: field cleaning first, then `clean_imdb_url`. */
  function ValidateAddItem(raw: Option<string>): (r: Result<string, FieldError>)
    ensures r.Ok? ==> raw.Some? && r.value == Strip(raw.value) && ImdbUtils.ExtractImdbId(Some(r.value)).Some?
    ensures r.Ok? ==> |r.value| <= ImdbUrlMaxLength
  {
    match CleanCharField(raw)
    case Err(e) => Err(e)
    case Ok(url) => CleanImdbUrl(url)
  }

  /**
   * A submission is accepted exactly when its stripped text has 1 to 200 characters, no null
   * character, and somewhere holds "tt" followed by a digit; whatever surrounds the id does not matter.
   */
  lemma AcceptedIff(raw: string)
    ensures ValidateAddItem(Some(raw)).Ok? <==>
              && 0 < |Strip(raw)| <= ImdbUrlMaxLength && '\0' !in Strip(raw)
              && exists i :: ImdbUtils.MatchesAt(ImdbUtils.TitlePrefix, Strip(raw), i)
  {
    if Strip(raw) != "" {
      ImdbUtils.ExtractIdFindsIff(ImdbUtils.TitlePrefix, Strip(raw));
    }
  }

  /** An accepted submission yields the stripped text the user typed, not the extracted id. */
  lemma AcceptedKeepsText(raw: string, i: nat)
    requires 0 < |Strip(raw)| <= ImdbUrlMaxLength && '\0' !in Strip(raw)
    requires ImdbUtils.MatchesAt(ImdbUtils.TitlePrefix, Strip(raw), i)
    ensures ValidateAddItem(Some(raw)) == Ok(Strip(raw))
  {
    AcceptedIff(raw);
  }
}
