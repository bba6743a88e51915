/** The closed table of supported languages: display name to language code. */
module Languages {

  datatype Option<T> = None | Some(value: T)

  /** The supported languages, one variant each. */
  datatype Language = Tamil | Hindi | English | Japanese | Bengali
  {
    /** The name shown in the language pickers. */
    function DisplayName(): (name: string)
    {
      match this
      case Tamil => "Tamil"
      case Hindi => "Hindi"
      case English => "English"
      case Japanese => "Japanese"
      case Bengali => "Bengali"
    }

    /** The language code handed to the translation service. */
    function Code(): (code: string)
    {
      match this
      case Tamil => "ta"
      case Hindi => "hi"
      case English => "en"
      case Japanese => "ja"
      case Bengali => "bn"
    }
  }

  /** The display-name table the pickers are filled from. */
  const LangDisplayNames: map<string, string> :=
    map["Tamil" := "ta", "Hindi" := "hi", "English" := "en", "Japanese" := "ja", "Bengali" := "bn"]

  /** `lang_display_names[name]`: the code for a display name, or `None`
      where Python raises `KeyError`. The lookup succeeds exactly for the
      names of the supported languages, and gives each one its own code. */
  function LookupCode(name: string): (r: Option<string>)
    ensures r.Some? <==> exists l: Language :: l.DisplayName() == name
    ensures forall l: Language :: l.DisplayName() == name ==> r == Some(l.Code())
  {
    if name in LangDisplayNames then
      var l := if name == "Tamil" then Tamil else if name == "Hindi" then Hindi
               else if name == "English" then English else if name == "Japanese" then Japanese
               else Bengali;
      assert l.DisplayName() == name;
      Some(LangDisplayNames[name])
    else
      None
  }

  /** Distinct languages have distinct names and distinct codes, so the table
      is a one-to-one correspondence between its names and its codes. */
  lemma NamesAndCodesDistinct(l: Language, m: Language)
    requires l != m
    ensures l.DisplayName() != m.DisplayName()
    ensures l.Code() != m.Code()
  {
  }
}
