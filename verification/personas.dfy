/**
 * Persona profiles (the JSON dicts loaded from the `characters` directory)
 * and the default that replaces an empty list before any random choice.
 */
module Personas {
  import opened Wrappers

  /** A persona dict; `None` stands for a key that is absent from the JSON object. */
  datatype Persona = Persona(name: Option<string>, style: Option<string>, randomFacts: seq<string>, quirks: seq<string>)

  /** `{"name": "Default", "style": "friendly"}` */
  const DefaultPersona: Persona := Persona(Some("Default"), Some("friendly"), [], [])

  /** The persona list actually used by the loop: the loaded one, or the default alone. */
  function WithDefault(loaded: seq<Persona>): (personas: seq<Persona>)
    ensures |personas| > 0
    ensures loaded != [] ==> personas == loaded
    ensures loaded == [] ==> personas == [DefaultPersona]
  {
    if loaded == [] then [DefaultPersona] else loaded
  }

  /** `character.get('name', 'Automated System')`: the name shown in the signature. */
  function SignatureName(p: Persona): string
  {
    match p.name
    case Some(n) => n
    case None => "Automated System"
  }

  /** `character.get('name')` as the CSV writer stores it: a missing name becomes an empty field. */
  function RecordedName(p: Persona): string
  {
    match p.name
    case Some(n) => n
    case None => ""
  }
}
