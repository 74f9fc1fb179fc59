/** The persona solver (`HuggingChatPersonaSolver`, __init__.py): a fixed
    instruction template naming a persona, followed by the user's
    utterance, and the plain answer sanitiser on the reply. The solver only
    holds what it was configured with, so it is a value. */
module Persona {
  import opened Wrappers
  import opened Text
  import Sanitizer

  const DefaultPersonaText := "helpful, creative, clever, and very friendly"

  /** The template up to the persona. */
  const Intro := "You are a helpful assistant. You understand all languages. You give short and factual answers. You answer in the same language the question was asked. You are "

  /** Python truthiness of an optional string: present and non-empty. */
  predicate Truthy(v: Option<string>) {
    v.Some? && v.value != []
  }

  /** Python's `v or fallback`. */
  function OrElse(v: Option<string>, fallback: string): (r: string)
    ensures Truthy(v) ==> r == v.value
    ensures !Truthy(v) ==> r == fallback
  {
    if Truthy(v) then v.value else fallback
  }

  /** `config.get("persona") or "helpful, creative, clever, and very friendly"`. */
  function DefaultPersona(configPersona: Option<string>): (r: string)
    ensures r != []
    ensures Truthy(configPersona) ==> r == configPersona.value
    ensures !Truthy(configPersona) ==> r == DefaultPersonaText
  {
    OrElse(configPersona, DefaultPersonaText)
  }

  /** A Python exception that ends a call. */
  datatype PyError = UnboundLocalError(name: string)

  /** The prompt sent to the service and the answer returned. */
  datatype Exchange = Exchange(prompt: string, answer: Option<string>)

  /** The solver's configuration: `config["persona"]` and the
      `default_persona` computed from it at construction. */
  datatype PersonaSolver = PersonaSolver(configPersona: Option<string>, defaultPersona: string)
  {
    /** `persona or self.config.get("persona") or self.default_persona`. */
    function ResolvePersona(persona: Option<string>): string {
      OrElse(persona, OrElse(configPersona, defaultPersona))
    }

    /** `get_prompt`: the template with the resolved persona, a blank
        line, then the utterance and a line break. */
    function Prompt(utt: string, persona: Option<string>): string {
      Intro + ResolvePersona(persona) + ".\n\n" + utt + "\n"
    }

    /** `get_spoken_answer` as meant: the persona comes from the caller's
        context, else `default_persona`; `response` is the service's reply
        to the prompt. */
    function SpokenAnswer(query: string, contextPersona: Option<string>, response: string): (r: Exchange)
      requires defaultPersona != []
      ensures r.prompt == Prompt(query, Some(if Truthy(contextPersona) then contextPersona.value else defaultPersona))
      ensures r.answer.None? <==> var a := Strip(response, Whitespace);
        a == [] || AllOf(a, Sanitizer.QuestionMarks) || AllOf(a, Sanitizer.Underscores)
      ensures r.answer.Some? ==> r.answer.value == Strip(response, Whitespace)
    {
      var persona := OrElse(contextPersona, defaultPersona);
      Exchange(Prompt(query, Some(persona)), Sanitizer.Sanitize(response))
    }

    /** `get_spoken_answer` as written: its first line reads the local
        `context` before anything is bound to it, so every call raises
        before a prompt is built or a request is made, whatever the caller
        passes. */
    function SpokenAnswerAsWritten(query: string, contextPersona: Option<string>): (r: Result<Exchange, PyError>)
      ensures r.Failure? && r.error.name == "context"
    {
      Failure(UnboundLocalError("context"))
    }
  }

  /** `HuggingChatPersonaSolver.__init__` on `config["persona"]`. */
  function NewPersonaSolver(configPersona: Option<string>): (s: PersonaSolver)
    ensures s.configPersona == configPersona && s.defaultPersona != []
    ensures Truthy(configPersona) ==> s.defaultPersona == configPersona.value
    ensures !Truthy(configPersona) ==> s.defaultPersona == DefaultPersonaText
  {
    PersonaSolver(configPersona, DefaultPersona(configPersona))
  }

  /** The resolved persona is the argument if truthy, else the configured
      persona if truthy, else the built-in one: the configuration is
      consulted a second time to no effect, and the result is never empty. */
  lemma ResolvePersonaChain(configPersona: Option<string>, persona: Option<string>)
    ensures var r := NewPersonaSolver(configPersona).ResolvePersona(persona);
      && r != []
      && (Truthy(persona) ==> r == persona.value)
      && (!Truthy(persona) && Truthy(configPersona) ==> r == configPersona.value)
      && (!Truthy(persona) && !Truthy(configPersona) ==> r == DefaultPersonaText)
      && r == OrElse(persona, NewPersonaSolver(configPersona).defaultPersona)
  {
  }

  /** The prompt is made of the template, the persona, a blank line, the
      utterance and a final line break, so both can be read back from it. */
  lemma PromptParts(s: PersonaSolver, utt: string, persona: Option<string>)
    ensures var p, q := s.Prompt(utt, persona), s.ResolvePersona(persona);
      && |p| == |Intro| + |q| + |utt| + 4
      && p[..|Intro|] == Intro
      && p[|Intro|..|Intro| + |q|] == q
      && p[|Intro| + |q|..|Intro| + |q| + 3] == ".\n\n"
      && p[|p| - |utt| - 1..|p| - 1] == utt
      && EndsWith(p, utt + "\n")
  {
    var p, q := s.Prompt(utt, persona), s.ResolvePersona(persona);
    var head := Intro + q + ".\n\n";
    assert p == head + (utt + "\n");
    assert |head| == |Intro| + |q| + 3;
    assert p[..|head|] == head;
    assert head[..|Intro|] == Intro && head[|Intro|..|Intro| + |q|] == q;
    assert head[|Intro| + |q|..] == ".\n\n";
    assert p[|head|..] == utt + "\n";
  }

  /** Different utterances give different prompts under one persona. */
  lemma PromptDeterminesUtterance(s: PersonaSolver, u1: string, u2: string, persona: Option<string>)
    requires s.Prompt(u1, persona) == s.Prompt(u2, persona)
    ensures u1 == u2
  {
    PromptParts(s, u1, persona);
    PromptParts(s, u2, persona);
  }

  /** Different resolved personas give different prompts for one utterance. */
  lemma PromptDeterminesPersona(s: PersonaSolver, utt: string, p1: Option<string>, p2: Option<string>)
    requires s.Prompt(utt, p1) == s.Prompt(utt, p2)
    ensures s.ResolvePersona(p1) == s.ResolvePersona(p2)
  {
    PromptParts(s, utt, p1);
    PromptParts(s, utt, p2);
  }

  /** Every call of the method as written fails on `context`, while the
      method as meant always builds a prompt ending in the query. */
  lemma ContextIsUnbound(s: PersonaSolver, query: string, contextPersona: Option<string>, response: string)
    requires s.defaultPersona != []
    ensures s.SpokenAnswerAsWritten(query, contextPersona) == Failure(UnboundLocalError("context"))
    ensures EndsWith(s.SpokenAnswer(query, contextPersona, response).prompt, query + "\n")
  {
    PromptParts(s, query, Some(OrElse(contextPersona, s.defaultPersona)));
  }
}
