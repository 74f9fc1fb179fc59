/** The history solver (`HuggingChatPersonaPromptSolver`, prompts.py): it
    remembers the accepted (question, answer) pairs, renders the last
    `max_utts` of them as `Human:`/`AI:` lines under an instruction header,
    asks the new question as the next `Human:` turn, and cuts the reply at
    the first hallucinated turn before accepting it. */
module History {
  import opened Wrappers
  import opened Text
  import Sanitizer
  import Persona

  /** `config["model"]` is overwritten with this before model selection. */
  const ForcedModel := "llama-3"
  const DefaultMemorySize := 15

  /** The text a history ending in an open `Human:` turn would end with. */
  const NextTurn := "\nHuman: "

  /** The header up to the persona. */
  const HistoryIntro := "The following is a conversation with an AI assistant. The assistant understands all languages. The assistant gives short and factual answers. The assistant answers in the same language the question was asked. The assistant is "

  /** One remembered exchange: `(q, a)` in `qa_pairs`. */
  datatype Turn = Turn(question: string, answer: string)

  /** The configuration keys the solver reads; `None` for a missing key. */
  datatype Config = Config(
    model: Option<string>,
    persona: Option<string>,
    enableMemory: Option<bool>,
    memorySize: Option<int>)

  /** Python's `xs[start:]`: a suffix of `xs`. A non-negative start drops
      that many elements (all of them past the end); a negative start keeps
      that many from the end, or the whole list when it is longer. */
  function PySliceFrom<T>(xs: seq<T>, start: int): (r: seq<T>)
    ensures |r| <= |xs| && r == xs[|xs| - |r|..]
    ensures start >= 0 ==> |r| == if start <= |xs| then |xs| - start else 0
    ensures start < 0 ==> |r| == if -start <= |xs| then -start else |xs|
  {
    var from := if start >= 0 then (if start <= |xs| then start else |xs|)
                else (if -start <= |xs| then |xs| + start else 0);
    xs[from..]
  }

  /** The pairs `get_chat_history` renders: `qa_pairs[-max_utts:]` when
      there are more than `max_utts` of them, else all of them. */
  function Window(qa: seq<Turn>, maxUtts: int): seq<Turn> {
    if |qa| > maxUtts then PySliceFrom(qa, -1 * maxUtts) else qa
  }

  /** `f"Human: {q}\nAI: {a}"`. */
  function RenderTurn(t: Turn): string {
    Sanitizer.HumanMarker + t.question + "\n" + Sanitizer.AiMarker + t.answer
  }

  /** The rendered pairs joined by line breaks. */
  function Render(turns: seq<Turn>): string {
    Join("\n", seq(|turns|, i requires 0 <= i < |turns| => RenderTurn(turns[i])))
  }

  /** The instruction header naming the persona. */
  function Header(persona: string): string {
    HistoryIntro + persona + "."
  }

  /** The two `endswith` checks of `get_chat_history`: an open `Human:`
      turn keeps only the last eight characters, an open `AI:` turn gets a
      request to rephrase. */
  function Fixups(chat: string): string {
    var c := if EndsWith(chat, NextTurn) then chat[|chat| - |NextTurn|..] else chat;
    if EndsWith(c, "\nAI: ") then c + "Please rephrase the question\n" else c
  }

  /** `get_chat_history` on the pairs, the window size and the resolved persona. */
  function ChatHistory(qa: seq<Turn>, maxUtts: int, persona: string): string {
    var window := Window(qa, maxUtts);
    var chat := Header(persona) + "\n\n";
    if window != [] then Fixups(chat) + Render(window) else chat
  }

  /** `get_prompt` after the history: open a new `Human:` turn unless the
      history already ends with one, then ask and open the `AI:` turn. */
  function PromptText(history: string, utt: string): string {
    if !EndsWith(history, NextTurn) then history + NextTurn + utt + "?\nAI: "
    else history + utt + "?\nAI: "
  }

  /** The append at the end of `get_spoken_answer`: one pair for an
      accepted answer when memory is on, nothing otherwise. */
  function Remember(qa: seq<Turn>, memory: bool, query: string, answer: Option<string>): (r: seq<Turn>)
    ensures qa <= r && |r| <= |qa| + 1
    ensures |r| == |qa| + 1 <==> memory && answer.Some?
    ensures |r| == |qa| + 1 ==> r[|qa|] == Turn(query, answer.value)
  {
    if memory && answer.Some? then qa + [Turn(query, answer.value)] else qa
  }

  /** Every remembered answer is one the history sanitiser could return. */
  predicate AllClean(qa: seq<Turn>) {
    forall i :: 0 <= i < |qa| ==> Sanitizer.IsCleanAnswer(qa[i].answer)
  }

  class PersonaPromptSolver {
    const engine: string
    const memory: bool
    const maxUtts: int
    const configPersona: Option<string>
    const defaultPersona: string
    var qaPairs: seq<Turn>
    var currentQ: Option<string>
    var currentA: Option<string>

    /** The default persona is never empty and every stored answer is clean. */
    ghost predicate Valid()
      reads this
    {
      defaultPersona != [] && AllClean(qaPairs)
    }

    /** `__init__`: the model is forced to `llama-3`; memory is on and
        holds 15 pairs unless configured; the history starts empty. */
    constructor (config: Config)
      ensures engine == ForcedModel
      ensures memory == config.enableMemory.GetOr(true)
      ensures maxUtts == config.memorySize.GetOr(DefaultMemorySize)
      ensures configPersona == config.persona
      ensures defaultPersona == Persona.DefaultPersona(config.persona)
      ensures qaPairs == [] && currentQ == None && currentA == None
      ensures Valid()
    {
      engine := ForcedModel;
      memory := config.enableMemory.GetOr(true);
      maxUtts := config.memorySize.GetOr(DefaultMemorySize);
      configPersona := config.persona;
      qaPairs := [];
      currentQ := None;
      currentA := None;
      defaultPersona := Persona.DefaultPersona(config.persona);
    }

    /** `persona or self.config.get("persona") or self.default_persona`. */
    function ResolvePersona(persona: Option<string>): string {
      Persona.OrElse(persona, Persona.OrElse(configPersona, defaultPersona))
    }

    /** `get_chat_history(persona)` on the current pairs. */
    function History(persona: Option<string>): string
      reads this`qaPairs
    {
      ChatHistory(qaPairs, maxUtts, ResolvePersona(persona))
    }

    /** `get_prompt`: clears `current_q` and `current_a`, changes nothing
        else, and extends the history with the question. */
    method GetPrompt(utt: string, persona: Option<string>) returns (prompt: string)
      modifies this`currentQ, this`currentA
      ensures currentQ == None && currentA == None
      ensures prompt == PromptText(History(persona), utt)
    {
      currentQ := None;
      currentA := None;
      prompt := History(persona);
      if !EndsWith(prompt, NextTurn) {
        prompt := prompt + NextTurn + utt + "?\nAI: ";
      } else {
        prompt := prompt + utt + "?\nAI: ";
      }
    }

    /** `get_spoken_answer` as meant: the persona comes from the caller's
        context, else `default_persona`; `response` is the service's reply
        to the prompt. The reply is cut at the first `Human: ` and then at
        the first `AI: `, stripped, tested, and remembered when memory is on. */
    method SpokenAnswer(query: string, contextPersona: Option<string>, response: string)
      returns (prompt: string, answer: Option<string>)
      requires Valid()
      modifies this`qaPairs, this`currentQ, this`currentA
      ensures Valid()
      ensures prompt == PromptText(old(History(Some(Persona.OrElse(contextPersona, defaultPersona)))), query)
      ensures answer == Sanitizer.HistorySanitize(response)
      ensures qaPairs == Remember(old(qaPairs), memory, query, answer)
      ensures currentQ == None && currentA == None
    {
      var persona := Persona.OrElse(contextPersona, defaultPersona);
      prompt := GetPrompt(query, Some(persona));
      RememberKeepsClean(qaPairs, memory, query, response);
      var a := Sanitizer.Truncate(response);
      if Sanitizer.IsDegenerate(a) {
        answer := None;
        return;
      }
      if memory {
        qaPairs := qaPairs + [Turn(query, a)];
      }
      answer := Some(a);
    }

    /** `get_spoken_answer` as written: its first line reads the local
        `context` before anything is bound to it, so every call raises
        before the prompt is built, the request is made or any field
        changes. */
    method SpokenAnswerAsWritten(query: string, contextPersona: Option<string>)
      returns (r: Result<Persona.Exchange, Persona.PyError>)
      ensures r == Failure(Persona.UnboundLocalError("context"))
    {
      r := Failure(Persona.UnboundLocalError("context"));
    }
  }

  /** The window is a suffix of the pairs: the last `max_utts` of them for
      a positive size, all of them for size 0 (`qa_pairs[-0:]`), and all
      but the first `-max_utts` for a negative size. */
  lemma WindowShape(qa: seq<Turn>, maxUtts: int)
    ensures var w := Window(qa, maxUtts);
      && |w| <= |qa| && w == qa[|qa| - |w|..]
      && (maxUtts > 0 ==> |w| == if |qa| < maxUtts then |qa| else maxUtts)
      && (maxUtts == 0 ==> w == qa)
      && (maxUtts < 0 ==> w == qa[if -maxUtts <= |qa| then -maxUtts else |qa|..])
  {
  }

  /** The newest pair in a non-empty window is the newest pair. */
  lemma WindowLast(qa: seq<Turn>, maxUtts: int)
    requires Window(qa, maxUtts) != []
    ensures Window(qa, maxUtts)[|Window(qa, maxUtts)| - 1] == qa[|qa| - 1]
  {
    WindowShape(qa, maxUtts);
    SuffixLast(qa, Window(qa, maxUtts));
  }

  /** A non-empty suffix ends with the list's last element. */
  lemma SuffixLast<T>(xs: seq<T>, ys: seq<T>)
    requires ys != [] && |ys| <= |xs| && ys == xs[|xs| - |ys|..]
    ensures ys[|ys| - 1] == xs[|xs| - 1]
  {
    assert ys[|ys| - 1] == xs[|xs| - |ys|..][|ys| - 1];
  }

  /** With a positive size, remembering a pair slides the window: the new
      pair enters and the oldest one leaves once the window is full. The
      list itself is never shortened. */
  lemma WindowSlides(qa: seq<Turn>, maxUtts: int, t: Turn)
    requires maxUtts > 0
    ensures var w := Window(qa, maxUtts);
      Window(qa + [t], maxUtts) == (if |w| == maxUtts then w[1..] else w) + [t]
  {
    var w := Window(qa, maxUtts);
    var q2 := qa + [t];
    if |qa| >= maxUtts {
      assert w == qa[|qa| - maxUtts..];
      assert Window(q2, maxUtts) == q2[|q2| - maxUtts..];
      assert q2[|q2| - maxUtts..] == qa[|qa| - maxUtts + 1..] + [t];
      assert w[1..] == qa[|qa| - maxUtts + 1..];
    } else {
      assert w == qa && Window(q2, maxUtts) == q2;
    }
  }

  /** Rendering one more pair appends a line break and that pair. */
  lemma RenderSnoc(turns: seq<Turn>, t: Turn)
    requires turns != []
    ensures Render(turns + [t]) == Render(turns) + "\n" + RenderTurn(t)
  {
    var parts := seq(|turns|, i requires 0 <= i < |turns| => RenderTurn(turns[i]));
    var parts2 := seq(|turns| + 1, i requires 0 <= i < |turns| + 1 => RenderTurn((turns + [t])[i]));
    assert parts2 == parts + [RenderTurn(t)];
    JoinSnoc("\n", parts, RenderTurn(t));
  }

  /** The pairs are rendered in insertion order, one `Human:`/`AI:` pair
      per entry, so the rendering ends with the last answer. */
  lemma {:induction false} RenderInOrder(turns: seq<Turn>)
    ensures turns == [] ==> Render(turns) == ""
    ensures |turns| == 1 ==> Render(turns) == RenderTurn(turns[0])
    ensures turns != [] ==> EndsWith(Render(turns), turns[|turns| - 1].answer)
  {
    if |turns| == 1 {
      assert Render(turns) == RenderTurn(turns[0]);
    } else if |turns| > 1 {
      var init, last := turns[..|turns| - 1], turns[|turns| - 1];
      assert turns == init + [last];
      RenderSnoc(init, last);
    }
  }

  /** A text whose last character differs from that of `suffix` does not
      end with it. */
  lemma NotEndsWithByLast(s: string, suffix: string)
    requires suffix != [] && (s == [] || s[|s| - 1] != suffix[|suffix| - 1])
    ensures !EndsWith(s, suffix)
  {
    if |suffix| <= |s| {
      assert s[|s| - |suffix|..][|suffix| - 1] == s[|s| - 1];
    }
  }

  /** The `endswith` branches of `get_chat_history` never fire: at that
      point the chat ends with a blank line. The history is the header, a
      blank line and the rendered window. */
  lemma ChatHistoryShape(qa: seq<Turn>, maxUtts: int, persona: string)
    ensures ChatHistory(qa, maxUtts, persona) == Header(persona) + "\n\n" + Render(Window(qa, maxUtts))
  {
    var chat := Header(persona) + "\n\n";
    NotEndsWithByLast(chat, NextTurn);
    NotEndsWithByLast(chat, "\nAI: ");
    assert Fixups(chat) == chat;
    RenderInOrder(Window(qa, maxUtts));
  }

  /** The prompt always ends by asking the utterance and opening the AI turn. */
  lemma PromptEndsWithQuestion(history: string, utt: string)
    ensures EndsWith(PromptText(history, utt), utt + "?\nAI: ")
  {
    var p := PromptText(history, utt);
    var tail := utt + "?\nAI: ";
    if !EndsWith(history, NextTurn) {
      assert p == (history + NextTurn) + tail;
    } else {
      assert p == history + tail;
    }
  }

  /** The newest pair in a window over clean pairs has a clean answer. */
  lemma WindowLastClean(qa: seq<Turn>, maxUtts: int)
    requires AllClean(qa)
    ensures Window(qa, maxUtts) != [] ==>
      Sanitizer.IsCleanAnswer(Window(qa, maxUtts)[|Window(qa, maxUtts)| - 1].answer)
  {
    if Window(qa, maxUtts) != [] {
      WindowLast(qa, maxUtts);
      assert Sanitizer.IsCleanAnswer(qa[|qa| - 1].answer);
    }
  }

  /** A text ending with a non-empty suffix ends with its last character. */
  lemma LastOfSuffix(s: string, suffix: string)
    requires suffix != [] && EndsWith(s, suffix)
    ensures s[|s| - 1] == suffix[|suffix| - 1]
  {
    assert s[|s| - |suffix|..][|suffix| - 1] == s[|s| - 1];
  }

  /** Text followed by rendered pairs whose newest answer is clean does
      not end with a space. */
  lemma RenderedEndsClean(prefix: string, w: seq<Turn>)
    requires w != [] && Sanitizer.IsCleanAnswer(w[|w| - 1].answer)
    ensures (prefix + Render(w))[|prefix + Render(w)| - 1] != ' '
  {
    var a := w[|w| - 1].answer;
    RenderInOrder(w);
    LastOfSuffix(Render(w), a);
    assert !IsSpace(a[|a| - 1]);
  }

  /** With nothing in the window the history ends with a line break. */
  lemma EmptyWindowHistoryEnd(qa: seq<Turn>, maxUtts: int, persona: string)
    ensures Window(qa, maxUtts) == [] ==>
      ChatHistory(qa, maxUtts, persona) != [] &&
      ChatHistory(qa, maxUtts, persona)[|ChatHistory(qa, maxUtts, persona)| - 1] == '\n'
  {
    if Window(qa, maxUtts) == [] {
      var h := ChatHistory(qa, maxUtts, persona);
      assert h == Header(persona) + "\n\n";
    }
  }

  /** Otherwise it ends with the newest answer, which is clean. */
  lemma WindowHistoryEnd(qa: seq<Turn>, maxUtts: int, persona: string)
    requires AllClean(qa)
    ensures Window(qa, maxUtts) != [] ==>
      ChatHistory(qa, maxUtts, persona) != [] &&
      ChatHistory(qa, maxUtts, persona)[|ChatHistory(qa, maxUtts, persona)| - 1] != ' '
  {
    if Window(qa, maxUtts) != [] {
      ChatHistoryShape(qa, maxUtts, persona);
      WindowLastClean(qa, maxUtts);
      RenderedEndsClean(Header(persona) + "\n\n", Window(qa, maxUtts));
    }
  }

  /** Over clean pairs the history ends with a line break or with the
      last character of a clean answer, never with a space. */
  lemma HistoryEndsClean(qa: seq<Turn>, maxUtts: int, persona: string)
    requires AllClean(qa)
    ensures ChatHistory(qa, maxUtts, persona) != []
    ensures ChatHistory(qa, maxUtts, persona)[|ChatHistory(qa, maxUtts, persona)| - 1] != ' '
  {
    EmptyWindowHistoryEnd(qa, maxUtts, persona);
    WindowHistoryEnd(qa, maxUtts, persona);
  }

  /** With clean stored answers the history never ends with an open
      `Human:` turn, so the prompt always opens a new one. */
  lemma PromptOpensNewTurn(qa: seq<Turn>, maxUtts: int, persona: string, utt: string)
    requires AllClean(qa)
    ensures !EndsWith(ChatHistory(qa, maxUtts, persona), NextTurn)
    ensures PromptText(ChatHistory(qa, maxUtts, persona), utt) ==
      ChatHistory(qa, maxUtts, persona) + NextTurn + utt + "?\nAI: "
  {
    HistoryEndsClean(qa, maxUtts, persona);
    NotEndsWithByLast(ChatHistory(qa, maxUtts, persona), NextTurn);
  }

  /** With nothing remembered the prompt is the header, a blank line, and
      the question as the first `Human:` turn. */
  lemma EmptyMemoryPrompt(maxUtts: int, persona: string, utt: string)
    ensures PromptText(ChatHistory([], maxUtts, persona), utt) ==
      Header(persona) + "\n\n" + NextTurn + utt + "?\nAI: "
  {
    PromptOpensNewTurn([], maxUtts, persona, utt);
  }

  /** Remembering an answer the history sanitiser returned keeps every
      stored answer clean; memory off never grows the list. */
  lemma RememberKeepsClean(qa: seq<Turn>, memory: bool, query: string, response: string)
    requires AllClean(qa)
    ensures AllClean(Remember(qa, memory, query, Sanitizer.HistorySanitize(response)))
    ensures !memory ==> Remember(qa, memory, query, Sanitizer.HistorySanitize(response)) == qa
  {
    if Sanitizer.HistorySanitize(response).Some? {
      Sanitizer.HistoryAnswerClean(response);
    }
  }
}
