/**
 * The `/voice` webhook of app.py and the per-caller conversation memory it
 * keeps. One call of the handler is one step: it looks at whether the request
 * carries a recording, what transcription of that recording produced, the
 * reply the text generator gave and whether speech synthesis succeeded (the
 * three outside services are inputs here), updates the memory and answers
 * with a short list of telephony instructions.
 */
module Voice {
  import opened Wrappers
  import opened Text
  import opened PropertySearch

  /** The telephony instructions the handler emits (Twilio's TwiML verbs). */
  datatype Verb =
    | Say(text: string)
    | Play(url: string)
    | Record(maxLength: nat, transcribe: bool, playBeep: bool, action: string)

  const Welcome: string := "Welcome to Dubai Real Estate assistant. Please ask your question after the beep."
  const Retry: string := "Sorry, I couldn't understand that. Please try again."
  const Apology: string := "Sorry, I could not generate the voice response."
  /** Every response ends by recording the caller's next utterance for this endpoint. */
  const RecordNext: Verb := Record(10, false, true, "/voice")
  /** How many history entries the prompt shows (`[-5:]`). */
  const ContextEntries: nat := 5

  /** Python truthiness of an optional string: `not s` holds for `None` and for `""`. */
  function Present(s: Option<string>): (b: bool)
    ensures !b <==> s == None || s == Some("")
  {
    s.Some? && s.value != ""
  }

  /** The history kept for a caller; a caller never seen has none. */
  function History(memory: map<string, seq<string>>, caller: string): seq<string>
  {
    if caller in memory then memory[caller] else []
  }

  function UserLine(transcript: string): string
  {
    "User: " + transcript
  }

  function AiLine(answer: string): string
  {
    "AI: " + answer
  }

  /** Where the synthesised reply for a caller is written and played from. */
  function AudioFile(caller: string): (r: string)
    ensures |r| == |caller| + 13
    ensures r[..9] == "response_" && r[9..9 + |caller|] == caller && r[9 + |caller|..] == ".mp3"
  {
    "response_" + caller + ".mp3"
  }

  /** The last (at most) five history entries, oldest first. */
  function Window(history: seq<string>): (w: seq<string>)
    ensures |w| == Min(ContextEntries, |history|)
    ensures forall j :: 0 <= j < |w| ==> w[j] == history[|history| - |w| + j]
  {
    history[|history| - Min(ContextEntries, |history|)..]
  }

  /** The conversation excerpt shown to the generator: the window joined by newlines. */
  function Context(history: seq<string>): (r: string)
    ensures |history| == 0 ==> r == ""
    ensures |history| > 0 ==>
              |r| >= |history[|history| - 1]| && r[|r| - |history[|history| - 1]|..] == history[|history| - 1]
  {
    if |history| == 0 then ""
    else
      JoinEndsWithLast(Window(history), "\n");
      Join(Window(history), "\n")
  }

  const PromptHead: string := "\nYou are a helpful Dubai real estate assistant.\n\nConversation so far:\n"

  /** The generation prompt: persona, conversation so far, the question and the property data. */
  function BuildPrompt(context: string, transcript: string, propertyInfo: string): (r: string)
    ensures |r| > |PromptHead| + |context| + |propertyInfo|
    ensures r[..|PromptHead|] == PromptHead
    ensures r[|PromptHead|..|PromptHead| + |context|] == context
    ensures r[|r| - |"\n\nAnswer:\n"|..] == "\n\nAnswer:\n"
    // the question follows "User asked: " right after the context
    ensures var a := |PromptHead| + |context| + |"\n\nUser asked: "|;
      a + |transcript| <= |r| && r[a..a + |transcript|] == transcript
    ensures r[|PromptHead| + |context|..|PromptHead| + |context| + |"\n\nUser asked: "|] == "\n\nUser asked: "
    // the property data comes right before the closing "Answer:"
    ensures var e := |r| - |"\n\nAnswer:\n"|;
      |propertyInfo| <= e && r[e - |propertyInfo|..e] == propertyInfo
  {
    var asked := PromptHead + context + "\n\nUser asked: ";
    assert asked[|PromptHead| + |context|..] == "\n\nUser asked: ";
    var data := asked + transcript + "\n\nUse this property data to answer clearly and professionally:\n";
    assert data[|asked|..|asked| + |transcript|] == transcript;
    var r := data + propertyInfo + "\n\nAnswer:\n";
    assert r[|data|..|data| + |propertyInfo|] == propertyInfo;
    assert r[..|asked|] == asked;
    r
  }

  /** Everything one webhook call produces: the new memory, the instructions,
   *  and the context and prompt handed to the generator (when it is reached). */
  datatype StepResult = StepResult(
    memory: map<string, seq<string>>,
    verbs: seq<Verb>,
    context: Option<string>,
    prompt: Option<string>)

  /** One call of the `/voice` handler, as a function of the memory before it. */
  function Respond(
    memory: map<string, seq<string>>, table: seq<Property>, rowText: Property -> string,
    caller: string, recording: Option<string>, transcript: Option<string>, answer: string, ttsOk: bool
  ): (r: StepResult)
    // every response is one spoken or played directive, then the record instruction
    ensures |r.verbs| == 2 && r.verbs[1] == RecordNext && !r.verbs[0].Record?
    // without a recording: the welcome, and the memory is left alone
    ensures !Present(recording) ==>
              r.verbs[0] == Say(Welcome) && r.memory == memory && r.context == None && r.prompt == None
    // with a recording that gave no text: the retry prompt, and the memory is left alone
    ensures Present(recording) && !Present(transcript) ==>
              r.verbs[0] == Say(Retry) && r.memory == memory && r.context == None && r.prompt == None
    // a transcribed exchange adds the question and then the answer to this caller's history only
    ensures Present(recording) && Present(transcript) ==>
              && r.memory.Keys == memory.Keys + {caller}
              && r.memory[caller] == History(memory, caller) + [UserLine(transcript.value), AiLine(answer)]
              && (forall c :: c in memory && c != caller ==> r.memory[c] == memory[c])
              && r.verbs[0] == (if ttsOk then Play(AudioFile(caller)) else Say(Apology))
              // the generator sees the last entries counting the new question, and the search reply
              && r.context == Some(Join(Window(History(memory, caller) + [UserLine(transcript.value)]), "\n"))
              && r.prompt == Some(BuildPrompt(r.context.value, transcript.value, SearchResult(table, transcript.value, rowText)))
  {
    if !Present(recording) then
      StepResult(memory, [Say(Welcome), RecordNext], None, None)
    else if !Present(transcript) then
      StepResult(memory, [Say(Retry), RecordNext], None, None)
    else
      var t := transcript.value;
      var asked := History(memory, caller) + [UserLine(t)];
      var context := Context(asked);
      var prompt := BuildPrompt(context, t, SearchResult(table, t, rowText));
      var directive := if ttsOk then Play(AudioFile(caller)) else Say(Apology);
      StepResult(memory[caller := asked + [AiLine(answer)]], [directive, RecordNext], Some(context), Some(prompt))
  }

  /** Storing twice under one key keeps the second value. A general map fact,
   *  used only to keep the proof of `VoiceAgent.Step` small. */
  lemma UpdateTwice<K, V>(m: map<K, V>, k: K, v: V, w: V)
    ensures m[k := v][k := w] == m[k := w]
  {
  }

  /** The outcome of a transcribed exchange as one value. It only spells out the
   *  third branch of `Respond`, and exists to keep the proof of
   *  `VoiceAgent.Step` small. */
  lemma ExchangeOutcome(
    memory: map<string, seq<string>>, table: seq<Property>, rowText: Property -> string,
    caller: string, recording: Option<string>, transcript: Option<string>, answer: string, ttsOk: bool)
    requires Present(recording) && Present(transcript)
    ensures var asked := History(memory, caller) + [UserLine(transcript.value)];
      Respond(memory, table, rowText, caller, recording, transcript, answer, ttsOk)
      == StepResult(
           memory[caller := asked + [AiLine(answer)]],
           [if ttsOk then Play(AudioFile(caller)) else Say(Apology), RecordNext],
           Some(Context(asked)),
           Some(BuildPrompt(Context(asked), transcript.value, SearchResult(table, transcript.value, rowText))))
  {
  }

  /** The context of a transcribed exchange ends with the question just asked,
   *  and, read line by line, is the last (at most) five history entries
   *  counting that question. */
  lemma ContextOfExchange(
    memory: map<string, seq<string>>, table: seq<Property>, rowText: Property -> string,
    caller: string, recording: Option<string>, transcript: Option<string>, answer: string, ttsOk: bool)
    requires Present(recording) && Present(transcript)
    ensures var asked := History(memory, caller) + [UserLine(transcript.value)];
      var ctx := Context(asked);
      && Respond(memory, table, rowText, caller, recording, transcript, answer, ttsOk).context == Some(Join(Window(asked), "\n"))
      && ctx == Join(Window(asked), "\n")
      && |ctx| >= |UserLine(transcript.value)|
      && ctx[|ctx| - |UserLine(transcript.value)|..] == UserLine(transcript.value)
      && ((forall k :: 0 <= k < |asked| ==> '\n' !in asked[k]) ==> Split(ctx, '\n') == Window(asked))
  {
    var asked := History(memory, caller) + [UserLine(transcript.value)];
    if forall k :: 0 <= k < |asked| ==> '\n' !in asked[k] {
      ContextReadsBack(asked);
    }
  }

  /** Read line by line, the context is the window, when no entry holds a line break. */
  lemma ContextReadsBack(history: seq<string>)
    requires |history| > 0
    requires forall k :: 0 <= k < |history| ==> '\n' !in history[k]
    ensures Split(Context(history), '\n') == Window(history)
  {
    SplitJoin(Window(history), '\n');
  }

  /** Ten earlier entries: the context shows entries 7 to 10 and the new question. */
  lemma TenEarlierEntries(history: seq<string>, transcript: string)
    requires |history| == 10
    ensures Window(history + [UserLine(transcript)]) == history[6..] + [UserLine(transcript)]
  {
    var asked := history + [UserLine(transcript)];
    assert asked[6..] == history[6..] + [UserLine(transcript)];
  }

  /** The webhook state: the per-caller memory, with the read-only property table. */
  class VoiceAgent {
    const table: seq<Property>
    const rowText: Property -> string
    var memory: map<string, seq<string>>

    constructor (table: seq<Property>, rowText: Property -> string)
      ensures this.table == table && this.rowText == rowText
      ensures memory == map[]
    {
      this.table := table;
      this.rowText := rowText;
      memory := map[];
    }

    /** One `/voice` request from `caller`. */
    method Step(caller: string, recording: Option<string>, transcript: Option<string>, answer: string, ttsOk: bool)
      returns (verbs: seq<Verb>, context: Option<string>, prompt: Option<string>)
      modifies this
      ensures var r := Respond(old(memory), table, rowText, caller, recording, transcript, answer, ttsOk);
        memory == r.memory && verbs == r.verbs && context == r.context && prompt == r.prompt
    {
      if !Present(recording) {
        verbs := [Say(Welcome), RecordNext];
        return verbs, None, None;
      }
      if !Present(transcript) {
        verbs := [Say(Retry), RecordNext];
        return verbs, None, None;
      }
      var t := transcript.value;
      ghost var before := memory;
      ExchangeOutcome(memory, table, rowText, caller, recording, transcript, answer, ttsOk);
      if caller !in memory {
        memory := memory[caller := []];
      }
      var asked := memory[caller] + [UserLine(t)];
      assert asked == History(before, caller) + [UserLine(t)];
      ghost var inserted := memory;
      memory := memory[caller := asked];
      var propertyInfo := SearchProperties(table, t, rowText);
      var ctx := Context(asked);
      var p := BuildPrompt(ctx, t, propertyInfo);
      memory := memory[caller := asked + [AiLine(answer)]];
      UpdateTwice(inserted, caller, asked, asked + [AiLine(answer)]);
      if caller !in before {
        UpdateTwice(before, caller, [], asked + [AiLine(answer)]);
      }
      var file := AudioFile(caller);
      var directive: Verb;
      if !ttsOk {
        directive := Say(Apology);
      } else {
        directive := Play(file);
      }
      verbs := [directive, RecordNext];
      context, prompt := Some(ctx), Some(p);
    }
  }

  /** One webhook request, with what the outside services answered. */
  datatype Request = Request(caller: string, recording: Option<string>, transcript: Option<string>, answer: string, ttsOk: bool)

  /** The memory after a sequence of requests, handled one after another. */
  function Run(memory: map<string, seq<string>>, table: seq<Property>, rowText: Property -> string, requests: seq<Request>)
    : (r: map<string, seq<string>>)
    // no caller is ever forgotten, and only callers who made a request are added
    ensures memory.Keys <= r.Keys
    ensures r.Keys <= memory.Keys + set q | q in requests :: q.caller
  {
    if |requests| == 0 then memory
    else
      var q := requests[|requests| - 1];
      var before := Run(memory, table, rowText, requests[..|requests| - 1]);
      assert q in requests && forall x :: x in requests[..|requests| - 1] ==> x in requests;
      StepMemory(before, table, rowText, q)
  }

  /** The memory after one request. */
  function StepMemory(memory: map<string, seq<string>>, table: seq<Property>, rowText: Property -> string, q: Request)
    : (r: map<string, seq<string>>)
    ensures memory.Keys <= r.Keys <= memory.Keys + {q.caller}
    ensures r.Keys == memory.Keys + (if Transcribed(q) then {q.caller} else {})
  {
    RespondKeys(memory, table, rowText, q);
    Respond(memory, table, rowText, q.caller, q.recording, q.transcript, q.answer, q.ttsOk).memory
  }

  /** Over a sequence of calls, exactly the callers with a transcribed exchange
   *  are added to the memory: a caller who only got the welcome or the retry
   *  is never stored. */
  lemma {:induction false} RunAddsTranscribedCallers(
    memory: map<string, seq<string>>, table: seq<Property>, rowText: Property -> string, requests: seq<Request>)
    ensures Run(memory, table, rowText, requests).Keys == memory.Keys + TranscribedCallers(requests)
  {
    if |requests| > 0 {
      var init := requests[..|requests| - 1];
      var q := requests[|requests| - 1];
      var before := Run(memory, table, rowText, init);
      var added: set<string> := if Transcribed(q) then {q.caller} else {};
      calc {
        Run(memory, table, rowText, requests).Keys;
        StepMemory(before, table, rowText, q).Keys;
        before.Keys + added;
        { RunAddsTranscribedCallers(memory, table, rowText, init); }
        (memory.Keys + TranscribedCallers(init)) + added;
        memory.Keys + (TranscribedCallers(init) + added);
        { TranscribedCallersSnoc(requests); }
        memory.Keys + TranscribedCallers(requests);
      }
    }
  }

  /** A request that reaches the exchange branch: it carries a recording and a transcript. */
  predicate Transcribed(q: Request)
  {
    Present(q.recording) && Present(q.transcript)
  }

  /** The callers of the transcribed exchanges among the requests. */
  ghost function TranscribedCallers(requests: seq<Request>): set<string>
  {
    set q | q in requests && Transcribed(q) :: q.caller
  }

  /** One more request adds its caller to the transcribed callers exactly when it is transcribed. */
  lemma TranscribedCallersSnoc(requests: seq<Request>)
    requires |requests| > 0
    ensures var q := requests[|requests| - 1];
      TranscribedCallers(requests)
      == TranscribedCallers(requests[..|requests| - 1]) + (if Transcribed(q) then {q.caller} else {})
  {
    assert requests == requests[..|requests| - 1] + [requests[|requests| - 1]];
  }

  /** One request keeps every known caller and adds its own exactly when it is transcribed. */
  lemma RespondKeys(memory: map<string, seq<string>>, table: seq<Property>, rowText: Property -> string, q: Request)
    ensures var r := Respond(memory, table, rowText, q.caller, q.recording, q.transcript, q.answer, q.ttsOk);
      && memory.Keys <= r.memory.Keys <= memory.Keys + {q.caller}
      && r.memory.Keys == memory.Keys + (if Transcribed(q) then {q.caller} else {})
  {
  }

  /** How many of the requests were transcribed exchanges of `caller`. */
  function Exchanges(requests: seq<Request>, caller: string): nat
  {
    if |requests| == 0 then 0
    else
      var q := requests[|requests| - 1];
      Exchanges(requests[..|requests| - 1], caller)
      + (if q.caller == caller && Present(q.recording) && Present(q.transcript) then 1 else 0)
  }

  /** A caller's history only grows: what it held before is a prefix of what it
   *  holds after, and it has grown by exactly two entries per transcribed exchange. */
  lemma {:induction false} HistoryOnlyGrows(
    memory: map<string, seq<string>>, table: seq<Property>, rowText: Property -> string,
    requests: seq<Request>, caller: string)
    ensures var after := History(Run(memory, table, rowText, requests), caller);
      && History(memory, caller) <= after
      && |after| == |History(memory, caller)| + 2 * Exchanges(requests, caller)
  {
    if |requests| > 0 {
      HistoryOnlyGrows(memory, table, rowText, requests[..|requests| - 1], caller);
      HistoryStep(Run(memory, table, rowText, requests[..|requests| - 1]), table, rowText, requests[|requests| - 1], caller);
    }
  }

  /** One request grows a caller's history by two entries when it is that
   *  caller's transcribed exchange, and leaves it alone otherwise. */
  lemma HistoryStep(m: map<string, seq<string>>, table: seq<Property>, rowText: Property -> string, q: Request, caller: string)
    ensures var r := Respond(m, table, rowText, q.caller, q.recording, q.transcript, q.answer, q.ttsOk);
      if q.caller == caller && Present(q.recording) && Present(q.transcript)
      then History(r.memory, caller) == History(m, caller) + [UserLine(q.transcript.value), AiLine(q.answer)]
      else History(r.memory, caller) == History(m, caller)
  {
  }

  /** A history that alternates question and answer, starting with a question. */
  predicate Alternates(history: seq<string>)
  {
    && |history| % 2 == 0
    && forall k :: 0 <= k < |history| ==>
         if k % 2 == 0 then "User: " <= history[k] else "AI: " <= history[k]
  }

  /** Storing a question and its answer keeps a history alternating. */
  lemma {:induction false} ExchangeKeepsAlternation(history: seq<string>, transcript: string, answer: string)
    requires Alternates(history)
    ensures Alternates(history + [UserLine(transcript), AiLine(answer)])
  {
    var h' := history + [UserLine(transcript), AiLine(answer)];
    assert "User: " <= UserLine(transcript);
    assert "AI: " <= AiLine(answer);
    forall k | 0 <= k < |h'|
      ensures if k % 2 == 0 then "User: " <= h'[k] else "AI: " <= h'[k]
    {
      if k < |history| {
        assert h'[k] == history[k];
      }
    }
  }

  /** One request keeps every history alternating. */
  lemma AlternationStep(m: map<string, seq<string>>, table: seq<Property>, rowText: Property -> string, q: Request)
    requires forall c :: c in m ==> Alternates(m[c])
    ensures var r := Respond(m, table, rowText, q.caller, q.recording, q.transcript, q.answer, q.ttsOk);
      forall c :: c in r.memory ==> Alternates(r.memory[c])
  {
    var r := Respond(m, table, rowText, q.caller, q.recording, q.transcript, q.answer, q.ttsOk);
    if Present(q.recording) && Present(q.transcript) {
      assert Alternates(History(m, q.caller));
      ExchangeKeepsAlternation(History(m, q.caller), q.transcript.value, q.answer);
      forall c | c in r.memory
        ensures Alternates(r.memory[c])
      {
        if c != q.caller {
          assert r.memory[c] == m[c];
        }
      }
    }
  }

  /** From an empty memory, every caller's history alternates "User: " and "AI: "
   *  entries: an answer is stored once per question, right after it. */
  lemma {:induction false} HistoriesAlternate(table: seq<Property>, rowText: Property -> string, requests: seq<Request>)
    ensures forall c :: c in Run(map[], table, rowText, requests) ==> Alternates(Run(map[], table, rowText, requests)[c])
  {
    if |requests| > 0 {
      HistoriesAlternate(table, rowText, requests[..|requests| - 1]);
      AlternationStep(Run(map[], table, rowText, requests[..|requests| - 1]), table, rowText, requests[|requests| - 1]);
    }
  }
}
