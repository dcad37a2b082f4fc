/** What the translate and speak steps of main.py do to the outside world,
    recorded as values: the calls they make into foreign libraries, the
    messages they put on the Streamlit page, and the answers those libraries
    give, which the model takes as inputs. */
module Effects {

  datatype Option<T> = None | Some(value: T)

  /** What googletrans answers to one request: the translated text, or the
      text of the exception it raised. */
  datatype Reply = Ok(text: string) | Fail(reason: string)

  /** How a foreign step without a result ends: normally, or by raising an
      exception with the given text. */
  datatype Attempt = Done | Raised(reason: string)

  /** The kind of Streamlit element a message is shown with. */
  datatype Level = InfoLevel | SuccessLevel | WarningLevel | ErrorLevel | WriteLevel

  /** The messages the translate and speak steps put on the page. */
  datatype Message =
    | PlaybackDisabled            // text_to_voice without pygame
    | TtsUnsupported              // text_to_voice, language not in tts_langs()
    | TtsError(reason: string)    // text_to_voice, synthesis or playback raised
    | TranslationFailed(reason: string)
    | TranslatedHeading(toName: string)
    | TranslatedText(text: string)
    | PleaseEnterText             // the button with blank input

  /** The Streamlit call that shows `m`. */
  function LevelOf(m: Message): Level
  {
    match m
    case PlaybackDisabled => InfoLevel
    case TtsUnsupported => WarningLevel
    case TtsError(_) => ErrorLevel
    case TranslationFailed(_) => ErrorLevel
    case TranslatedHeading(_) => SuccessLevel
    case TranslatedText(_) => WriteLevel
    case PleaseEnterText => WarningLevel
  }

  /** The text shown for `m`. */
  function Rendered(m: Message): string
  {
    match m
    case PlaybackDisabled => "\U{1F507} Audio playback disabled on cloud."
    case TtsUnsupported => "TTS not supported for this language."
    case TtsError(reason) => "TTS error: " + reason
    case TranslationFailed(reason) => "Translation failed: " + reason
    case TranslatedHeading(toName) => "Translated Text (" + toName + "):"
    case TranslatedText(text) => text
    case PleaseEnterText => "Please enter text."
  }

  /** A call into a foreign library: `translator.translate` with text, source
      and destination codes; gTTS synthesis and `save` of the text in a
      language; pygame's `Sound` and `play` of the saved file. */
  datatype Call =
    | Translate(text: string, src: string, dest: string)
    | Synthesize(text: string, lang: string)
    | Play

  /** One observable step, in the order it happens. */
  datatype Event = Invoke(call: Call) | Show(message: Message)

  /** The foreign calls of a trace, in order. */
  function CallsOf(trace: seq<Event>): seq<Call>
  {
    if trace == [] then []
    else (if trace[0].Invoke? then [trace[0].call] else []) + CallsOf(trace[1..])
  }

  /** The messages of a trace, in order. */
  function MessagesOf(trace: seq<Event>): seq<Message>
  {
    if trace == [] then []
    else (if trace[0].Show? then [trace[0].message] else []) + MessagesOf(trace[1..])
  }

  /** A call is among the calls of a trace exactly when the trace invokes it. */
  lemma {:induction false} CalledIffInvoked(trace: seq<Event>, c: Call)
    ensures c in CallsOf(trace) <==> Invoke(c) in trace
  {
    if trace != [] {
      CalledIffInvoked(trace[1..], c);
      assert trace == [trace[0]] + trace[1..];
    }
  }

  /** A message is among the messages of a trace exactly when the trace
      shows it. */
  lemma {:induction false} ShownIffDisplayed(trace: seq<Event>, m: Message)
    ensures m in MessagesOf(trace) <==> Show(m) in trace
  {
    if trace != [] {
      ShownIffDisplayed(trace[1..], m);
      assert trace == [trace[0]] + trace[1..];
    }
  }

  lemma CallsOfCons(e: Event, rest: seq<Event>)
    ensures CallsOf([e] + rest) == (if e.Invoke? then [e.call] else []) + CallsOf(rest)
  {
    assert ([e] + rest)[1..] == rest;
  }

  lemma MessagesOfCons(e: Event, rest: seq<Event>)
    ensures MessagesOf([e] + rest) == (if e.Show? then [e.message] else []) + MessagesOf(rest)
  {
    assert ([e] + rest)[1..] == rest;
  }

  lemma {:induction false} CallsOfAppend(a: seq<Event>, b: seq<Event>)
    ensures CallsOf(a + b) == CallsOf(a) + CallsOf(b)
  {
    if a != [] {
      assert (a + b)[1..] == a[1..] + b;
      CallsOfAppend(a[1..], b);
    } else {
      assert a + b == b;
    }
  }

  lemma {:induction false} MessagesOfAppend(a: seq<Event>, b: seq<Event>)
    ensures MessagesOf(a + b) == MessagesOf(a) + MessagesOf(b)
  {
    if a != [] {
      assert (a + b)[1..] == a[1..] + b;
      MessagesOfAppend(a[1..], b);
    } else {
      assert a + b == b;
    }
  }
}
