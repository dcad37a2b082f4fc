/** The decision logic of main.py's translate and speak steps: `translate_text`
    (main.py:59-66), `text_to_voice` (main.py:69-84) and the handler of the
    "Translate Text" button (main.py:93-94, 103-111). Each returns the trace of
    the foreign calls it makes and the messages it shows; what the foreign
    libraries answer is an input. */
module Flow {
  import opened Effects
  import Catalog
  import Text

  /** The audio side of the environment: whether pygame's mixer started
      (main.py:11-16), the language codes `tts_langs()` lists (main.py:50),
      how synthesising a text in a language and saving it ends, and how
      loading and playing the saved file ends. */
  datatype Audio = Audio(
    pygameAvailable: bool,
    ttsLanguages: set<string>,
    synthesize: (string, string) -> Attempt,
    playback: Attempt)

  /** The foreign services the text flow uses: googletrans' answer to a
      (text, source, destination) request, and the audio side. */
  datatype Services = Services(translator: (string, string, string) -> Reply, audio: Audio)

  /** A value together with what was done to compute it. */
  datatype Step<T> = Step(result: T, trace: seq<Event>)

  /** Python's truth value of what `translate_text` returns: None and the
      empty string are false. */
  predicate Truthy(result: Option<string>)
  {
    result.Some? && result.value != ""
  }

  /** `translate_text` (main.py:59-66). */
  function TranslateText(text: string, src: string, dest: string,
                         translator: (string, string, string) -> Reply): (r: Step<Option<string>>)
    // The same language on both sides: the text itself, and nothing is called or shown.
    ensures src == dest ==> r.result == Some(text) && r.trace == []
    // Otherwise exactly one request to the provider, made before anything is shown.
    ensures src != dest ==> CallsOf(r.trace) == [Translate(text, src, dest)]
    ensures src != dest ==> r.trace[0] == Invoke(Translate(text, src, dest))
    // No result exactly when the provider failed; then exactly one error is shown.
    ensures r.result.None? <==> src != dest && translator(text, src, dest).Fail?
    ensures src != dest && translator(text, src, dest).Ok? ==>
              r.result == Some(translator(text, src, dest).text) && MessagesOf(r.trace) == []
    ensures src != dest && translator(text, src, dest).Fail? ==>
              MessagesOf(r.trace) == [TranslationFailed(translator(text, src, dest).reason)]
  {
    if src == dest then Step(Some(text), [])
    else
      var request := Invoke(Translate(text, src, dest));
      match translator(text, src, dest)
      case Ok(translated) => Step(Some(translated), [request])
      case Fail(reason) =>
        var trace := [request] + [Show(TranslationFailed(reason))];
        CallsOfCons(request, [Show(TranslationFailed(reason))]);
        MessagesOfCons(request, [Show(TranslationFailed(reason))]);
        Step(None, trace)
  }

  /** `text_to_voice` (main.py:69-84). */
  function TextToVoice(text: string, lang: string, audio: Audio): seq<Event>
  {
    if !audio.pygameAvailable then [Show(PlaybackDisabled)]
    else if lang in audio.ttsLanguages then
      [Invoke(Synthesize(text, lang))] +
      match audio.synthesize(text, lang)
      case Raised(reason) => [Show(TtsError(reason))]
      case Done =>
        [Invoke(Play)] +
        match audio.playback
        case Raised(reason) => [Show(TtsError(reason))]
        case Done => []
    else [Show(TtsUnsupported)]
  }

  /** What the button handler does with a translation: on a truthy result,
      the success line, the text, and the speech step (main.py:106-109). */
  function ShowTranslation(result: Option<string>, toName: string, toCode: string, audio: Audio): seq<Event>
  {
    if Truthy(result) then
      [Show(TranslatedHeading(toName)), Show(TranslatedText(result.value))]
      + TextToVoice(result.value, toCode, audio)
    else []
  }

  /** The handler of the "Translate Text" button (main.py:103-111); `fromCode`
      and `toCode` are the codes of the selected names (main.py:93-94). */
  function TranslateTextButton(input: string, fromCode: string, toCode: string, toName: string,
                               services: Services): (trace: seq<Event>)
    // Whitespace-only input only gets the warning.
    ensures (forall i :: 0 <= i < |input| ==> Text.IsSpace(input[i])) ==> trace == [Show(PleaseEnterText)]
    // Any other input goes, unstripped, to the provider first when the codes
    // differ, and is shown as it is when they are equal.
    ensures (exists i :: 0 <= i < |input| && !Text.IsSpace(input[i])) && fromCode != toCode ==>
              |trace| > 0 && trace[0] == Invoke(Translate(input, fromCode, toCode))
    ensures (exists i :: 0 <= i < |input| && !Text.IsSpace(input[i])) && fromCode == toCode ==>
              |trace| >= 2 && trace[..2] == [Show(TranslatedHeading(toName)), Show(TranslatedText(input))]
  {
    Text.StripEmptyIffAllSpace(input);
    if Text.Strip(input) == [] then [Show(PleaseEnterText)]
    else
      var step := TranslateText(input, fromCode, toCode, services.translator);
      var shown := ShowTranslation(step.result, toName, toCode, services.audio);
      assert fromCode != toCode ==> (step.trace + shown)[0] == step.trace[0];
      assert fromCode == toCode ==> (step.trace + shown)[..2] == shown[..2] by {
        if fromCode == toCode {
          assert step.trace == [] && input != [];
          assert step.trace + shown == shown;
        }
      }
      step.trace + shown
  }

  // ---------------------------------------------------------------------
  // Properties of the speech step

  /** What `text_to_voice` calls and shows: without pygame only the notice;
      for a language gTTS does not list only the warning; otherwise synthesis
      first, playback only after a successful synthesis, and the error of the
      step that raised, if any. */
  lemma TextToVoiceEffects(text: string, lang: string, audio: Audio)
    ensures !audio.pygameAvailable ==>
              CallsOf(TextToVoice(text, lang, audio)) == [] && MessagesOf(TextToVoice(text, lang, audio)) == [PlaybackDisabled]
    ensures audio.pygameAvailable && lang !in audio.ttsLanguages ==>
              CallsOf(TextToVoice(text, lang, audio)) == [] && MessagesOf(TextToVoice(text, lang, audio)) == [TtsUnsupported]
    ensures audio.pygameAvailable && lang in audio.ttsLanguages ==>
              CallsOf(TextToVoice(text, lang, audio))
              == [Synthesize(text, lang)] + (if audio.synthesize(text, lang) == Done then [Play] else [])
    ensures audio.pygameAvailable && lang in audio.ttsLanguages && audio.synthesize(text, lang).Raised? ==>
              MessagesOf(TextToVoice(text, lang, audio)) == [TtsError(audio.synthesize(text, lang).reason)]
    ensures audio.pygameAvailable && lang in audio.ttsLanguages && audio.synthesize(text, lang) == Done ==>
              MessagesOf(TextToVoice(text, lang, audio))
              == if audio.playback.Raised? then [TtsError(audio.playback.reason)] else []
  {
    if audio.pygameAvailable && lang in audio.ttsLanguages {
      var first := Invoke(Synthesize(text, lang));
      match audio.synthesize(text, lang)
      case Raised(reason) =>
        var rest := [Show(TtsError(reason))];
        CallsOfCons(first, rest);
        MessagesOfCons(first, rest);
      case Done =>
        var tail := match audio.playback
          case Raised(reason) => [Show(TtsError(reason))]
          case Done => [];
        CallsOfCons(Invoke(Play), tail);
        MessagesOfCons(Invoke(Play), tail);
        CallsOfCons(first, [Invoke(Play)] + tail);
        MessagesOfCons(first, [Invoke(Play)] + tail);
    }
  }

  /** The sound is played without any error shown exactly when pygame is
      available, gTTS lists the language, and synthesis and playback both
      end normally. */
  lemma PlaysExactlyWhen(text: string, lang: string, audio: Audio)
    ensures (Play in CallsOf(TextToVoice(text, lang, audio)) && MessagesOf(TextToVoice(text, lang, audio)) == [])
        <==> (audio.pygameAvailable && lang in audio.ttsLanguages
              && audio.synthesize(text, lang) == Done && audio.playback == Done)
  {
    TextToVoiceEffects(text, lang, audio);
  }

  // ---------------------------------------------------------------------
  // Properties of the button handler

  /** The calls and messages of the display step: on a truthy result those
      of the speech step, after the success line and the text. */
  lemma ShowTranslationEffects(result: Option<string>, toName: string, toCode: string, audio: Audio)
    ensures CallsOf(ShowTranslation(result, toName, toCode, audio))
         == if Truthy(result) then CallsOf(TextToVoice(result.value, toCode, audio)) else []
    ensures MessagesOf(ShowTranslation(result, toName, toCode, audio))
         == if Truthy(result)
            then [TranslatedHeading(toName), TranslatedText(result.value)]
                 + MessagesOf(TextToVoice(result.value, toCode, audio))
            else []
  {
    if Truthy(result) {
      var voice := TextToVoice(result.value, toCode, audio);
      var write := [Show(TranslatedText(result.value))] + voice;
      var heading := Show(TranslatedHeading(toName));
      assert ShowTranslation(result, toName, toCode, audio) == [heading] + write;
      assert CallsOf(write) == CallsOf(voice) by {
        CallsOfCons(Show(TranslatedText(result.value)), voice);
      }
      assert MessagesOf(write) == [TranslatedText(result.value)] + MessagesOf(voice) by {
        MessagesOfCons(Show(TranslatedText(result.value)), voice);
      }
      CallsOfCons(heading, write);
      MessagesOfCons(heading, write);
    }
  }

  /** The calls and messages of the handler on non-blank input: those of the
      translation, then those of the display step. */
  lemma ButtonEffects(input: string, fromCode: string, toCode: string, toName: string, services: Services)
    requires Text.Strip(input) != []
    ensures var step := TranslateText(input, fromCode, toCode, services.translator);
            var shown := ShowTranslation(step.result, toName, toCode, services.audio);
            && CallsOf(TranslateTextButton(input, fromCode, toCode, toName, services)) == CallsOf(step.trace) + CallsOf(shown)
            && MessagesOf(TranslateTextButton(input, fromCode, toCode, toName, services)) == MessagesOf(step.trace) + MessagesOf(shown)
  {
    var step := TranslateText(input, fromCode, toCode, services.translator);
    var shown := ShowTranslation(step.result, toName, toCode, services.audio);
    assert TranslateTextButton(input, fromCode, toCode, toName, services) == step.trace + shown;
    CallsOfAppend(step.trace, shown);
    MessagesOfAppend(step.trace, shown);
  }

  /** Whitespace-only input shows only the warning and calls nothing; any
      other input never shows it. */
  lemma BlankInputOnlyWarns(input: string, fromCode: string, toCode: string, toName: string, services: Services)
    ensures (forall i :: 0 <= i < |input| ==> Text.IsSpace(input[i])) ==>
              && CallsOf(TranslateTextButton(input, fromCode, toCode, toName, services)) == []
              && MessagesOf(TranslateTextButton(input, fromCode, toCode, toName, services)) == [PleaseEnterText]
    ensures (exists i :: 0 <= i < |input| && !Text.IsSpace(input[i])) ==>
              PleaseEnterText !in MessagesOf(TranslateTextButton(input, fromCode, toCode, toName, services))
  {
    Text.StripEmptyIffAllSpace(input);
    if Text.Strip(input) != [] {
      NonBlankInputIsNotPrompted(input, fromCode, toCode, toName, services);
    } else {
      MessagesOfCons(Show(PleaseEnterText), []);
    }
  }

  /** The display step never shows "Please enter text.". */
  lemma ShowTranslationNeverPrompts(result: Option<string>, toName: string, toCode: string, audio: Audio)
    ensures PleaseEnterText !in MessagesOf(ShowTranslation(result, toName, toCode, audio))
  {
    ShowTranslationEffects(result, toName, toCode, audio);
    if Truthy(result) {
      var voice := MessagesOf(TextToVoice(result.value, toCode, audio));
      assert PleaseEnterText !in voice by {
        TextToVoiceEffects(result.value, toCode, audio);
      }
      assert PleaseEnterText !in [TranslatedHeading(toName), TranslatedText(result.value)];
    }
  }

  /** Past the blank-input guard, "Please enter text." is never shown. */
  lemma NonBlankInputIsNotPrompted(input: string, fromCode: string, toCode: string, toName: string, services: Services)
    requires Text.Strip(input) != []
    ensures PleaseEnterText !in MessagesOf(TranslateTextButton(input, fromCode, toCode, toName, services))
  {
    var step := TranslateText(input, fromCode, toCode, services.translator);
    var shown := ShowTranslation(step.result, toName, toCode, services.audio);
    assert PleaseEnterText !in MessagesOf(step.trace);
    ShowTranslationNeverPrompts(step.result, toName, toCode, services.audio);
    ButtonEffects(input, fromCode, toCode, toName, services);
  }



  /** The display step never asks the provider, and whatever it synthesises
      is the truthy translation, in the target code, with pygame available
      and a language gTTS lists. */
  lemma ShowTranslationCalls(result: Option<string>, toName: string, toCode: string, audio: Audio)
    ensures forall c :: c in CallsOf(ShowTranslation(result, toName, toCode, audio)) ==>
              && !c.Translate?
              && (c.Synthesize? ==>
                    && Truthy(result) && c == Synthesize(result.value, toCode)
                    && audio.pygameAvailable && toCode in audio.ttsLanguages)
  {
    ShowTranslationEffects(result, toName, toCode, audio);
    if Truthy(result) {
      TextToVoiceEffects(result.value, toCode, audio);
    }
  }

  /** On non-blank input the provider is asked once, before any other call,
      when the two codes differ, and never when they are equal. */
  lemma TranslatorCalledUnlessSameLanguage(input: string, fromCode: string, toCode: string, toName: string,
                                           services: Services)
    requires Text.Strip(input) != []
    ensures var calls := CallsOf(TranslateTextButton(input, fromCode, toCode, toName, services));
            && (fromCode != toCode ==>
                  && |calls| > 0 && calls[0] == Translate(input, fromCode, toCode)
                  && forall c :: c in calls[1..] ==> !c.Translate?)
            && (fromCode == toCode ==> forall c :: c in calls ==> !c.Translate?)
  {
    var step := TranslateText(input, fromCode, toCode, services.translator);
    var shown := CallsOf(ShowTranslation(step.result, toName, toCode, services.audio));
    var head := CallsOf(step.trace);
    ButtonEffects(input, fromCode, toCode, toName, services);
    ShowTranslationCalls(step.result, toName, toCode, services.audio);
    if fromCode == toCode {
      assert head == [];
      assert head + shown == shown;
    } else {
      assert head == [Translate(input, fromCode, toCode)];
      assert (head + shown)[1..] == shown;
    }
  }

  /** Speech is attempted only on non-blank input and a truthy translation of
      it into the target code, with pygame available and a language gTTS
      lists. */
  lemma SpeechOnlyAfterTruthyTranslation(input: string, fromCode: string, toCode: string, toName: string,
                                         services: Services, spoken: string, lang: string)
    ensures Synthesize(spoken, lang) in CallsOf(TranslateTextButton(input, fromCode, toCode, toName, services)) ==>
              && Text.Strip(input) != []
              && TranslateText(input, fromCode, toCode, services.translator).result == Some(spoken)
              && spoken != ""
              && lang == toCode && services.audio.pygameAvailable && lang in services.audio.ttsLanguages
  {
    var step := TranslateText(input, fromCode, toCode, services.translator);
    if Text.Strip(input) != [] {
      var shown := CallsOf(ShowTranslation(step.result, toName, toCode, services.audio));
      var head := CallsOf(step.trace);
      ButtonEffects(input, fromCode, toCode, toName, services);
      ShowTranslationCalls(step.result, toName, toCode, services.audio);
      assert forall c :: c in head ==> c.Translate?;
    } else {
      CallsOfCons(Show(PleaseEnterText), []);
    }
  }

  /** A translation that comes back empty is neither shown nor spoken. */
  lemma EmptyTranslationSkipsSpeech(input: string, fromCode: string, toCode: string, toName: string,
                                    services: Services)
    requires Text.Strip(input) != []
    requires fromCode != toCode
    requires services.translator(input, fromCode, toCode) == Ok("")
    ensures CallsOf(TranslateTextButton(input, fromCode, toCode, toName, services)) == [Translate(input, fromCode, toCode)]
    ensures MessagesOf(TranslateTextButton(input, fromCode, toCode, toName, services)) == []
  {
    ButtonEffects(input, fromCode, toCode, toName, services);
    ShowTranslationEffects(TranslateText(input, fromCode, toCode, services.translator).result, toName, toCode, services.audio);
  }

  /** A failed translation shows its one error and nothing else happens. */
  lemma FailedTranslationEndsFlow(input: string, fromCode: string, toCode: string, toName: string,
                                  services: Services, reason: string)
    requires Text.Strip(input) != []
    requires fromCode != toCode
    requires services.translator(input, fromCode, toCode) == Fail(reason)
    ensures CallsOf(TranslateTextButton(input, fromCode, toCode, toName, services)) == [Translate(input, fromCode, toCode)]
    ensures MessagesOf(TranslateTextButton(input, fromCode, toCode, toName, services)) == [TranslationFailed(reason)]
  {
    ButtonEffects(input, fromCode, toCode, toName, services);
    ShowTranslationEffects(TranslateText(input, fromCode, toCode, services.translator).result, toName, toCode, services.audio);
  }

  /** With the same code on both sides the input itself is shown and handed
      to the speech step, and the provider is not asked. */
  lemma SameLanguageSpeaksInput(input: string, code: string, toName: string, services: Services)
    requires Text.Strip(input) != []
    ensures CallsOf(TranslateTextButton(input, code, code, toName, services))
         == CallsOf(TextToVoice(input, code, services.audio))
    ensures MessagesOf(TranslateTextButton(input, code, code, toName, services))
         == [TranslatedHeading(toName), TranslatedText(input)] + MessagesOf(TextToVoice(input, code, services.audio))
  {
    ButtonEffects(input, code, code, toName, services);
    ShowTranslationEffects(Some(input), toName, code, services.audio);
  }

  /** Every request goes from the source code to the target code, and
      speech is only ever asked for in the target code. */
  lemma CallsUseSelectedCodes(input: string, fromCode: string, toCode: string, toName: string, services: Services)
    ensures forall c :: c in CallsOf(TranslateTextButton(input, fromCode, toCode, toName, services)) ==>
              && (c.Translate? ==> c.src == fromCode && c.dest == toCode)
              && (c.Synthesize? ==> c.lang == toCode)
  {
    if Text.Strip(input) != [] {
      var step := TranslateText(input, fromCode, toCode, services.translator);
      ButtonEffects(input, fromCode, toCode, toName, services);
      ShowTranslationCalls(step.result, toName, toCode, services.audio);
      assert forall c :: c in CallsOf(step.trace) ==> c == Translate(input, fromCode, toCode);
    } else {
      CallsOfCons(Show(PleaseEnterText), []);
    }
  }

  /** Names picked from the catalog's drop-downs (main.py:90-94) lead only to
      requests whose codes are kept codes of the provider's table carrying
      those names. */
  lemma SelectedNamesGiveCatalogCodes(languages: seq<(Catalog.Code, Catalog.Name)>, input: string,
                                      fromName: string, toName: string, services: Services)
    requires Catalog.DistinctKeys(languages)
    requires fromName in Catalog.FilteredLanguages(languages).Values
    requires toName in Catalog.FilteredLanguages(languages).Values
    ensures var filtered := Catalog.FilteredLanguages(languages);
            var calls := CallsOf(TranslateTextButton(input, Catalog.GetLanguageCode(languages, fromName),
                                                     Catalog.GetLanguageCode(languages, toName), toName, services));
            forall c :: c in calls ==>
              && (c.Translate? ==> c.src in filtered && filtered[c.src] == fromName
                                   && c.dest in filtered && filtered[c.dest] == toName)
              && (c.Synthesize? ==> c.lang in filtered && filtered[c.lang] == toName)
  {
    var fromCode, toCode := Catalog.GetLanguageCode(languages, fromName), Catalog.GetLanguageCode(languages, toName);
    Catalog.FilteredNameRoundTrip(languages, fromName);
    Catalog.FilteredNameRoundTrip(languages, toName);
    CallsUseSelectedCodes(input, fromCode, toCode, toName, services);
  }
}
