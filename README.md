# Realtime Language Translator — a Dafny model of its core

The application is a Streamlit page that translates text with googletrans and
speaks the result with gTTS and pygame. This project models the part of
`main.py` that is logic rather than wiring:

- **The language catalog.** googletrans' `LANGUAGES` table (a parameter: its
  `(code, name)` items in iteration order) is filtered by the fixed set
  `languages_to_remove` into `filtered_languages`. The reverse table
  `language_mapping` (name -> code) is derived from it, and
  `get_language_code` looks a name up, returning the name itself when it is
  not found. A Python dict comprehension is modelled as a left fold in which a
  later item for a key overwrites an earlier one (`Catalog.Dict`). So when two
  kept codes share a name, the reverse table keeps the later code, as the
  comprehension at main.py:48 does.
- **The translate and speak decisions.** `translate_text`, `text_to_voice`
  and the "Translate Text" button handler are functions that return a trace
  of `Effects.Event`s: the foreign calls made (`Translate`, `Synthesize`,
  `Play`) and the messages shown (by `st.info`, `st.success`, `st.warning`,
  `st.error` and `st.write`), in order. A message is a value naming which of the page's
  messages it is (`Effects.Message`). `Effects.LevelOf` and `Effects.Rendered`
  give the Streamlit call it is shown with and its exact text. What the foreign libraries do is an input:
  - googletrans is a function from (text, source, destination) to `Ok(text)`
    or `Fail(reason)`;
  - gTTS synthesis and save is a function from (text, language) to `Done` or
    `Raised(reason)`;
  - pygame's load and play is one `Attempt`;
  - whether pygame's mixer started is a boolean;
  - `tts_langs()` is a set of codes.
- **The blank-input guard.** Python's `str.strip()` is modelled with the
  whitespace set of `str.isspace` (`Text.Strip`).

Files: `catalog.dfy` (module `Catalog`), `catalog_examples.dfy`
(`CatalogExamples`: the catalog on one-item provider tables), `text.dfy`
(`Text`), `effects.dfy` (`Effects`: the event, call, message and reply types
and the two projections `CallsOf` and `MessagesOf`), `flow.dfy` (`Flow`).
`languages_to_remove` is written as the union of its literal's six source
lines, so that the verifier can rule a given code out of it.

Four details of `main.py` shape the model:

- `text_to_voice` writes `audio.mp3` to the temporary directory and never
  deletes it. No cleanup is modelled or claimed.
- `text_to_voice` tests `PYGAME_AVAILABLE` before the language. So without
  pygame, even an unsupported language only gets the "playback disabled"
  notice.
- The button handler calls `text_to_voice` only when the translation is
  truthy. A failed translation (`None`) and an empty one (`""`) are neither
  shown nor spoken.
- Display names in `LANGUAGES` need not be unique. The reverse-table lemmas
  hold without that, and the one that needs it,
  `Catalog.FilteredCodeRoundTrip`, takes it as a precondition.

## Model

| member | source | states |
|---|---|---|
| `Catalog.LanguagesToRemove` | main.py:36-43 | the 83 removed codes, as the union of the literal's six lines (main.py:37-42); `CatalogExamples.JapaneseIsKept` and `CatalogExamples.OneRemovedLanguage` use it |
| `Catalog.Dict` | main.py:45-48 | the dict built by a comprehension has exactly the items' keys as its keys |
| `Catalog.DictEntryIsItem` | main.py:45-48 | every entry of the built dict is one of the items it was built from |
| `Catalog.DictLastWins` | main.py:48 | an item whose key no later item repeats is the dict's entry for that key (last wins) |
| `Catalog.DictOfDistinctKeys` | main.py:45-47 | with distinct keys, as in `LANGUAGES.items()`, every item is an entry of the built dict |
| `Catalog.Keep` | main.py:45-47 | the items kept by the `if code not in languages_to_remove` filter are items of the input with a non-excluded code, and every input item with a non-excluded code is kept; `Catalog.KeepAppend` states that their order is kept |
| `Catalog.KeepRestrictsDict` | main.py:45-47 | building the dict from the filtered items equals removing the excluded keys from the dict of all items |
| `Catalog.KeepAppend` | main.py:45-47 | filtering a concatenation is concatenating the filtered parts: the filter keeps the items in their iteration order, each once |
| `Catalog.KeepAround` | main.py:45-47 | the filter around one item: what it keeps before it, the item unless its code is excluded, and what it keeps after it |
| `Catalog.FilteredItems` | main.py:45-47 | no contract of its own: the items of `filtered_languages` in iteration order; specified by `Catalog.Keep` and `Catalog.KeepAppend` |
| `Catalog.FilteredLanguages` | main.py:36-47 | `filtered_languages` is `LANGUAGES` minus the removed codes: no removed code is a key, every entry is the `LANGUAGES` entry for that code, and every non-removed code of `LANGUAGES` is kept |
| `Catalog.LanguageMapping` | main.py:48 | no contract of its own: the comprehension over the swapped filtered items; specified by `Catalog.MappingKeysAreFilteredNames`, `Catalog.FilteredNameRoundTrip` and `Catalog.MappingKeepsLastCode` |
| `Catalog.KeptItemIsEntry` | main.py:45-47 | each item kept by the filter is an entry of the filtered dict with the same value |
| `Catalog.InverseKeysAreValues` | main.py:45-48 | the keys of the inverted filtered dict are exactly the values of the filtered dict |
| `Catalog.InverseRoundTrip` | main.py:45-48 | each value of the filtered dict maps, in the inverted dict, to a non-excluded key whose entry has that value |
| `Catalog.KeptLastWins` | main.py:45-48 | through the filter and the inversion, a kept item whose value no later kept item carries is the inverted dict's entry for that value |
| `Catalog.GetLanguageCode` | main.py:55-56 | for a table with distinct codes: a name that `filtered_languages` offers gives a kept code carrying that name, and any other name comes back unchanged |
| `Catalog.MappingKeysAreFilteredNames` | main.py:48 | the names of `language_mapping` are exactly the values of `filtered_languages` |
| `Catalog.FilteredNameRoundTrip` | main.py:45-56 | for every name offered by `filtered_languages`, `get_language_code` gives a key of `filtered_languages` with that name, which is a non-removed code of `LANGUAGES` with that name |
| `Catalog.FilteredCodeRoundTrip` | main.py:45-56 | when the offered names are unique, looking up the name of a kept code gives back that code |
| `Catalog.UnknownNamePassesThrough` | main.py:55-56 | a name that `filtered_languages` does not offer is returned unchanged as the code |
| `Catalog.MappingKeepsLastCode` | main.py:45-48 | a name that no later kept item of `LANGUAGES` carries maps to this item's code, for any kept item: when kept codes share a name, the one last in `LANGUAGES`' iteration order wins |
| `CatalogExamples.JapaneseIsKept` | main.py:36-43 | `"ja"` is not one of the removed codes |
| `CatalogExamples.OneKeptLanguage` | main.py:45-56 | for the table `{"ja": "japanese"}`, `filtered_languages` is that table, "japanese" maps to `"ja"`, and an unknown name comes back unchanged |
| `CatalogExamples.OneRemovedLanguage` | main.py:45-56 | for the table `{"hy": "armenian"}`, `filtered_languages` is empty and "armenian" comes back unchanged |
| `Text.IsSpace` | main.py:104 | no contract of its own: the whitespace set of Python's `str.isspace`, which `str.strip()` removes (Unicode category Zs and bidirectional classes WS, B and S) |
| `Text.TrimStart` | main.py:104 | the result is a suffix of the input, all removed characters are whitespace, and it does not start with whitespace |
| `Text.TrimEnd` | main.py:104 | the result is a prefix of the input, all removed characters are whitespace, and it does not end with whitespace |
| `Text.Strip` | main.py:104 | no contract of its own: `TrimStart` then `TrimEnd`; specified by `Text.StripEmptyIffAllSpace` |
| `Text.StripEmptyIffAllSpace` | main.py:104 | `s.strip()` is empty exactly when every character of `s` is whitespace; otherwise it starts and ends with a non-whitespace character |
| `Flow.TranslateText` | main.py:59-66 | equal codes: the text itself, with no call and no message. Different codes: exactly one request, made first. The result is absent exactly when the provider fails; then exactly one "Translation failed" error is shown; on success the provider's text is returned and nothing is shown |
| `Flow.TextToVoice` | main.py:69-84 | no contract of its own; specified by `Flow.TextToVoiceEffects` and `Flow.PlaysExactlyWhen` |
| `Flow.TextToVoiceEffects` | main.py:69-84 | without pygame only the "playback disabled" notice and no call; for a language not in the TTS set only the "not supported" warning and no call; otherwise synthesis first, playback only after a successful synthesis, and the "TTS error" of the step that raised |
| `Flow.PlaysExactlyWhen` | main.py:69-84 | the sound is played with no error shown iff pygame is available, the language is in the TTS set, and synthesis and playback both succeed |
| `Flow.Truthy` | main.py:106 | no contract of its own: Python's truth value of the translation (`None` and `""` are false); used by `Flow.ShowTranslationEffects` and `Flow.SpeechOnlyAfterTruthyTranslation` |
| `Flow.ShowTranslation` | main.py:106-109 | no contract of its own; specified by `Flow.ShowTranslationEffects`, `Flow.ShowTranslationCalls` and `Flow.ShowTranslationNeverPrompts` |
| `Flow.TranslateTextButton` | main.py:103-111 | whitespace-only input shows only "Please enter text."; other input is sent unstripped to the provider first when the codes differ, and is shown as it is under the success line when they are equal |
| `Flow.ShowTranslationEffects` | main.py:106-109 | a truthy result shows the success line and the text, then does what the speech step does; a falsy result does nothing |
| `Flow.ButtonEffects` | main.py:103-109 | on non-blank input the calls and messages are those of `translate_text` followed by those of the display step |
| `Flow.ShowTranslationCalls` | main.py:106-109 | the display step never asks the translator, and any synthesis it requests is of the truthy result in the target code, with pygame available and a TTS-supported language |
| `Flow.BlankInputOnlyWarns` | main.py:104-111 | whitespace-only input makes no call and shows only "Please enter text."; any other input never shows that warning |
| `Flow.NonBlankInputIsNotPrompted` | main.py:104-111 | past the blank-input guard, "Please enter text." is never shown |
| `Flow.ShowTranslationNeverPrompts` | main.py:106-109 | the display step never shows "Please enter text." |
| `Flow.TranslatorCalledUnlessSameLanguage` | main.py:59-109 | on non-blank input with different codes, the translator is asked first and only once; with equal codes it is never asked |
| `Flow.SpeechOnlyAfterTruthyTranslation` | main.py:69-109 | a synthesis call happens only for non-blank input whose translation is a non-empty string, in the target code, with pygame available and a TTS-supported language |
| `Flow.EmptyTranslationSkipsSpeech` | main.py:105-108 | an empty translation makes only the translator call and shows and speaks nothing |
| `Flow.FailedTranslationEndsFlow` | main.py:62-106 | a failed translation makes only the translator call and shows only its one error |
| `Flow.SameLanguageSpeaksInput` | main.py:59-109 | with equal codes the translator is not asked; the input itself is shown and handed to the speech step |
| `Flow.CallsUseSelectedCodes` | main.py:103-109 | every translator call goes from the source code to the target code, and synthesis is only requested in the target code |
| `Flow.SelectedNamesGiveCatalogCodes` | main.py:90-109 | for names picked from the drop-downs, every translator call uses kept codes of `LANGUAGES` carrying those names, and so does every synthesis call |
| `Effects.CalledIffInvoked` | main.py:63-80 | a foreign call (the request at 63, synthesis and save at 77-78, load and play at 79-80) is among a trace's calls exactly when the trace invokes it |
| `Effects.ShownIffDisplayed` | main.py:65-111 | a message is among a trace's messages exactly when the trace shows it |
| `Effects.LevelOf` | main.py:65-111 | no contract of its own: the Streamlit call each message is shown with (`st.error` at 65 and 82, `st.info` at 71, `st.warning` at 84 and 111, `st.success` at 107, `st.write` at 108) |
| `Effects.Rendered` | main.py:65-111 | no contract of its own: the exact text of each message, as the f-strings at 65, 71, 82, 84, 107, 108 and 111 write it |

## Left out

- The voice flow (main.py:118-138) is not modelled. It needs the microphone and `recognize_google` (audio I/O and a foreign service). Its own logic is also left out:
  - its `PYGAME_AVAILABLE` guard with the error "Voice translation works only in local environment." (main.py:119-120);
  - the "Listening..." and "Recognized: ..." messages (main.py:124, 129);
  - its heading "Translated (...):", which differs from the text flow's "Translated Text (...):" (main.py:133);
  - the `except` around recognition (main.py:137-138). It reports a failure of `recognize_google` (main.py:128), or any exception the inner steps do not catch themselves, as "Speech recognition error: ...". A provider failure is caught inside `translate_text` (main.py:64-66) and a TTS failure inside `text_to_voice` (main.py:81-82), so those two never reach it.
- The Streamlit page itself: `st.title`, the cloud notice (main.py:26-29), the selectboxes, the text area and the buttons. A pressed button is one call of `Flow.TranslateTextButton`. It takes the picked target name and the two codes that `get_language_code` gives for the picked names (main.py:93-94). `Flow.SelectedNamesGiveCatalogCodes` links the picked names to those codes.
- A selectbox over an empty option list returns `None`. The model takes the picked names as strings.
- The contents of googletrans' `LANGUAGES` and of gTTS's `tts_langs()` are library data. Both are parameters.
- `pygame.mixer.init()` at start-up (main.py:11-16) is reduced to the boolean `pygameAvailable`.
- The temporary-file path and the write at main.py:76-78 are filesystem I/O. The write is part of the synthesis `Attempt`. The file is never deleted, and the model claims no cleanup.
- Exception texts (`str(e)`) are opaque strings supplied with the failure.
- Playback is fire-and-forget. The model records only that `Play` was called, not when the sound ends.
- Playback: the outcome of loading and playing the saved file is one `Attempt` for the whole run, not a function of the text and language the way synthesis is. Each button press runs the speech step at most once, so no trace can tell the two apart.
