# AI Localization Enhancer — a Dafny model of the translation request path

The application is a small web demo. A user picks a source and a target
language from a fixed table, types a sentence, and gets back a machine
translation plus a quality score. The translation comes from a pretrained
MarianMT model chosen by name. The score comes from the BLEURT scorer. This
project models the deterministic part of `app/main.py` and proves properties
about it:

- **Language registry** (`registry.dfy`, module `Registry`). `LANGUAGES` is
  an ordered table of seven (name, code) pairs, and `language_names` lists
  its keys. The model includes the dictionary lookup `LANGUAGES[name]`, a
  reverse lookup, and proofs that names and codes are in one-to-one
  correspondence.
- **Target filtering** (`targets.dfy`, module `Targets`). `get_valid_targets`
  is an order-preserving filter that drops the chosen source language.
- **Model resolver** (`resolver.dfy`, module `Resolver`). `get_model_name`
  builds `"Helsinki-NLP/opus-mt-" + src + "-" + tgt`. It is paired with a
  parser that reads the two codes back. From that round trip, the name is
  injective over pairs whose source code has no dash, which includes every
  registry code.
- **Request pipeline** (`pipeline.dfy`, module `Pipeline`). This is
  `translate`. The services outside the program are fields of a `Services`
  value:
  - whether the tokenizer and the model load for an identifier;
  - the generate-and-decode step;
  - the scorer.

  A request returns one of three outcomes: `MissingInput`,
  `ModelUnavailable(src, tgt)` or `Ok(text, score)`. It also returns the
  list of registry and service calls it made. That list makes three things
  provable: the order of the checks, the fact that some services are never
  reached, and the order of the scorer's arguments.
- `text.dfy` (module `Text`) holds a first-occurrence character search. It
  is used by `Resolver.ParseModelName`, the one parser in the model, and by
  the proof that the unavailability message determines its language pair.
  `wrappers.dfy` holds `Option`.

Python's `not x` is true for `None` and for `""`. The dropdown values are
therefore `Option<string>`, and `Present` is "set and non-empty". A Dafny
function always returns the same result for the same arguments. So
`translate` gives the same answer for identical inputs and identical service
behaviour, with no proof needed.

## Model

| member | source | states |
|---|---|---|
| Registry.LanguagesWellFormed | app/main.py:8-16 | The table has 7 entries. Names are pairwise distinct. Codes are pairwise distinct and are two lower-case letters. |
| Registry.NamesOf | app/main.py:19 | The key list has one name per entry, and the i-th name is the i-th entry's name. |
| Registry.LanguageNamesInOrder | app/main.py:8-19 | The dropdown choices, the keys of `LANGUAGES`, are English, Spanish, French, German, Hindi, Telugu, Tamil, in that order. |
| Registry.Lookup | app/main.py:42-43 | `table[name]` finds a code exactly when `name` is a key. The code found is stored under that name. |
| Registry.ReverseLookup | app/main.py:8-16 | Finds a name exactly when some entry has the given code. The pair found is an entry of the table. |
| Registry.LookupBijection | app/main.py:8-16 | In a table with distinct names and codes, looking up either half of any entry returns the other half. |
| Registry.CodeOf | app/main.py:42-43 | `LANGUAGES[name]` of a registered name is a two-letter code stored with that name. |
| Registry.NameOf | app/main.py:8-16 | A name found for a code is registered and is stored with that code. |
| Registry.CodeOfNameOf | app/main.py:8-16 | The reverse lookup of a registered name's code gives back that name. |
| Registry.NameOfCodeOf | app/main.py:8-16 | A name found by reverse lookup has, as its code, the code that was looked up. |
| Registry.CodeOfInjective | app/main.py:8-16 | Two registered names with the same code are the same name. |
| Targets.Without | app/main.py:36 | The filtered list never contains the source. Everything in it comes from the input list, and it is no longer than the input. |
| Targets.ValidTargets | app/main.py:35-36 | `get_valid_targets` never offers the source language and offers only registered names. |
| Targets.WithoutIsSubsequence | app/main.py:36 | The filter keeps the input's order: the result is a subsequence of the input. |
| Targets.WithoutCounts | app/main.py:36 | The result holds every name other than the source as often as the input does, and no copy of the source. |
| Targets.WithoutAbsent | app/main.py:36 | When the source is not in the list, the list comes back unchanged. |
| Targets.WithoutSingle | app/main.py:36 | When the source occurs exactly once, at position i, the result is the input with position i deleted. |
| Targets.WithoutDistinct | app/main.py:36 | On a list without repeats, the result is the input minus the source's position. It is one shorter, and holds each other name exactly once. |
| Targets.LanguageNamesDistinct | app/main.py:19 | The dropdown list has seven names and no repeats. |
| Targets.ValidTargetsRegistered | app/main.py:35-36 | For a registered source there are 6 targets: the registry order with the source deleted. Each other registered name appears exactly once. |
| Targets.ValidTargetsUnregistered | app/main.py:35-36 | For an unregistered source, all seven names come back unchanged. |
| Targets.InitialTargets | app/main.py:86 | The first target dropdown, for source "English", is Spanish, French, German, Hindi, Telugu, Tamil. |
| Resolver.ModelName | app/main.py:32-33 | The identifier starts with the `Helsinki-NLP/opus-mt-` namespace. When the source code has no dash, parsing the identifier gives back (source, target). |
| Resolver.ParseModelName | app/main.py:32-33 | A successful parse returns a dash-free source code and a target code that rebuild the identifier exactly. |
| Resolver.ModelNameInjective | app/main.py:32-33 | Two pairs with dash-free source codes and the same identifier are the same pair. |
| Resolver.CodeHasNoDash | app/main.py:8-16 | A registry code contains no dash. |
| Resolver.RegistryModelNamesInjective | app/main.py:42-45 | Two pairs of registered languages get the same model identifier only if they are the same pair. |
| Resolver.ModelNameAmbiguousWithDashes | app/main.py:32-33 | Without the dash-free condition the template is ambiguous: ("zh-tw", "en") and ("zh", "tw-en") give one identifier. |
| Pipeline.Serve | app/main.py:46-61 | The tokenizer is loaded first. The model is unavailable exactly when tokenizer or model fails to load, and then nothing is generated or scored. Otherwise the text is the generator's output, scored with (input, output), and the calls are load, load, generate, score. |
| Pipeline.Translate | app/main.py:38-61 | The outcome is `MissingInput` exactly when the text or a language is missing, and then no call is made. Otherwise the two registry lookups come first, then the serving steps for the pair's model. |
| Pipeline.TranslateMissingInput | app/main.py:39-40 | The result is `MissingInput` exactly when the text is empty or a dropdown is `None` or the empty string, as Python's `not` judges them. In that case the registry, model store and scorer are not consulted. |
| Pipeline.TranslateCallOrder | app/main.py:42-47 | After validation, the source code is looked up, then the target code, then the tokenizer of `get_model_name(src, tgt)` is loaded. |
| Pipeline.TranslateModelUnavailable | app/main.py:45-50 | After validation, the result is `ModelUnavailable` exactly when the pair's model cannot be loaded. The result carries the two language names. |
| Pipeline.TranslateUnavailableSkipsInference | app/main.py:46-50 | When the model is unavailable, no generation and no scoring call appears among the calls made. |
| Pipeline.TranslateSuccess | app/main.py:53-61 | With a loadable model, the text returned is exactly the generated output. The score is `score(reference = input, candidate = output)`. The last three calls are load model, generate, score. |
| Pipeline.MissingInputBeforeRegistry | app/main.py:39-43 | A missing input with an unregistered name, such as "Klingon", is answered with `MissingInput` and no calls, and no `KeyError` arises. |
| Pipeline.MissingInputIgnoresServices | app/main.py:39-40 | With missing input, whatever the language names, the answer is `MissingInput` and the same whatever the services would do. |
| Pipeline.UnavailableIgnoresInference | app/main.py:46-50 | Two service sets that agree on loading give the same `ModelUnavailable` answer, whatever their generators and scorers do. |
| Pipeline.OfferedPairsAnswerable | app/main.py:35-45 | Any pair the page can submit meets `translate`'s precondition. Its two codes differ, and its model identifier parses back to those codes. |
| Pipeline.Render | app/main.py:39-61 | The page gets ("", "Missing input."), or ("", the unavailability message for the pair), or (translation, score). A score is shown exactly on success. |
| Pipeline.EmptyTextIsMissingInput | app/main.py:39-40 | An empty text renders as `("", "Missing input.")` for any language selection, registered or not. |
| Pipeline.UnavailableNoticeLayout | app/main.py:50 | The message is the fixed prefix, then the source name, then " → ", then the target name, then the fixed suffix. The length adds up. |
| Pipeline.UnavailableNoticeExample | app/main.py:50 | For English and Telugu, the message is exactly "Translation model for English → Telugu not available." |
| Pipeline.UnavailableNoticeInjective | app/main.py:50 | "Translation model for {src} → {tgt} not available." names the pair: two arrow-free source names give the same message only for the same pair. |
| Pipeline.UnavailableNoticeIsNotMissingInput | app/main.py:40-50 | The unavailability message is never the missing-input message. |
| Pipeline.RegisteredNamesHaveNoArrow | app/main.py:8-16 | No registered language name contains the `→` character. |

## Left out

- The Gradio UI (`gr.Blocks`, the dropdown update callback, `demo.launch`, app/main.py:63-64 and 79-106) is presentation only. The initial target list at line 86 is the one piece modelled, in `Targets.InitialTargets`.
- pyttsx3 text-to-speech (`tts_engine`, `play_tts`, app/main.py:30 and 66-69) is an external engine with side effects and no result the pipeline uses.
- Building the BLEURT scorer from a file path (app/main.py:26-27) and computing the score (line 58) happen in a foreign ML library. `Services.score` is an uninterpreted function.
- MarianMT tokenization, `generate` and `decode` (app/main.py:47-48, 53-55) are foreign model inference. They become the single `Services.generate` step. Loading is two predicates, one for the tokenizer and one for the model, because the source loads them in that order inside one `try`.
- `round(score[0], 3)` (app/main.py:59) is floating-point rounding. The score is an opaque `real`, and `Services.score` stands for the value after rounding.
- `score_legend` (app/main.py:71-77) is a static Markdown string with no behaviour.
- Pipeline.Translate: the `KeyError` raised by `LANGUAGES[...]` (app/main.py:42-43) for a present but unregistered name is not modelled. Only a request that passes the validation of line 39 must name registered languages (`Answerable`). A request with missing input may name anything, because the code returns before the lookups. `Pipeline.OfferedPairsAnswerable` shows that every pair the page offers meets the requirement.
- Failures during generation or scoring are not modelled. The code has no handler for them: an exception from generation or scoring propagates out of `translate`. The service functions here are total, so those failures cannot be expressed.
- No model cache is modelled. The code loads the tokenizer and the model anew on every request.
