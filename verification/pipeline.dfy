/** The request path of `translate`: validate the inputs, resolve the model
    identifier, load tokenizer and model, generate the translation, score it.
    Model loading, generation and scoring are external; they are given as a
    `Services` value, and every call made to them (or to the registry) is
    recorded, so that what is and is not consulted can be stated. */
module Pipeline {
  import opened Wrappers
  import opened Text
  import opened Registry
  import opened Resolver
  import opened Targets

  /** The external collaborators of one request. */
  datatype Services = Services(
    tokenizerLoads: string -> bool,        // MarianTokenizer.from_pretrained succeeds for this identifier
    modelLoads: string -> bool,            // MarianMTModel.from_pretrained succeeds for this identifier
    generate: (string, string) -> string,  // tokenize, generate and decode with the named model
    score: (string, string) -> real        // the scorer's value for (reference, candidate)
  )

  /** One consultation of the registry or of an external service. */
  datatype Call =
    | LookupCode(name: string)
    | LoadTokenizer(model: string)
    | LoadModel(model: string)
    | Generate(model: string, input: string)
    | Score(reference: string, candidate: string)

  datatype Outcome =
    | MissingInput
    | ModelUnavailable(srcLang: string, tgtLang: string)
    | Ok(text: string, score: real)

  datatype Response = Response(outcome: Outcome, calls: seq<Call>)

  /** Python truthiness of a dropdown value: set and not empty. */
  predicate Present(lang: Option<string>) {
    lang.Some? && lang.value != ""
  }

  /** A dropdown value the pipeline can act on: unset, or a registered name. */
  predicate Answerable(lang: Option<string>) {
    !Present(lang) || Registered(lang.value)
  }

  /** The identifier of the model serving a registered language pair. */
  function RequestedModel(srcLang: string, tgtLang: string): string
    requires Registered(srcLang) && Registered(tgtLang)
  {
    ModelName(CodeOf(srcLang), CodeOf(tgtLang))
  }

  /** Both halves of the model can be loaded. */
  predicate Loadable(env: Services, model: string) {
    env.tokenizerLoads(model) && env.modelLoads(model)
  }

  predicate IsInference(c: Call) {
    c.Generate? || c.Score?
  }

  /** Neither the generator nor the scorer appears in `calls`. */
  predicate NoInference(calls: seq<Call>) {
    forall c :: c in calls ==> !IsInference(c)
  }

  /** Lines 46-61 of `translate`: load tokenizer and model for `model`, then
      generate and score; `srcLang` and `tgtLang` only name the pair in the
      failure report. */
  function Serve(env: Services, text: string, model: string, srcLang: string, tgtLang: string): (r: Response)
    ensures |r.calls| >= 1 && r.calls[0] == LoadTokenizer(model)
    ensures r.outcome.MissingInput? == false
    ensures r.outcome.ModelUnavailable? <==> !Loadable(env, model)
    ensures r.outcome.ModelUnavailable? ==>
      r.outcome == ModelUnavailable(srcLang, tgtLang) && NoInference(r.calls)
    ensures r.outcome.Ok? ==>
      && r.outcome.text == env.generate(model, text)
      && r.outcome.score == env.score(text, r.outcome.text)
      && r.calls == [LoadTokenizer(model), LoadModel(model), Generate(model, text), Score(text, r.outcome.text)]
  {
    if !env.tokenizerLoads(model) then
      Response(ModelUnavailable(srcLang, tgtLang), [LoadTokenizer(model)])
    else if !env.modelLoads(model) then
      Response(ModelUnavailable(srcLang, tgtLang), [LoadTokenizer(model), LoadModel(model)])
    else
      var translated := env.generate(model, text);
      var score := env.score(text, translated);
      Response(Ok(translated, score), [LoadTokenizer(model), LoadModel(model), Generate(model, text), Score(text, translated)])
  }

  /** The validation of line 39: Python treats an empty string and an unset
      dropdown alike as missing. */
  predicate Missing(text: string, srcLang: Option<string>, tgtLang: Option<string>) {
    text == "" || !Present(srcLang) || !Present(tgtLang)
  }

  /** `translate(text, src_lang, tgt_lang)`: validation first, then the two
      registry lookups of lines 42-43, then the loading, generation and
      scoring of `Serve` for the pair's model. */
  function Translate(env: Services, text: string, srcLang: Option<string>, tgtLang: Option<string>): (r: Response)
    requires !Missing(text, srcLang, tgtLang) ==> Answerable(srcLang) && Answerable(tgtLang)
    ensures r.outcome.MissingInput? <==> Missing(text, srcLang, tgtLang)
    ensures Missing(text, srcLang, tgtLang) ==> r == Response(MissingInput, [])
    ensures !Missing(text, srcLang, tgtLang) ==>
      && r.outcome == Serve(env, text, RequestedModel(srcLang.value, tgtLang.value), srcLang.value, tgtLang.value).outcome
      && r.calls == [LookupCode(srcLang.value), LookupCode(tgtLang.value)]
                    + Serve(env, text, RequestedModel(srcLang.value, tgtLang.value), srcLang.value, tgtLang.value).calls
  {
    if Missing(text, srcLang, tgtLang) then
      Response(MissingInput, [])
    else
      var src := srcLang.value;
      var tgt := tgtLang.value;
      var served := Serve(env, text, ModelName(CodeOf(src), CodeOf(tgt)), src, tgt);
      Response(served.outcome, [LookupCode(src), LookupCode(tgt)] + served.calls)
  }

  /** Validation comes first: the request is rejected as missing input
      exactly when the text is empty or a language is unset, and then
      nothing is consulted. */
  lemma TranslateMissingInput(env: Services, text: string, srcLang: Option<string>, tgtLang: Option<string>)
    requires !Missing(text, srcLang, tgtLang) ==> Answerable(srcLang) && Answerable(tgtLang)
    ensures Translate(env, text, srcLang, tgtLang).outcome.MissingInput? <==>
      text == "" || srcLang in {None, Some("")} || tgtLang in {None, Some("")}
    ensures Missing(text, srcLang, tgtLang) ==> Translate(env, text, srcLang, tgtLang).calls == []
  {
  }

  /** Past validation, both codes are looked up and then the tokenizer of
      the pair's model is loaded, in that order. */
  lemma TranslateCallOrder(env: Services, text: string, srcLang: Option<string>, tgtLang: Option<string>)
    requires Answerable(srcLang) && Answerable(tgtLang)
    requires !Missing(text, srcLang, tgtLang)
    ensures var r := Translate(env, text, srcLang, tgtLang);
      && |r.calls| >= 3
      && r.calls[0] == LookupCode(srcLang.value)
      && r.calls[1] == LookupCode(tgtLang.value)
      && r.calls[2] == LoadTokenizer(RequestedModel(srcLang.value, tgtLang.value))
  {
    var served := Serve(env, text, RequestedModel(srcLang.value, tgtLang.value), srcLang.value, tgtLang.value);
    var r := Translate(env, text, srcLang, tgtLang);
    assert r.calls[2] == served.calls[0];
  }

  /** A model that cannot be loaded is reported with the pair's names. */
  lemma TranslateModelUnavailable(env: Services, text: string, srcLang: Option<string>, tgtLang: Option<string>)
    requires Answerable(srcLang) && Answerable(tgtLang)
    requires !Missing(text, srcLang, tgtLang)
    ensures var r := Translate(env, text, srcLang, tgtLang);
      && (r.outcome.ModelUnavailable? <==> !Loadable(env, RequestedModel(srcLang.value, tgtLang.value)))
      && (r.outcome.ModelUnavailable? ==> r.outcome == ModelUnavailable(srcLang.value, tgtLang.value))
  {
  }

  /** When the model is unavailable, neither the generator nor the scorer is
      invoked. */
  lemma TranslateUnavailableSkipsInference(env: Services, text: string, srcLang: Option<string>, tgtLang: Option<string>)
    requires Answerable(srcLang) && Answerable(tgtLang)
    requires !Missing(text, srcLang, tgtLang)
    requires Translate(env, text, srcLang, tgtLang).outcome.ModelUnavailable?
    ensures NoInference(Translate(env, text, srcLang, tgtLang).calls)
  {
    var served := Serve(env, text, RequestedModel(srcLang.value, tgtLang.value), srcLang.value, tgtLang.value);
    var lookups := [LookupCode(srcLang.value), LookupCode(tgtLang.value)];
    assert Translate(env, text, srcLang, tgtLang).calls == lookups + served.calls;
  }

  /** With a loadable model the returned text is the model's output, and it
      is scored with the input as reference and the output as candidate. */
  lemma TranslateSuccess(env: Services, text: string, srcLang: Option<string>, tgtLang: Option<string>)
    requires Answerable(srcLang) && Answerable(tgtLang)
    requires !Missing(text, srcLang, tgtLang)
    requires Loadable(env, RequestedModel(srcLang.value, tgtLang.value))
    ensures var model := RequestedModel(srcLang.value, tgtLang.value);
      var translated := env.generate(model, text);
      var r := Translate(env, text, srcLang, tgtLang);
      && r.outcome == Ok(translated, env.score(text, translated))
      && |r.calls| == 6
      && r.calls[3] == LoadModel(model)
      && r.calls[4] == Generate(model, text)
      && r.calls[5] == Score(text, translated)
  {
  }

  /** A missing input gives the same answer whatever the services would do. */
  lemma MissingInputIgnoresServices(env1: Services, env2: Services, text: string, srcLang: Option<string>, tgtLang: Option<string>)
    requires Missing(text, srcLang, tgtLang)
    ensures Translate(env1, text, srcLang, tgtLang) == Translate(env2, text, srcLang, tgtLang) == Response(MissingInput, [])
  {
  }

  /** An unavailable model is reported the same way whatever the generator
      and the scorer would have done: they are never reached. */
  lemma UnavailableIgnoresInference(env1: Services, env2: Services, text: string, srcLang: Option<string>, tgtLang: Option<string>)
    requires !Missing(text, srcLang, tgtLang) ==> Answerable(srcLang) && Answerable(tgtLang)
    requires env1.tokenizerLoads == env2.tokenizerLoads && env1.modelLoads == env2.modelLoads
    requires Translate(env1, text, srcLang, tgtLang).outcome.ModelUnavailable?
    ensures Translate(env1, text, srcLang, tgtLang) == Translate(env2, text, srcLang, tgtLang)
  {
  }

  /** Every pair the page can submit (a registered source and one of the
      targets offered for it) is one the pipeline can act on, and it asks
      for a model between two different languages. */
  lemma OfferedPairsAnswerable(srcLang: string, tgtLang: string)
    requires Registered(srcLang)
    requires tgtLang in ValidTargets(srcLang)
    ensures Answerable(Some(srcLang)) && Answerable(Some(tgtLang))
    ensures CodeOf(srcLang) != CodeOf(tgtLang)
    ensures ParseModelName(RequestedModel(srcLang, tgtLang)) == Some((CodeOf(srcLang), CodeOf(tgtLang)))
  {
    if CodeOf(srcLang) == CodeOf(tgtLang) {
      CodeOfInjective(srcLang, tgtLang);
    }
    CodeHasNoDash(CodeOf(srcLang));
  }

  // ----- What the page shows -----

  /** The second output of `translate`: a message or a score. */
  datatype Label = Notice(message: string) | Quality(value: real)

  const MissingInputNotice: string := "Missing input."

  const Arrow: char := '\U{2192}'

  const UnavailablePrefix: string := "Translation model for "
  const UnavailableSuffix: string := " not available."

  /** The message of line 50, `f"Translation model for {src_lang} → {tgt_lang} not available."`. */
  function UnavailableNotice(srcLang: string, tgtLang: string): string {
    UnavailablePrefix + srcLang + [' ', Arrow, ' '] + tgtLang + UnavailableSuffix
  }

  /** Where the two names sit in the message: the source right after the
      fixed prefix, the target right before the fixed suffix. */
  lemma UnavailableNoticeLayout(srcLang: string, tgtLang: string)
    ensures var m := UnavailableNotice(srcLang, tgtLang);
      && |m| == |UnavailablePrefix| + |srcLang| + 3 + |tgtLang| + |UnavailableSuffix|
      && m[..|UnavailablePrefix|] == UnavailablePrefix
      && m[|UnavailablePrefix|..|UnavailablePrefix| + |srcLang|] == srcLang
      && m[|UnavailablePrefix| + |srcLang|..|UnavailablePrefix| + |srcLang| + 3] == [' ', Arrow, ' ']
      && m[|m| - |UnavailableSuffix|..] == UnavailableSuffix
      && m[|m| - |UnavailableSuffix| - |tgtLang|..|m| - |UnavailableSuffix|] == tgtLang
  {
  }

  /** The pair of values `translate` hands back to the page. */
  function Render(o: Outcome): (r: (string, Label))
    ensures o.Ok? <==> r.1.Quality?
    ensures !o.Ok? ==> r.0 == ""
    ensures o.Ok? ==> r.0 == o.text && r.1.value == o.score
    ensures o.MissingInput? ==> r.1 == Notice(MissingInputNotice)
    ensures o.ModelUnavailable? ==> r.1 == Notice(UnavailableNotice(o.srcLang, o.tgtLang))
  {
    match o
    case MissingInput => ("", Notice(MissingInputNotice))
    case ModelUnavailable(s, t) => ("", Notice(UnavailableNotice(s, t)))
    case Ok(text, score) => (text, Quality(score))
  }

  /** A present but unregistered name raises no error when the input is
      incomplete: validation answers first. */
  lemma MissingInputBeforeRegistry(env: Services)
    ensures Translate(env, "Hi", Some("Klingon"), None) == Response(MissingInput, [])
    ensures Translate(env, "", Some("Klingon"), Some("French")) == Response(MissingInput, [])
  {
  }

  /** The message for one concrete pair, spelled out. */
  lemma UnavailableNoticeExample()
    ensures UnavailableNotice("English", "Telugu") == "Translation model for English \U{2192} Telugu not available."
  {
  }

  /** An empty text gives `("", "Missing input.")` for any language selection,
      registered or not: validation returns before the registry is consulted. */
  lemma EmptyTextIsMissingInput(env: Services, srcLang: Option<string>, tgtLang: Option<string>)
    ensures Render(Translate(env, "", srcLang, tgtLang).outcome) == ("", Notice("Missing input."))
  {
  }

  /** The unavailability message names the pair: two pairs whose source
      names contain no arrow (as registered names do not) give the same
      message only if they are the same pair. */
  lemma UnavailableNoticeInjective(s1: string, t1: string, s2: string, t2: string)
    requires Arrow !in s1 && Arrow !in s2
    requires UnavailableNotice(s1, t1) == UnavailableNotice(s2, t2)
    ensures s1 == s2 && t1 == t2
  {
    var p := UnavailablePrefix;
    var u1, v1 := s1 + [' '], [' '] + t1 + UnavailableSuffix;
    var u2, v2 := s2 + [' '], [' '] + t2 + UnavailableSuffix;
    assert UnavailableNotice(s1, t1) == p + (u1 + [Arrow] + v1);
    assert UnavailableNotice(s2, t2) == p + (u2 + [Arrow] + v2);
    assert (p + (u1 + [Arrow] + v1))[|p|..] == u1 + [Arrow] + v1;
    assert (p + (u2 + [Arrow] + v2))[|p|..] == u2 + [Arrow] + v2;
    JoinInjective(u1, v1, u2, v2, Arrow);
    assert s1 == u1[..|s1|] && s2 == u2[..|s2|];
    assert t1 == v1[1..][..|t1|] && t2 == v2[1..][..|t2|];
  }

  /** The two failure messages cannot be confused. */
  lemma UnavailableNoticeIsNotMissingInput(srcLang: string, tgtLang: string)
    ensures UnavailableNotice(srcLang, tgtLang) != MissingInputNotice
  {
    assert UnavailableNotice(srcLang, tgtLang)[0] == 'T';
  }

  /** Registered names are plain words, so the message can be read back. */
  lemma RegisteredNamesHaveNoArrow(name: string)
    requires Registered(name)
    ensures Arrow !in name
  {
    LanguageNamesInOrder();
    assert forall k :: 0 <= k < |name| ==> 'A' <= name[k] <= 'z';
  }
}
