/** The naming convention that turns a language pair into the identifier of
    a pretrained model in the external model store. */
module Resolver {
  import opened Wrappers
  import opened Text
  import opened Registry

  /** The namespace every model identifier starts with. */
  const Namespace: string := "Helsinki-NLP/opus-mt-"

  /** `get_model_name(src, tgt)`: the namespace, the source code, a dash and
      the target code. Whenever the source code has no dash the two codes can
      be read back from the identifier. */
  function ModelName(src: string, tgt: string): (r: string)
    ensures Namespace <= r
    ensures '-' !in src ==> ParseModelName(r) == Some((src, tgt))
  {
    var r := Namespace + src + "-" + tgt;
    assert r[..|Namespace|] == Namespace;
    assert r[|Namespace|..] == src + ['-'] + tgt;
    // The branch only scopes the round-trip proof: `FirstIndexOfJoin` needs a
    // dash-free source, and both branches return the same identifier.
    if '-' in src then r
    else
      var rest := src + ['-'] + tgt;
      FirstIndexOfJoin(src, '-', tgt);
      assert rest[..|src|] == src && rest[|src| + 1..] == tgt;
      r
  }

  /** Reads the (source, target) pair back from a model identifier: strip the
      namespace, split the rest at its first dash. */
  function ParseModelName(id: string): (r: Option<(string, string)>)
    ensures r.Some? ==> '-' !in r.value.0 && id == Namespace + r.value.0 + "-" + r.value.1
  {
    if |id| < |Namespace| || id[..|Namespace|] != Namespace then None
    else
      var rest := id[|Namespace|..];
      match FirstIndex(rest, '-')
      case None => None
      case Some(k) =>
        assert rest == rest[..k] + "-" + rest[k + 1..];
        assert id == Namespace + rest;
        Some((rest[..k], rest[k + 1..]))
  }

  /** Distinct pairs of dash-free source codes give distinct identifiers. */
  lemma ModelNameInjective(src1: string, tgt1: string, src2: string, tgt2: string)
    requires '-' !in src1 && '-' !in src2
    requires ModelName(src1, tgt1) == ModelName(src2, tgt2)
    ensures src1 == src2 && tgt1 == tgt2
  {
  }

  /** Over the registry, every language pair has its own model identifier. */
  lemma RegistryModelNamesInjective(s1: string, t1: string, s2: string, t2: string)
    requires Registered(s1) && Registered(t1) && Registered(s2) && Registered(t2)
    requires ModelName(CodeOf(s1), CodeOf(t1)) == ModelName(CodeOf(s2), CodeOf(t2))
    ensures s1 == s2 && t1 == t2
  {
    CodeHasNoDash(CodeOf(s1));
    CodeHasNoDash(CodeOf(s2));
    ModelNameInjective(CodeOf(s1), CodeOf(t1), CodeOf(s2), CodeOf(t2));
    CodeOfInjective(s1, s2);
    CodeOfInjective(t1, t2);
  }

  lemma CodeHasNoDash(c: string)
    requires IsCode(c)
    ensures '-' !in c
  {
  }

  /** Without the dash-free condition the convention is ambiguous: two
      different pairs can share one identifier. */
  lemma ModelNameAmbiguousWithDashes()
    ensures ModelName("zh-tw", "en") == ModelName("zh", "tw-en")
  {
  }
}
