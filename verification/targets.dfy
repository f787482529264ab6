/** The target-language choices offered once a source language is picked:
    every dropdown name except the source, in dropdown order. */
module Targets {
  import opened Registry

  /** `[lang for lang in names if lang != src]`. */
  function Without(names: seq<string>, src: string): (r: seq<string>)
    ensures src !in r
    ensures forall x :: x in r ==> x in names
    ensures |r| <= |names|
    decreases |names|
  {
    if names == [] then []
    else if names[0] == src then Without(names[1..], src)
    else [names[0]] + Without(names[1..], src)
  }

  /** `get_valid_targets(src_lang)`. */
  function ValidTargets(srcLang: string): (r: seq<string>)
    ensures srcLang !in r
    ensures forall x :: x in r ==> Registered(x)
  {
    Without(LanguageNames, srcLang)
  }

  /** `a` can be obtained from `b` by deleting elements: the order of what
      is kept is the order in `b`. */
  predicate IsSubsequence(a: seq<string>, b: seq<string>)
    decreases |b|
  {
    if a == [] then true
    else if b == [] then false
    else if a[0] == b[0] then IsSubsequence(a[1..], b[1..])
    else IsSubsequence(a, b[1..])
  }

  /** Filtering keeps order. */
  lemma {:induction false} WithoutIsSubsequence(names: seq<string>, src: string)
    ensures IsSubsequence(Without(names, src), names)
    decreases |names|
  {
    if names != [] {
      WithoutIsSubsequence(names[1..], src);
      if names[0] != src {
        var r := Without(names, src);
        assert r[0] == names[0] && r[1..] == Without(names[1..], src);
      }
    }
  }

  /** Filtering keeps every other name with its multiplicity and drops every
      copy of `src`. */
  lemma {:induction false} WithoutCounts(names: seq<string>, src: string)
    ensures multiset(Without(names, src)) == multiset(names)[src := 0]
    decreases |names|
  {
    if names != [] {
      WithoutCounts(names[1..], src);
      assert names == [names[0]] + names[1..];
    }
  }

  /** When `src` is absent nothing is dropped. */
  lemma {:induction false} WithoutAbsent(names: seq<string>, src: string)
    requires src !in names
    ensures Without(names, src) == names
    decreases |names|
  {
    if names != [] {
      assert src !in names[1..];
      WithoutAbsent(names[1..], src);
    }
  }

  /** When `src` occurs exactly once, at `i`, the result is `names` with
      position `i` deleted. */
  lemma {:induction false} WithoutSingle(names: seq<string>, src: string, i: nat)
    requires i < |names| && names[i] == src
    requires src !in names[..i] && src !in names[i + 1..]
    ensures Without(names, src) == names[..i] + names[i + 1..]
    decreases i
  {
    if i == 0 {
      WithoutAbsent(names[1..], src);
    } else {
      var tail := names[1..];
      assert tail[..i - 1] == names[1..i] && tail[i..] == names[i + 1..];
      assert names[0] != src by { assert names[0] == names[..i][0]; }
      WithoutSingle(tail, src, i - 1);
      assert names[..i] == [names[0]] + names[1..i];
    }
  }

  ghost predicate Distinct(names: seq<string>) {
    forall i, j :: 0 <= i < j < |names| ==> names[i] != names[j]
  }

  /** In a sequence without repetitions, an element present at `i` occurs
      nowhere else, so it is counted once. */
  lemma OccursOnce(names: seq<string>, i: nat)
    requires Distinct(names) && i < |names|
    ensures names[i] !in names[..i] && names[i] !in names[i + 1..]
    ensures multiset(names)[names[i]] == 1
  {
    var x := names[i];
    assert names == names[..i] + [x] + names[i + 1..];
  }

  /** The dropdown names repeat nothing. */
  lemma LanguageNamesDistinct()
    ensures Distinct(LanguageNames)
    ensures |LanguageNames| == 7
  {
    LanguagesWellFormed();
    LanguageNamesInOrder();
    forall i, j | 0 <= i < j < |LanguageNames| ensures LanguageNames[i] != LanguageNames[j] {
      assert LanguageNames[i] == Languages[i].0 && LanguageNames[j] == Languages[j].0;
    }
  }

  /** Filtering a sequence without repetitions: the source, found at `i`, is
      deleted and every other element is kept exactly once, in order. */
  lemma WithoutDistinct(names: seq<string>, src: string, i: nat)
    requires Distinct(names) && i < |names| && names[i] == src
    ensures Without(names, src) == names[..i] + names[i + 1..]
    ensures |Without(names, src)| == |names| - 1
    ensures forall x :: x in names && x != src ==> multiset(Without(names, src))[x] == 1
  {
    OccursOnce(names, i);
    WithoutSingle(names, src, i);
    WithoutCounts(names, src);
    forall x | x in names && x != src ensures multiset(names)[x] == 1 {
      var k :| 0 <= k < |names| && names[k] == x;
      OccursOnce(names, k);
    }
  }

  /** For a registered source the dropdown shows the six other languages,
      each exactly once, in registry order. */
  lemma ValidTargetsRegistered(srcLang: string)
    requires Registered(srcLang)
    ensures |ValidTargets(srcLang)| == |LanguageNames| - 1 == 6
    ensures exists i :: 0 <= i < |LanguageNames| && LanguageNames[i] == srcLang
                        && ValidTargets(srcLang) == LanguageNames[..i] + LanguageNames[i + 1..]
    ensures forall x :: Registered(x) && x != srcLang ==> multiset(ValidTargets(srcLang))[x] == 1
    ensures IsSubsequence(ValidTargets(srcLang), LanguageNames)
  {
    LanguageNamesDistinct();
    var i :| 0 <= i < |LanguageNames| && LanguageNames[i] == srcLang;
    WithoutDistinct(LanguageNames, srcLang, i);
    WithoutIsSubsequence(LanguageNames, srcLang);
  }

  /** An unregistered source (including the empty string) filters nothing. */
  lemma ValidTargetsUnregistered(srcLang: string)
    requires !Registered(srcLang)
    ensures ValidTargets(srcLang) == LanguageNames
  {
    WithoutAbsent(LanguageNames, srcLang);
  }

  /** The target dropdown the page starts with (source "English"). */
  lemma InitialTargets()
    ensures ValidTargets("English") == ["Spanish", "French", "German", "Hindi", "Telugu", "Tamil"]
  {
    LanguageNamesInOrder();
    LanguageNamesDistinct();
    WithoutDistinct(LanguageNames, "English", 0);
  }
}
