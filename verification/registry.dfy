/** The fixed language table of the demo: human-readable names paired with
    the two-letter codes that select a translation model. */
module Registry {
  import opened Wrappers

  /** A (name, code) pair of the table, e.g. ("English", "en"). */
  type Entry = (string, string)

  /** `LANGUAGES`, in declaration order (a Python dict keeps insertion order). */
  const Languages: seq<Entry> := [
    ("English", "en"),
    ("Spanish", "es"),
    ("French", "fr"),
    ("German", "de"),
    ("Hindi", "hi"),
    ("Telugu", "te"),
    ("Tamil", "ta")
  ]

  /** The names of a table, one per entry, in table order (`list(d.keys())`). */
  function NamesOf(table: seq<Entry>): (r: seq<string>)
    ensures |r| == |table|
    ensures forall i :: 0 <= i < |r| ==> r[i] == table[i].0
    decreases |table|
  {
    if table == [] then [] else [table[0].0] + NamesOf(table[1..])
  }

  /** The choices offered in the language dropdowns (`language_names`): the
      table's keys, in declaration order. */
  const LanguageNames: seq<string> := NamesOf(Languages)

  predicate Registered(name: string) {
    name in LanguageNames
  }

  /** A language code: exactly two lower-case ASCII letters. */
  predicate IsCode(c: string) {
    |c| == 2 && forall k :: 0 <= k < |c| ==> 'a' <= c[k] <= 'z'
  }

  ghost predicate DistinctNames(table: seq<Entry>) {
    forall i, j :: 0 <= i < j < |table| ==> table[i].0 != table[j].0
  }

  ghost predicate DistinctCodes(table: seq<Entry>) {
    forall i, j :: 0 <= i < j < |table| ==> table[i].1 != table[j].1
  }

  /** A table whose names and codes are in one-to-one correspondence. */
  ghost predicate WellFormed(table: seq<Entry>) {
    && DistinctNames(table)
    && DistinctCodes(table)
    && forall i :: 0 <= i < |table| ==> IsCode(table[i].1)
  }

  /** The entry a dictionary lookup finds: the code stored under `name`. */
  function Lookup(table: seq<Entry>, name: string): (r: Option<string>)
    ensures r.Some? <==> name in NamesOf(table)
    ensures r.Some? ==> (name, r.value) in table
    decreases |table|
  {
    if table == [] then None
    else if table[0].0 == name then Some(table[0].1)
    else
      assert NamesOf(table) == [table[0].0] + NamesOf(table[1..]);
      Lookup(table[1..], name)
  }

  /** The reverse lookup: the name whose code is `code`. */
  function ReverseLookup(table: seq<Entry>, code: string): (r: Option<string>)
    ensures r.Some? <==> exists i :: 0 <= i < |table| && table[i].1 == code
    ensures r.Some? ==> (r.value, code) in table
    decreases |table|
  {
    if table == [] then None
    else if table[0].1 == code then Some(table[0].0)
    else
      var r := ReverseLookup(table[1..], code);
      assert forall i :: 1 <= i < |table| ==> table[i] == table[1..][i - 1];
      r
  }

  /** In a well-formed table, looking up either half of an entry finds the
      other half: name and code determine each other. */
  lemma LookupBijection(table: seq<Entry>, i: nat)
    requires WellFormed(table)
    requires i < |table|
    ensures Lookup(table, table[i].0) == Some(table[i].1)
    ensures ReverseLookup(table, table[i].1) == Some(table[i].0)
  {
  }

  lemma NameInTable(table: seq<Entry>, name: string, code: string)
    requires (name, code) in table
    ensures name in NamesOf(table)
  {
    var i :| 0 <= i < |table| && table[i] == (name, code);
    assert NamesOf(table)[i] == name;
  }

  /** The code `LANGUAGES[name]` of a registered language. */
  function CodeOf(name: string): (c: string)
    requires Registered(name)
    ensures IsCode(c)
    ensures (name, c) in Languages
  {
    LanguagesWellFormed();
    LanguageNamesInOrder();
    Lookup(Languages, name).value
  }

  /** The registered name whose code is `code`, if any. */
  function NameOf(code: string): (r: Option<string>)
    ensures r.Some? ==> Registered(r.value) && (r.value, code) in Languages
  {
    var r := ReverseLookup(Languages, code);
    if r.Some? then
      LanguageNamesInOrder();
      NameInTable(Languages, r.value, code);
      r
    else r
  }

  /** The table has seven entries with pairwise-distinct names and
      pairwise-distinct two-letter codes. */
  lemma LanguagesWellFormed()
    ensures |Languages| == 7
    ensures WellFormed(Languages)
  {
    NamesDistinct();
    CodesDistinct();
  }

  lemma NamesDistinct()
    ensures DistinctNames(Languages)
  {
  }

  lemma CodesDistinct()
    ensures DistinctCodes(Languages)
  {
  }

  /** The dropdown lists the languages in the table's declaration order. */
  lemma LanguageNamesInOrder()
    ensures LanguageNames == ["English", "Spanish", "French", "German", "Hindi", "Telugu", "Tamil"]
  {
  }

  /** Name and code of the registry determine each other: `CodeOf` and
      `NameOf` are mutually inverse on registered values. */
  lemma CodeOfNameOf(name: string)
    requires Registered(name)
    ensures NameOf(CodeOf(name)) == Some(name)
  {
    LanguagesWellFormed();
    var i :| 0 <= i < |LanguageNames| && LanguageNames[i] == name;
    LookupBijection(Languages, i);
  }

  lemma NameOfCodeOf(code: string, name: string)
    requires NameOf(code) == Some(name)
    ensures Registered(name) && CodeOf(name) == code
  {
    LanguagesWellFormed();
    var i :| 0 <= i < |Languages| && Languages[i] == (name, code);
    LookupBijection(Languages, i);
  }

  /** Distinct registered names have distinct codes. */
  lemma CodeOfInjective(a: string, b: string)
    requires Registered(a) && Registered(b)
    requires CodeOf(a) == CodeOf(b)
    ensures a == b
  {
    CodeOfNameOf(a);
    CodeOfNameOf(b);
  }
}
