/** Character search on strings: the model-identifier parser splits at the
    first dash with it, and the proof that the unavailability message names
    its pair splits at the first arrow after the prefix. */
module Text {
  import opened Wrappers

  /** The position of the first occurrence of `c` in `s`, if any. */
  function FirstIndex(s: string, c: char): (r: Option<nat>)
    ensures r.Some? ==> r.value < |s| && s[r.value] == c && c !in s[..r.value]
    ensures r.None? <==> c !in s
  {
    if s == [] then None
    else if s[0] == c then Some(0)
    else
      match FirstIndex(s[1..], c)
      case None => None
      case Some(k) =>
        assert s[..k + 1] == [s[0]] + s[1..][..k];
        Some(k + 1)
  }

  /** In `u + [c] + v` with `c` absent from `u`, the first `c` is the one
      that was put between the two parts. */
  lemma FirstIndexOfJoin(u: string, c: char, v: string)
    requires c !in u
    ensures FirstIndex(u + [c] + v, c) == Some(|u|)
  {
    var s := u + [c] + v;
    assert s[|u|] == c;
    assert s[..|u|] == u;
  }

  /** Joining at a separator absent from the left part can be undone. */
  lemma JoinInjective(u1: string, v1: string, u2: string, v2: string, c: char)
    requires c !in u1 && c !in u2
    requires u1 + [c] + v1 == u2 + [c] + v2
    ensures u1 == u2 && v1 == v2
  {
    var s := u1 + [c] + v1;
    FirstIndexOfJoin(u1, c, v1);
    FirstIndexOfJoin(u2, c, v2);
    assert s[..|u1|] == u1 && s[|u1| + 1..] == v1;
    assert s[..|u2|] == u2 && s[|u2| + 1..] == v2;
  }
}
