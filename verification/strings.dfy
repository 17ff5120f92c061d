/** The few Python string operations the reader relies on, over `seq<char>`. */
module Strings {

  /** Python's `s.split(c)[0]`: the text before the first `c`, or all of `s` when there is none. */
  function BeforeFirst(s: string, c: char): (r: string)
    ensures r <= s
    ensures c !in r
    ensures |r| == |s| || s[|r|] == c
    decreases |s|
  {
    if s == [] || s[0] == c then [] else [s[0]] + BeforeFirst(s[1..], c)
  }

  /** Python's `s.lstrip(c)`: `s` without its run of leading `c` characters. */
  function StripLeading(s: string, c: char): (r: string)
    ensures |r| <= |s| && r == s[|s| - |r|..]
    ensures forall k :: 0 <= k < |s| - |r| ==> s[k] == c
    ensures r == [] || r[0] != c
    decreases |s|
  {
    if s != [] && s[0] == c then StripLeading(s[1..], c) else s
  }

  /** Python's `s.rstrip(c)`: `s` without its run of trailing `c` characters. */
  function StripTrailing(s: string, c: char): (r: string)
    ensures r <= s
    ensures forall k :: |r| <= k < |s| ==> s[k] == c
    ensures r == [] || r[|r| - 1] != c
    decreases |s|
  {
    if s != [] && s[|s| - 1] == c then StripTrailing(s[..|s| - 1], c) else s
  }

  /** `r` is what remains of `s` between a run of `i` leading `c` characters and a run of
      trailing `c` characters. */
  predicate CoreAt(s: string, c: char, i: nat, r: string)
  {
    && i + |r| <= |s|
    && r == s[i..i + |r|]
    && (forall k :: 0 <= k < i ==> s[k] == c)
    && (forall k :: i + |r| <= k < |s| ==> s[k] == c)
  }

  /** Removing a leading run and then a trailing run leaves a core in the sense of `CoreAt`. */
  lemma CoreOfStrips(s: string, c: char, lead: string, r: string)
    requires |lead| <= |s| && lead == s[|s| - |lead|..]
    requires forall k :: 0 <= k < |s| - |lead| ==> s[k] == c
    requires r <= lead
    requires forall k :: |r| <= k < |lead| ==> lead[k] == c
    ensures CoreAt(s, c, |s| - |lead|, r)
  {
    var i := |s| - |lead|;
    assert r == s[i..i + |r|];
    forall k | i + |r| <= k < |s|
      ensures s[k] == c
    {
      assert s[k] == lead[k - i];
    }
  }

  /** The core left by `CoreOfStrips` has no `c` at either end, and is empty exactly when
      `s` is made of `c` alone. */
  lemma CoreEnds(s: string, c: char, lead: string, r: string)
    requires |lead| <= |s| && lead == s[|s| - |lead|..]
    requires forall k :: 0 <= k < |s| - |lead| ==> s[k] == c
    requires lead == [] || lead[0] != c
    requires r <= lead
    requires forall k :: |r| <= k < |lead| ==> lead[k] == c
    requires r == [] || r[|r| - 1] != c
    ensures r == [] || (r[0] != c && r[|r| - 1] != c)
    ensures r == [] <==> forall k :: 0 <= k < |s| ==> s[k] == c
  {
    CoreOfStrips(s, c, lead, r);
    if r != [] {
      assert r[0] == lead[0] == s[|s| - |lead|];
    }
  }

  /** Python's `s.strip(c)`: the part of `s` left once both runs of `c` at its ends are removed. */
  function Strip(s: string, c: char): (r: string)
    ensures r == [] || (r[0] != c && r[|r| - 1] != c)
    ensures r == [] <==> forall k :: 0 <= k < |s| ==> s[k] == c
  {
    var lead := StripLeading(s, c);
    var r := StripTrailing(lead, c);
    CoreEnds(s, c, lead, r);
    r
  }

  /** What `Strip` removes is exactly a run of `c` at each end of `s`. */
  lemma StripIsCore(s: string, c: char)
    ensures exists i :: CoreAt(s, c, i, Strip(s, c))
  {
    var lead := StripLeading(s, c);
    CoreOfStrips(s, c, lead, StripTrailing(lead, c));
    assert CoreAt(s, c, |s| - |lead|, Strip(s, c));
  }

  /** `os.path.dirname` for '/'-separated paths: everything before the last '/', or the empty
      string when `p` holds no '/'. */
  function Dirname(p: string): (r: string)
    ensures '/' !in p ==> r == []
    ensures '/' in p ==> |r| < |p| && p[..|r| + 1] == r + "/" && '/' !in p[|r| + 1..]
    decreases |p|
  {
    if p == [] then []
    else if p[|p| - 1] == '/' then p[..|p| - 1]
    else
      var r := Dirname(p[..|p| - 1]);
      assert p[..|p| - 1] + [p[|p| - 1]] == p;
      if '/' in p[..|p| - 1] then
        assert p[|r| + 1..] == p[..|p| - 1][|r| + 1..] + [p[|p| - 1]];
        r
      else r
  }
}
