/** String operations the routes and the quiz page apply to identifiers
    and codes: the truthiness of an optional string, `startsWith`,
    `split('-')[0]`, `replace(pattern, '')` and an ASCII `toUpperCase`. */
module Text {
  import opened Wrappers

  /** A query parameter or body field JavaScript treats as true: present
      and not the empty string. */
  predicate Present(o: Option<string>) {
    o.Some? && o.value != ""
  }

  predicate StartsWith(s: string, p: string) {
    |p| <= |s| && s[..|p|] == p
  }

  lemma StartsWithTransitive(s: string, p: string, q: string)
    requires StartsWith(s, p) && StartsWith(p, q)
    ensures StartsWith(s, q)
  {
    assert s[..|q|] == s[..|p|][..|q|];
  }

  /** `id.split('-')[0]`: the text before the first hyphen, or all of `id`
      when it has none. */
  function IdPrefix(id: string): (r: string)
    ensures '-' !in r
    ensures StartsWith(id, r)
    ensures |r| < |id| ==> id[|r|] == '-'
    decreases |id|
  {
    if |id| == 0 || id[0] == '-' then "" else [id[0]] + IdPrefix(id[1..])
  }

  /** The three facts in `IdPrefix`'s contract single out its result: any
      hyphen-free prefix of `id` that ends at a hyphen or at the end of `id`
      is that result. */
  lemma {:induction false} IdPrefixUnique(id: string, p: string)
    requires '-' !in p && StartsWith(id, p)
    requires |p| < |id| ==> id[|p|] == '-'
    ensures IdPrefix(id) == p
    decreases |id|
  {
    if |id| > 0 && id[0] != '-' {
      assert |p| > 0;
      assert p[0] == id[0];
      IdPrefixUnique(id[1..], p[1..]);
      assert p == [p[0]] + p[1..];
    }
  }

  /** `pat` occurs in `s` at index `i`. */
  predicate OccursAt(s: string, pat: string, i: nat) {
    i + |pat| <= |s| && s[i..i + |pat|] == pat
  }

  /** The first index at or after `from` where `pat` occurs in `s`. */
  function IndexOf(s: string, pat: string, from: nat): (r: Option<nat>)
    ensures r.Some? ==> from <= r.value && OccursAt(s, pat, r.value)
    ensures r.Some? ==> forall i :: from <= i < r.value ==> !OccursAt(s, pat, i)
    ensures r.None? ==> forall i :: from <= i ==> !OccursAt(s, pat, i)
    decreases |s| - from
  {
    if from + |pat| > |s| then None
    else if s[from..from + |pat|] == pat then Some(from)
    else IndexOf(s, pat, from + 1)
  }

  /** `s.replace(pat, '')`: removes the first occurrence of `pat`, if any. */
  function RemoveFirst(s: string, pat: string): (r: string)
    ensures IndexOf(s, pat, 0).None? ==> r == s
    ensures IndexOf(s, pat, 0).Some? ==> |r| == |s| - |pat|
    ensures IndexOf(s, pat, 0).Some? ==>
      var i := IndexOf(s, pat, 0).value;
      r == s[..i] + s[i + |pat|..]
  {
    match IndexOf(s, pat, 0)
    case None => s
    case Some(i) => s[..i] + s[i + |pat|..]
  }

  /** Removing a prefix that is also the pattern gives back the rest. */
  lemma RemoveFirstOfPrefix(pat: string, t: string)
    ensures RemoveFirst(pat + t, pat) == t
  {
    var s := pat + t;
    assert s[0..|pat|] == pat;
    assert IndexOf(s, pat, 0) == Some(0);
    assert s[|pat|..] == t;
  }

  function ToUpperAsciiChar(c: char): char {
    if 'a' <= c <= 'z' then (c as int - 'a' as int + 'A' as int) as char else c
  }

  /** `toUpperCase()` for ASCII letters; every other character is kept. */
  function ToUpperAscii(s: string): (r: string)
    ensures |r| == |s|
    ensures forall i :: 0 <= i < |s| ==> r[i] == ToUpperAsciiChar(s[i])
  {
    seq(|s|, i requires 0 <= i < |s| => ToUpperAsciiChar(s[i]))
  }
}
