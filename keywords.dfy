/** Keyword extraction from a destination subfolder's name and the
    substring test against a file name. */
module Keywords {

  import opened Sequences

  /** Python's `s.split(sep, 1)`: one part when `sep` does not occur,
      otherwise the text before and after its first occurrence. */
  function SplitOnce(s: string, sep: char): (parts: seq<string>)
    ensures |parts| == 1 || |parts| == 2
    ensures |parts| == 1 <==> sep !in s
    ensures |parts| == 1 ==> parts[0] == s
    ensures |parts| == 2 ==> sep !in parts[0] && s == parts[0] + [sep] + parts[1]
  {
    if |s| == 0 then [s]
    else if s[0] == sep then ["", s[1..]]
    else
      var rest := SplitOnce(s[1..], sep);
      if |rest| == 1 then [s] else [[s[0]] + rest[0], rest[1]]
  }

  /** The keyword a subfolder name supplies: the part after the first `_`,
      or the whole name when there is no `_`. */
  function Keyword(name: string): (k: string)
    ensures '_' !in name ==> k == name
    ensures '_' in name ==> exists p :: '_' !in p && name == p + "_" + k
  {
    var parts := SplitOnce(name, '_');
    if |parts| > 1 then parts[1] else parts[0]
  }

  /** The decomposition is unique: whatever follows the first `_` is the
      keyword, even when it is empty or holds further underscores. */
  lemma KeywordAfterFirstUnderscore(p: string, k: string)
    requires '_' !in p
    ensures Keyword(p + "_" + k) == k
  {
    var name := p + "_" + k;
    assert name[|p|] == '_';
    var parts := SplitOnce(name, '_');
    assert |parts| == 2;
    var q, r := parts[0], parts[1];
    assert name == q + "_" + r;
    FirstIndexAfter(q, '_', r);
    FirstIndexAfter(p, '_', k);
    assert q == name[..|q|] == p;
    assert r == name[|q| + 1..] == k;
  }

  /** `k` occurs in `s` starting at index `i`. */
  ghost predicate OccursAt(s: string, k: string, i: int)
  {
    0 <= i <= |s| - |k| && s[i..i + |k|] == k
  }

  /** Python's `k in s` for strings: `k` occurs somewhere in `s`. */
  function Contains(s: string, k: string): (r: bool)
    ensures r <==> exists i :: OccursAt(s, k, i)
  {
    if |k| <= |s| && s[..|k|] == k then
      assert OccursAt(s, k, 0);
      true
    else if |s| <= |k| then
      false
    else
      var r := Contains(s[1..], k);
      if r then
        assert exists i :: OccursAt(s, k, i) by {
          var i :| OccursAt(s[1..], k, i);
          assert s[i + 1..i + 1 + |k|] == s[1..][i..i + |k|];
          assert OccursAt(s, k, i + 1);
        }
        true
      else
        assert forall i :: OccursAt(s, k, i) ==> OccursAt(s[1..], k, i - 1) by {
          forall i | OccursAt(s, k, i) ensures OccursAt(s[1..], k, i - 1) {
            assert i != 0;
            assert s[1..][i - 1..i - 1 + |k|] == s[i..i + |k|];
          }
        }
        false
  }

  /** An empty keyword (a subfolder named `..._`) matches every file. */
  lemma EmptyKeywordMatchesAll(s: string)
    ensures Contains(s, "")
  {
    assert OccursAt(s, "", 0);
  }
}
