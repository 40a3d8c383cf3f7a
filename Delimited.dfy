/**
 * Text joined with a one-character separator, and its inverse, the
 * split of Python's `str.split(sep)` with an explicit separator.
 */
module Delimited {

  /** `f0 + sep + f1 + sep + ... + fn`: the fields with one separator between neighbours. */
  function Join(fields: seq<string>, sep: char): string
    requires |fields| >= 1
  {
    if |fields| == 1 then fields[0]
    else Join(fields[..|fields| - 1], sep) + [sep] + fields[|fields| - 1]
  }

  /**
   * Python's `s.split(sep)`: the maximal pieces between separators, empty
   * pieces included, so that "" splits into [""].
   */
  function Split(s: string, sep: char): (parts: seq<string>)
    ensures |parts| >= 1
    ensures forall i :: 0 <= i < |parts| ==> sep !in parts[i]
    decreases |s|
  {
    if s == [] then [[]]
    else
      var init := Split(s[..|s| - 1], sep);
      var c := s[|s| - 1];
      if c == sep then init + [[]]
      else init[..|init| - 1] + [init[|init| - 1] + [c]]
  }

  /** Extending a text by separator-free characters only extends its last piece. */
  lemma {:induction false} SplitExtend(p: string, f: string, sep: char)
    requires sep !in f
    ensures var s := Split(p, sep);
      Split(p + f, sep) == s[..|s| - 1] + [s[|s| - 1] + f]
    decreases |f|
  {
    var s := Split(p, sep);
    if f == [] {
      assert p + f == p;
      assert s[|s| - 1] + f == s[|s| - 1];
      assert s[..|s| - 1] + [s[|s| - 1]] == s;
    } else {
      var g := f[..|f| - 1];
      var c := f[|f| - 1];
      assert c in f;
      assert sep !in g by {
        forall i | 0 <= i < |g| ensures g[i] != sep { assert g[i] == f[i]; }
      }
      SplitExtend(p, g, sep);
      var q := p + f;
      assert q[..|q| - 1] == p + g;
      assert q[|q| - 1] == c;
      var init := Split(p + g, sep);
      assert init[..|init| - 1] == s[..|s| - 1];
      assert init[|init| - 1] + [c] == s[|s| - 1] + f;
    }
  }

  /** A separator followed by separator-free text adds exactly one piece. */
  lemma SplitAppendField(t: string, f: string, sep: char)
    requires sep !in f
    ensures Split(t + [sep] + f, sep) == Split(t, sep) + [f]
  {
    var p := t + [sep];
    assert p[..|p| - 1] == t;
    var s := Split(p, sep);
    assert s == Split(t, sep) + [[]];
    assert s[..|s| - 1] == Split(t, sep);
    assert s[|s| - 1] + f == f;
    SplitExtend(p, f, sep);
  }

  /** Splitting the joined fields gives the fields back, when none holds the separator. */
  lemma {:induction false} SplitJoin(fields: seq<string>, sep: char)
    requires |fields| >= 1
    requires forall i :: 0 <= i < |fields| ==> sep !in fields[i]
    ensures Split(Join(fields, sep), sep) == fields
    decreases |fields|
  {
    var n := |fields|;
    if n == 1 {
      SplitExtend([], fields[0], sep);
      assert [] + fields[0] == fields[0];
    } else {
      var init := fields[..n - 1];
      SplitJoin(init, sep);
      SplitAppendField(Join(init, sep), fields[n - 1], sep);
      assert init + [fields[n - 1]] == fields;
    }
  }

  /** Joining the pieces of a split gives the text back. */
  lemma {:induction false} JoinSplit(s: string, sep: char)
    ensures Join(Split(s, sep), sep) == s
    decreases |s|
  {
    if s != [] {
      var p := s[..|s| - 1];
      var c := s[|s| - 1];
      var init := Split(p, sep);
      JoinSplit(p, sep);
      assert s == p + [c];
      if c == sep {
        var parts := init + [[]];
        assert parts[..|parts| - 1] == init;
      } else {
        var parts := init[..|init| - 1] + [init[|init| - 1] + [c]];
        var n := |init|;
        if n > 1 {
          assert parts[..n - 1] == init[..n - 1];
        }
      }
    }
  }

  /** The joined text holds exactly one separator fewer than there are fields. */
  lemma {:induction false} JoinSeparatorCount(fields: seq<string>, sep: char)
    requires |fields| >= 1
    requires forall i :: 0 <= i < |fields| ==> sep !in fields[i]
    ensures multiset(Join(fields, sep))[sep] == |fields| - 1
    decreases |fields|
  {
    var n := |fields|;
    assert sep !in multiset(fields[n - 1]);
    if n > 1 {
      var init := fields[..n - 1];
      JoinSeparatorCount(init, sep);
    }
  }

  /** Joining one more field appends a separator and that field. */
  lemma JoinPrefix(fields: seq<string>, k: nat, sep: char)
    requires 1 <= k < |fields|
    ensures Join(fields[..k + 1], sep) == Join(fields[..k], sep) + [sep] + fields[k]
  {
    assert fields[..k + 1][..k] == fields[..k];
  }

  /** Four fields joined, written out. */
  lemma JoinFour(a: string, b: string, c: string, d: string, sep: char)
    ensures Join([a, b, c, d], sep) == a + [sep] + b + [sep] + c + [sep] + d
  {
    assert [a, b, c, d][..3] == [a, b, c];
    assert [a, b, c][..2] == [a, b];
    assert [a, b][..1] == [a];
    assert Join([a, b], sep) == a + [sep] + b;
    assert Join([a, b, c], sep) == a + [sep] + b + [sep] + c;
  }
}
