/** `strings.Split` and `strings.Join` on underscores. */
module Strings {

  ghost predicate Plain(s: string) {
    '_' !in s
  }

  function Split(s: string): (parts: seq<string>)
    ensures |parts| >= 1
  {
    if s == "" then [""]
    else
      var p, c := Split(s[..|s| - 1]), s[|s| - 1];
      if c == '_' then p + [""] else p[|p| - 1 := p[|p| - 1] + [c]]
  }

  function Join(parts: seq<string>): string {
    if parts == [] then ""
    else if |parts| == 1 then parts[0]
    else Join(parts[..|parts| - 1]) + "_" + parts[|parts| - 1]
  }

  lemma {:induction false} JoinSplit(s: string)
    ensures Join(Split(s)) == s
  {
    if s != "" {
      var t, c := s[..|s| - 1], s[|s| - 1];
      JoinSplit(t);
      var p := Split(t);
      if c == '_' {
        assert (p + [""])[..|p|] == p;
        assert t + "_" + "" == s;
      } else if |p| > 1 {
        var q := Split(s);
        assert q[..|q| - 1] == p[..|p| - 1];
        assert Join(p[..|p| - 1]) + "_" + (p[|p| - 1] + [c]) == Join(p) + [c] == s;
      }
    }
  }

  lemma {:induction false} SplitAppend(a: string, b: string)
    requires Plain(b)
    ensures Split(a + "_" + b) == Split(a) + [b]
  {
    var s := a + "_" + b;
    if b == "" {
      assert s[..|s| - 1] == a;
    } else {
      var b' := b[..|b| - 1];
      assert s[..|s| - 1] == a + "_" + b';
      SplitAppend(a, b');
      assert b == b' + [b[|b| - 1]];
      assert (Split(a) + [b'])[|Split(a)| := b' + [b[|b| - 1]]] == Split(a) + [b];
    }
  }

  lemma {:induction false} SplitPlain(s: string)
    requires Plain(s)
    ensures Split(s) == [s]
  {
    if s != "" {
      SplitPlain(s[..|s| - 1]);
      assert s == s[..|s| - 1] + [s[|s| - 1]];
    }
  }

  /** A text and a last part without underscore are told apart from any other such pair. */
  lemma LastPart(a: string, b: string, a': string, b': string)
    requires Plain(b) && Plain(b') && a + "_" + b == a' + "_" + b'
    ensures a == a' && b == b'
  {
    SplitAppend(a, b);
    SplitAppend(a', b');
    var p, p' := Split(a), Split(a');
    assert (p + [b])[|p|] == b && (p' + [b'])[|p'|] == b';
    assert p == (p + [b])[..|p|] == p';
    JoinSplit(a);
    JoinSplit(a');
  }
}
