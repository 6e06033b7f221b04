/** Searching and replacing in strings, as Rust's str does. */
module Text {
  import opened Prelude

  predicate StartsWith(s: string, w: string) {
    |w| <= |s| && s[..|w|] == w
  }

  predicate EndsWith(s: string, w: string) {
    |w| <= |s| && s[|s| - |w|..] == w
  }

  predicate Contains(s: string, w: string) {
    exists i :: 0 <= i <= |s| && StartsWith(s[i..], w)
  }

  // Occurrences are replaced from left to right, without overlap.
  function Replace(s: string, from: string, to: string): string
    requires from != []
  {
    if s == [] then []
    else if StartsWith(s, from) then to + Replace(s[|from|..], from, to)
    else [s[0]] + Replace(s[1..], from, to)
  }

  lemma ContainsCons(c: char, s: string, w: string)
    ensures Contains([c] + s, w) <==> StartsWith([c] + s, w) || Contains(s, w)
  {
    var t := [c] + s;
    assert t[0..] == t;
    forall i | 0 <= i <= |s|
      ensures t[i + 1..] == s[i..]
    {
    }
    if Contains(t, w) {
      var i :| 0 <= i <= |t| && StartsWith(t[i..], w);
      if i > 0 {
        assert t[i..] == s[i - 1..];
      }
    }
    if Contains(s, w) {
      var i :| 0 <= i <= |s| && StartsWith(s[i..], w);
      assert StartsWith(t[i + 1..], w);
    }
  }

  lemma {:induction false} ReplaceNothing(s: string, from: string, to: string)
    requires from != [] && !Contains(s, from)
    ensures Replace(s, from, to) == s
  {
    if s != [] {
      assert s == [s[0]] + s[1..];
      ContainsCons(s[0], s[1..], from);
      ReplaceNothing(s[1..], from, to);
    }
  }

  // A name without a colon that does not end in an underscore.
  predicate IsName(s: string) {
    ':' !in s && (s == "" || s[|s| - 1] != '_')
  }

  lemma LabelIsNoName(to: string, rest: string, v: string)
    requires |to| >= 2 && to[0] == '_' && to[1] == ':' && v != []
    ensures StartsWith(to + rest, v) ==> !IsName(v)
  {
    var r := to + rest;
    if StartsWith(r, v) {
      assert v[0] == r[..|v|][0] == '_';
      if |v| > 1 {
        assert v[1] == r[..|v|][1] == ':' && v[1] in v;
      }
    }
  }

  // A name at the start of the result was at the start of the text, because a text
  // that starts with _: cannot stand in for any of it.
  lemma {:induction false} NamePrefix(s: string, from: string, to: string, v: string)
    requires from != [] && |to| >= 2 && to[0] == '_' && to[1] == ':' && IsName(v)
    ensures StartsWith(Replace(s, from, to), v) ==> StartsWith(s, v)
  {
    if v != [] && s != [] && StartsWith(Replace(s, from, to), v) {
      var r := Replace(s, from, to);
      if StartsWith(s, from) {
        LabelIsNoName(to, Replace(s[|from|..], from, to), v);
      }
      assert r == [s[0]] + Replace(s[1..], from, to);
      PrefixTail(s[0], Replace(s[1..], from, to), v);
      NamePrefix(s[1..], from, to, v[1..]);
      PrefixTail(s[0], s[1..], v);
      assert s == [s[0]] + s[1..];
    }
  }

  lemma PrefixTail(c: char, t: string, v: string)
    requires v != []
    ensures StartsWith([c] + t, v) <==> c == v[0] && StartsWith(t, v[1..])
  {
    var s := [c] + t;
    if |v| <= |s| {
      assert s[..|v|] == [c] + t[..|v| - 1] && v == [v[0]] + v[1..];
    }
  }

  lemma ContainsAppend(a: string, b: string, w: string)
    requires w != [] && w[0] !in a
    ensures Contains(a + b, w) <==> Contains(b, w)
    decreases a
  {
    if a == [] {
      assert a + b == b;
    } else {
      assert a + b == [a[0]] + (a[1..] + b);
      ContainsCons(a[0], a[1..] + b, w);
      ContainsAppend(a[1..], b, w);
      assert a[0] in a;
    }
  }

  // Replacing ?v by a blank node label, which starts with _: and has no ?, leaves no ?v.
  lemma {:induction false} ReplaceLeavesNone(s: string, v: string, to: string)
    requires IsName(v) && |to| >= 2 && to[0] == '_' && to[1] == ':' && '?' !in to
    ensures !Contains(Replace(s, "?" + v, to), "?" + v)
  {
    var from := "?" + v;
    if s == [] {
      assert !StartsWith([], from);
    } else if StartsWith(s, from) {
      ReplaceLeavesNone(s[|from|..], v, to);
      ContainsAppend(to, Replace(s[|from|..], from, to), from);
    } else {
      ReplaceLeavesNone(s[1..], v, to);
      var rest := Replace(s[1..], from, to);
      ContainsCons(s[0], rest, from);
      assert from[0] == '?' && from[1..] == v && s == [s[0]] + s[1..];
      PrefixTail(s[0], rest, from);
      PrefixTail(s[0], s[1..], from);
      NamePrefix(s[1..], from, to, v);
    }
  }
}
