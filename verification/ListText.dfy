/** Lists stored as text, "[a, b, c]", and the string operations that stand for
    operations on lists.  Each is compared with the list operation on the encodings
    of arbitrary elements, and the condition under which they agree is exact. */
module ListText {
  import opened Prelude
  import opened Text
  import L = Lqa
  import R = Range
  import S = Escaping

  const SEP: string := ", "

  function Join(parts: seq<string>): string {
    if parts == [] then ""
    else if |parts| == 1 then parts[0]
    else parts[0] + SEP + Join(parts[1..])
  }

  function Enc(parts: seq<string>): string {
    "[" + Join(parts) + "]"
  }

  lemma {:induction false} JoinAppend(a: seq<string>, b: seq<string>)
    requires a != [] && b != []
    ensures Join(a + b) == Join(a) + SEP + Join(b)
  {
    if |a| == 1 {
      assert (a + b)[1..] == b;
    } else {
      assert (a + b)[1..] == a[1..] + b;
      JoinAppend(a[1..], b);
    }
  }

  lemma JoinEmpty(a: seq<string>)
    requires |Join(a)| == 0
    ensures a == [] || a == [""]
  {
  }

  // ---------- Appending and prepending at run time ----------

  // The constant's text without its outer brackets.
  function Inner(s: string): string
    requires |s| >= 2
  {
    s[1..|s| - 1]
  }

  // IF(STRLEN(cur) = 2, "[b]", CONCAT(SUBSTR(cur, 1, STRLEN(cur) - 1), ", b]"))
  function AppendText(cur: string, items: seq<string>): string
    requires |cur| >= 1
  {
    if items == [] then cur
    else if |cur| == 2 then "[" + Inner(Enc(items)) + "]"
    else cur[..|cur| - 1] + (", " + Inner(Enc(items)) + "]")
  }

  // IF(STRLEN(cur) = 2, "[a]", CONCAT("[a, ", SUBSTR(cur, 2)))
  function PrependText(items: seq<string>, cur: string): string
    requires |cur| >= 1
  {
    if items == [] then cur
    else if |cur| == 2 then "[" + Inner(Enc(items)) + "]"
    else ("[" + Inner(Enc(items)) + ", ") + cur[1..]
  }

  lemma JoinOfPair(a: seq<string>, b: seq<string>)
    ensures |Join(a + b)| == |Join(a)| + |Join(b)| + if a == [] || b == [] then 0 else 2
    ensures a == [] ==> Join(a + b) == Join(b)
    ensures b == [] ==> Join(a + b) == Join(a)
  {
    if a == [] {
      assert a + b == b;
    } else if b == [] {
      assert a + b == a;
    } else {
      JoinAppend(a, b);
    }
  }

  // Appending constants to a stored list gives the list appended to, unless the stored
  // list is the one whose text cannot be told from that of the empty list.
  lemma AppendIff(a: seq<string>, b: seq<string>)
    ensures AppendText(Enc(a), b) == Enc(a + b) <==> b == [] || a != [""]
  {
    JoinOfPair(a, b);
    assert Inner(Enc(b)) == Join(b);
    if a != [] && b != [] {
      JoinAppend(a, b);
      if |Join(a)| == 0 {
        JoinEmpty(a);
      } else {
        assert Enc(a)[..|Enc(a)| - 1] == "[" + Join(a);
        assert "[" + Join(a) + (", " + Join(b) + "]") == "[" + (Join(a) + SEP + Join(b)) + "]";
      }
    }
  }

  lemma PrependIff(a: seq<string>, b: seq<string>)
    ensures PrependText(a, Enc(b)) == Enc(a + b) <==> a == [] || b != [""]
  {
    JoinOfPair(a, b);
    assert Inner(Enc(a)) == Join(a);
    if a != [] && b != [] {
      JoinAppend(a, b);
      if |Join(b)| == 0 {
        JoinEmpty(b);
      } else {
        assert Enc(b)[1..] == Join(b) + "]";
        assert ("[" + Join(a) + ", ") + (Join(b) + "]") == "[" + (Join(a) + SEP + Join(b)) + "]";
      }
    }
  }

  predicate NeedsEscape(c: char) {
    c == '"' || c == '\\' || c == '\n' || c == '\r'
  }

  // The constant goes into the update between quotes and without escapes; it reads as
  // itself exactly when no character needs one.
  lemma {:induction false} RawLiteralIff(s: string)
    ensures S.ReadSparql(s + "\"") == Some(S.Read(s, "")) <==> forall c :: c in s ==> !NeedsEscape(c)
  {
    var text := s + "\"";
    if s == "" {
      assert text[1..] == "";
    } else {
      assert text[1..] == s[1..] + "\"";
      assert s == [s[0]] + s[1..];
      RawLiteralIff(s[1..]);
      assert s[0] in s;
      if s[0] == '\\' {
        ReadShrinks(text[2..]);
        assert S.ReadSparql(text) != Some(S.Read(s, ""));
      } else if s[0] == '"' {
        assert text[1..] != "";
        assert S.ReadSparql(text) != Some(S.Read(s, ""));
      } else if s[0] == '\n' || s[0] == '\r' {
        assert S.ReadSparql(text) == None;
      } else if S.ReadSparql(text[1..]).Some? {
        var v := S.ReadSparql(text[1..]).value.value;
        assert ([s[0]] + v)[1..] == v;
        assert S.ReadSparql(text) == Some(S.Read(s, "")) <==> S.ReadSparql(text[1..]) == Some(S.Read(s[1..], ""));
      }
    }
  }

  lemma {:induction false} ReadShrinks(text: string)
    ensures S.ReadSparql(text).Some? ==> |S.ReadSparql(text).value.value| + |S.ReadSparql(text).value.rest| < |text|
  {
    if S.ReadSparql(text).Some? && text[0] != '"' {
      ReadShrinks(if text[0] == '\\' then text[2..] else text[1..]);
    }
  }

  // ---------- Concatenating constants ----------

  type CharSet = char -> bool

  function TrimStart(s: string, p: CharSet): string {
    if s != "" && p(s[0]) then TrimStart(s[1..], p) else s
  }

  function TrimEnd(s: string, p: CharSet): string {
    if s != "" && p(s[|s| - 1]) then TrimEnd(s[..|s| - 1], p) else s
  }

  function Trim(s: string, p: CharSet): string {
    TrimEnd(TrimStart(s, p), p)
  }

  predicate IsBracket(c: char) {
    c == '[' || c == ']'
  }

  // The constant lists a and b, each given by its text; isSpace is what trim() removes.
  function FoldText(a: string, b: string, isSpace: CharSet): string {
    var l, r := Trim(Trim(a, IsBracket), isSpace), Trim(Trim(b, IsBracket), isSpace);
    if l == "" && r == "" then "[]"
    else if l == "" then "[" + r + "]"
    else if r == "" then "[" + l + "]"
    else "[" + l + ", " + r + "]"
  }

  // Nothing to trim at either end.
  predicate Tidy(s: string, p: CharSet) {
    s == "" || (!p(s[0]) && !p(s[|s| - 1]))
  }

  lemma {:induction false} StartShrinks(s: string, p: CharSet)
    ensures |TrimStart(s, p)| <= |s|
    ensures TrimStart(s, p) == s || |TrimStart(s, p)| < |s|
    ensures TrimStart(s, p) == s <==> s == "" || !p(s[0])
  {
    if s != "" && p(s[0]) {
      StartShrinks(s[1..], p);
    }
  }

  lemma {:induction false} EndShrinks(s: string, p: CharSet)
    ensures |TrimEnd(s, p)| <= |s|
    ensures TrimEnd(s, p) == s || |TrimEnd(s, p)| < |s|
    ensures TrimEnd(s, p) == s <==> s == "" || !p(s[|s| - 1])
  {
    if s != "" && p(s[|s| - 1]) {
      EndShrinks(s[..|s| - 1], p);
    }
  }

  lemma TrimTidy(s: string, p: CharSet)
    ensures |Trim(s, p)| <= |s|
    ensures Trim(s, p) == s <==> Tidy(s, p)
    ensures Trim(s, p) == s || |Trim(s, p)| < |s|
  {
    StartShrinks(s, p);
    EndShrinks(TrimStart(s, p), p);
  }

  lemma {:induction false} StartBeforeBracket(s: string)
    ensures TrimStart(s + "]", IsBracket) == if TrimStart(s, IsBracket) == "" then "" else TrimStart(s, IsBracket) + "]"
  {
    if s == "" {
      assert s + "]" == "]" && (s + "]")[1..] == "";
    } else if IsBracket(s[0]) {
      assert (s + "]")[1..] == s[1..] + "]";
      StartBeforeBracket(s[1..]);
    }
  }

  // The outer brackets go, and so do any that the text has at its ends.
  lemma TrimOuter(s: string)
    ensures Trim("[" + s + "]", IsBracket) == Trim(s, IsBracket)
  {
    var t := "[" + s + "]";
    assert t[1..] == s + "]";
    StartBeforeBracket(s);
    var m := TrimStart(s, IsBracket);
    assert (m + "]")[..|m + "]"| - 1] == m;
  }

  predicate TidyText(s: string, isSpace: CharSet) {
    Tidy(s, IsBracket) && Tidy(s, isSpace)
  }

  lemma InnerText(a: seq<string>, isSpace: CharSet)
    ensures var l := Trim(Trim(Enc(a), IsBracket), isSpace);
            && |l| <= |Join(a)|
            && (l == Join(a) <==> TidyText(Join(a), isSpace))
            && (l != Join(a) ==> |l| < |Join(a)|)
  {
    TrimOuter(Join(a));
    var m := Trim(Join(a), IsBracket);
    TrimTidy(Join(a), IsBracket);
    TrimTidy(m, isSpace);
  }

  // Does the text of the list survive the trimming?  Elements that begin or end with a
  // bracket, as nested lists do, or a space do not.
  predicate Foldable(a: seq<string>, isSpace: CharSet) {
    TidyText(Join(a), isSpace) && a != [""]
  }

  // The ends of the text are those of the first and the last element.
  lemma {:induction false} JoinEnds(a: seq<string>)
    requires a != [] && forall i :: 0 <= i < |a| ==> a[i] != ""
    ensures var j, last := Join(a), a[|a| - 1]; j != "" && j[0] == a[0][0] && j[|j| - 1] == last[|last| - 1]
  {
    if |a| > 1 {
      JoinEnds(a[1..]);
      var r := Join(a[1..]);
      hide Join;
      assert Join(a) == a[0] + SEP + r by { JoinStep(a); }
      EndsOf(a[0], SEP, r);
    }
  }

  lemma JoinStep(a: seq<string>)
    requires |a| > 1
    ensures Join(a) == a[0] + SEP + Join(a[1..])
  {
  }

  lemma EndsOf(x: string, y: string, z: string)
    requires x != "" && z != ""
    ensures var j := x + y + z; j[0] == x[0] && j[|j| - 1] == z[|z| - 1]
  {
  }

  // Elements that are not empty, and neither begin nor end with a bracket or a space,
  // always survive.
  lemma TidyElementsFold(a: seq<string>, isSpace: CharSet)
    requires forall i :: 0 <= i < |a| ==> a[i] != "" && TidyText(a[i], isSpace)
    ensures Foldable(a, isSpace)
  {
    if a != [] {
      JoinEnds(a);
    }
  }

  // Folding two constant lists gives their concatenation exactly when both texts survive;
  // a list next to an empty one may also be [""], which then is lost on both sides.
  lemma FoldIff(a: seq<string>, b: seq<string>, isSpace: CharSet)
    ensures a != [] && b != [] ==> (FoldText(Enc(a), Enc(b), isSpace) == Enc(a + b) <==> Foldable(a, isSpace) && Foldable(b, isSpace))
    ensures a == [] ==> (FoldText(Enc(a), Enc(b), isSpace) == Enc(a + b) <==> TidyText(Join(b), isSpace))
    ensures b == [] ==> (FoldText(Enc(a), Enc(b), isSpace) == Enc(a + b) <==> TidyText(Join(a), isSpace))
  {
    hide Trim, Tidy;
    var l, r := Trim(Trim(Enc(a), IsBracket), isSpace), Trim(Trim(Enc(b), IsBracket), isSpace);
    InnerText(a, isSpace);
    InnerText(b, isSpace);
    JoinOfPair(a, b);
    FoldCases(l, r, a, b, FoldText(Enc(a), Enc(b), isSpace));
    if |Join(a)| == 0 {
      JoinEmpty(a);
    }
    if |Join(b)| == 0 {
      JoinEmpty(b);
    }
  }

  lemma FoldCases(l: string, r: string, a: seq<string>, b: seq<string>, t: string)
    requires |l| <= |Join(a)| && |r| <= |Join(b)| && (l == Join(a) || |l| < |Join(a)|) && (r == Join(b) || |r| < |Join(b)|)
    requires t == if l == "" && r == "" then "[]" else if l == "" then "[" + r + "]" else if r == "" then "[" + l + "]" else "[" + l + ", " + r + "]"
    ensures a != [] && b != [] ==> (t == Enc(a + b) <==> l == Join(a) && r == Join(b) && l != "" && r != "")
    ensures a == [] ==> (t == Enc(a + b) <==> r == Join(b))
    ensures b == [] ==> (t == Enc(a + b) <==> l == Join(a))
  {
    hide Join;
    JoinOfPair(a, b);
    if a != [] && b != [] {
      JoinAppend(a, b);
      BothFilled(l, r, Join(a), Join(b), t);
    } else {
      JoinNone();
      OneFilled(if a == [] then r else l, if a == [] then Join(b) else Join(a), t);
    }
  }

  lemma JoinNone()
    ensures Join([]) == ""
  {
  }

  lemma BothFilled(l: string, r: string, ja: string, jb: string, t: string)
    requires |l| <= |ja| && |r| <= |jb|
    requires t == if l == "" && r == "" then "[]" else if l == "" then "[" + r + "]" else if r == "" then "[" + l + "]" else "[" + l + ", " + r + "]"
    requires (l == ja || |l| < |ja|) && (r == jb || |r| < |jb|)
    ensures t == "[" + (ja + SEP + jb) + "]" <==> l == ja && r == jb && l != "" && r != ""
  {
    var whole := "[" + (ja + SEP + jb) + "]";
    assert |whole| == |ja| + |jb| + 4;
    if l != "" && r != "" {
      assert |t| == |l| + |r| + 4;
      assert t == "[" + (l + SEP + r) + "]";
    } else {
      assert |t| < |whole|;
    }
  }

  lemma OneFilled(x: string, y: string, t: string)
    requires t == "[" + x + "]" || (x == "" && t == "[]")
    ensures t == "[" + y + "]" <==> x == y
  {
    assert t == "[" + x + "]";
    assert ("[" + x + "]")[1..|x| + 1] == x && ("[" + y + "]")[1..|y| + 1] == y;
  }

  // ---------- The tail ----------

  // The text after the first occurrence of w.
  function After(s: string, w: string): Option<string>
    requires w != ""
  {
    if StartsWith(s, w) then Some(s[|w|..])
    else if s == "" then None
    else After(s[1..], w)
  }

  // IF(CONTAINS(s, ", "), CONCAT("[", STRAFTER(s, ", ")), "[]")
  function TailText(s: string): string {
    match After(s, SEP)
    case Some(t) => "[" + t
    case None => "[]"
  }

  lemma {:induction false} AfterFinds(s: string)
    ensures After(s, SEP).Some? <==> Contains(s, SEP)
    ensures After(s, SEP).Some? ==> |After(s, SEP).value| <= |s| - 2
  {
    if s == "" {
      assert !Contains(s, SEP);
    } else {
      assert s == [s[0]] + s[1..];
      ContainsCons(s[0], s[1..], SEP);
      if !StartsWith(s, SEP) {
        AfterFinds(s[1..]);
      }
    }
  }

  // A separator inside s is found before one that follows s; c is not a space.
  lemma {:induction false} AfterJoined(s: string, c: char, rest: string)
    requires c != ' '
    ensures After(s + ([c] + rest), SEP) == match After(s, SEP) case Some(t) => Some(t + ([c] + rest)) case None => After([c] + rest, SEP)
  {
    var text := s + ([c] + rest);
    if s == "" {
      assert text == [c] + rest;
    } else {
      assert text[1..] == s[1..] + ([c] + rest);
      assert StartsWith(text, SEP) <==> StartsWith(s, SEP) by {
        if |s| == 1 {
          assert text[..2] == [s[0], c];
          assert SEP[1] == ' ';
        } else {
          assert text[..2] == s[..2];
        }
      }
      if StartsWith(s, SEP) {
        assert text[2..] == s[2..] + ([c] + rest);
      } else {
        AfterJoined(s[1..], c, rest);
      }
    }
  }

  // The text of the tail is right exactly when the first element has no separator in it,
  // or is the only one and has it at its end alone.
  lemma TailIff(parts: seq<string>)
    ensures TailText(Enc(parts)) == Enc(if parts == [] then [] else parts[1..])
       <==> parts == [] || !Contains(parts[0], SEP) || (|parts| == 1 && After(parts[0], SEP) == Some(""))
  {
    var text := Enc(parts);
    if parts == [] {
      assert text == "" + (['['] + "]");
      NoneAfterBracket("");
    } else {
      var first := parts[0];
      AfterFinds(first);
      NoneAfterBracket(first);
      if |parts| == 1 {
        assert text == "[" + first + "]" && parts[1..] == [];
        assert text == ("[" + first) + ([']'] + "");
        AfterJoined("[" + first, ']', "");
        AfterEnd();
        assert Enc([]) == "[]";
        if After(first, SEP).Some? {
          var t := After(first, SEP).value;
          assert ("[" + (t + ([']'] + "")) == "[]") <==> t == "";
        }
      } else {
        var rest := Join(parts[1..]) + "]";
        assert text == ("[" + first) + ([','] + (" " + rest));
        AfterJoined("[" + first, ',', " " + rest);
        assert [','] + (" " + rest) == SEP + rest && (SEP + rest)[2..] == rest;
        assert Enc(parts[1..]) == "[" + rest;
        if After(first, SEP).Some? {
          assert |"[" + (After(first, SEP).value + ([','] + (" " + rest)))| > |"[" + rest|;
        }
      }
    }
  }

  lemma AfterEnd()
    ensures After([']'] + "", SEP) == None && After("]", SEP) == None
  {
    assert [']'] + "" == "]" && "]"[1..] == "";
  }

  lemma NoneAfterBracket(s: string)
    ensures After("[" + s, SEP) == After(s, SEP)
    ensures s == "" ==> After("" + (['['] + "]"), SEP) == None
  {
    var t := "[" + s;
    assert t[1..] == s && t[0] == '[' && SEP[0] == ',';
    assert |t| >= 2 ==> t[..2][0] == '[';
    assert !StartsWith(t, SEP);
    if s == "" {
      AfterEnd();
      assert "" + (['['] + "]") == "[]" && "[]"[1..] == "]";
      assert !StartsWith("[]", SEP) by {
        assert "[]"[..2][0] == '[';
      }
    }
  }

  // ---------- Constant ranges as text ----------

  function Numerals(ns: seq<int>): (r: seq<string>)
    ensures |r| == |ns| && forall i :: 0 <= i < |ns| ==> r[i] == Numeral(ns[i])
  {
    seq(|ns|, i requires 0 <= i < |ns| => Numeral(ns[i]))
  }

  lemma NumeralsAppend(ns: seq<int>, i: int)
    ensures Numerals(ns + [i]) == Numerals(ns) + [Numeral(i)]
  {
  }

  datatype RangeError = ZeroStep | NotConstant | Overflow

  // The second folding of range: it builds the text, and refuses a zero step and
  // arguments that are not constant.
  method FoldRangeText(start: Option<int>, end: Option<int>, step: int) returns (r: Result<string, RangeError>)
    requires (start.Some? ==> FitsI64(start.value)) && (end.Some? ==> FitsI64(end.value))
    ensures r == Err(NotConstant) <==> start.None? || end.None?
    ensures r == Err(ZeroStep) <==> start.Some? && end.Some? && step == 0
    ensures start.Some? && end.Some? && step != 0 ==>
              && (r.Ok? <==> FitsI64(start.value + R.Count(start.value, end.value, step) * step))
              && (r.Ok? ==> r.value == Enc(Numerals(L.Progression(start.value, end.value, step))))
  {
    hide R.Count, Numeral, Enc, L.Progression;
    if start.None? || end.None? {
      return Err(NotConstant);
    }
    if step == 0 {
      return Err(ZeroStep);
    }
    var s, e := start.value, end.value;
    R.LoopIsProgression(s, e, step);
    var items: seq<string> := [];
    ghost var ns: seq<int> := [];
    var i := s;
    assert R.Loop(i, e, step).Some? ==> ns + R.Loop(i, e, step).value == R.Loop(i, e, step).value;
    while (step > 0 && i <= e) || (step < 0 && i >= e)
      invariant R.Loop(s, e, step) == R.After(ns, R.Loop(i, e, step))
      invariant items == Numerals(ns)
      decreases if step > 0 then e - i else i - e
    {
      ghost var rest := R.Loop(i + step, e, step);
      assert rest.Some? ==> ns + ([i] + rest.value) == (ns + [i]) + rest.value;
      NumeralsAppend(ns, i);
      items := items + [Numeral(i)];
      ns := ns + [i];
      if !FitsI64(i + step) {
        return Err(Overflow);
      }
      i := i + step;
    }
    assert ns + [] == ns;
    return Ok(Enc(items));
  }
}
