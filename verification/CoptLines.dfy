/**
  Which lines the matcher of copt.c finds.  It never matches wrongly, but it commits to the
  first place where the rest of the pattern matches, failed attempts leave bindings, and it
  stops at the end of the line even when only variables are left.
 */
module CoptLines {
  import opened Copt

  // ------------------------------------------------------------- lines that fit freely

  function VarsOf(pat: string): set<char>
    requires Plain(pat)
  {
    if pat == "" then {}
    else if pat[0] != '%' then VarsOf(pat[1..])
    else {pat[1]} + VarsOf(pat[2..])
  }

  predicate AllBound(pat: string, vars: Vars)
    requires Plain(pat)
  {
    forall d :: d in VarsOf(pat) ==> d in vars
  }

  /** Some text for each variable makes the pattern the line; what a variable and the rest of
      the pattern stand for may not be empty together. */
  ghost predicate Fits(ins: string, pat: string)
    requires Plain(pat)
    decreases |pat|, 0
  {
    if ins == "" || pat == "" then ins == pat
    else if pat[0] != '%' then pat[0] == ins[0] && Fits(ins[1..], pat[1..])
    else SuffixFits(ins, pat[2..])
  }

  ghost predicate SuffixFits(ins: string, pat: string)
    requires Plain(pat)
    decreases |pat|, 1
  {
    exists k :: 0 <= k <= |ins| && Fits(ins[k..], pat)
  }

  lemma {:induction false} TailFits(ins: string, pat: string)
    requires Plain(pat) && ins != ""
    ensures SuffixFits(ins, pat) <==> Fits(ins, pat) || SuffixFits(ins[1..], pat)
  {
    assert ins[0..] == ins;
    forall k | 0 <= k <= |ins| - 1 ensures ins[1..][k..] == ins[k + 1..] {}
    if SuffixFits(ins, pat) {
      var k :| 0 <= k <= |ins| && Fits(ins[k..], pat);
      assert k > 0 ==> ins[1..][k - 1..] == ins[k..];
    }
  }

  lemma {:induction false} MatchFits(ins: string, pat: string, vars: Vars)
    requires Plain(pat) && Match(ins, pat, vars).0
    ensures Fits(ins, pat)
    decreases |pat|
  {
    if ins != "" && pat != "" {
      if pat[0] != '%' {
        MatchFits(ins[1..], pat[1..], vars);
      } else {
        var found := Search(ins, pat[2..], vars);
        var w := if pat[1] in found.1 then found.1 else found.1[pat[1] := ins[..found.0]];
        MatchFits(ins[found.0..], pat[2..], w);
      }
    }
  }

  /** Only variables of the pattern are bound, and none when all are bound already. */
  lemma {:induction false} MatchKeys(ins: string, pat: string, vars: Vars)
    requires Plain(pat)
    ensures forall d :: d in Match(ins, pat, vars).1 ==> d in vars || d in VarsOf(pat)
    ensures AllBound(pat, vars) ==> Match(ins, pat, vars).1 == vars
    decreases |pat|, 0
  {
    if ins != "" && pat != "" {
      if pat[0] != '%' {
        MatchKeys(ins[1..], pat[1..], vars);
      } else {
        var found := Search(ins, pat[2..], vars);
        SearchKeys(ins, pat[2..], vars);
        MatchKeys(ins[found.0..], pat[2..], found.1);
        MatchKeys(ins[found.0..], pat[2..], found.1[pat[1] := ins[..found.0]]);
      }
    }
  }

  lemma {:induction false} SearchKeys(ins: string, rest: string, vars: Vars)
    requires Plain(rest)
    ensures forall d :: d in Search(ins, rest, vars).1 ==> d in vars || d in VarsOf(rest)
    ensures AllBound(rest, vars) ==> Search(ins, rest, vars).1 == vars
    decreases |rest| + 1, |ins|
  {
    if ins != "" {
      MatchKeys(ins, rest, vars);
      SearchKeys(ins[1..], rest, Match(ins, rest, vars).1);
    }
  }

  // ------------------------------------------------------- patterns that miss no line

  /** The pattern begins with adjacent variables, one of them not in s. */
  predicate Absorber(pat: string, s: set<char>)
    requires Plain(pat)
  {
    pat != "" && pat[0] == '%' && (pat[1] !in s || Absorber(pat[2..], s))
  }

  predicate Closed(pat: string, s: set<char>)
    requires Plain(pat)
  {
    pat == "" || pat[0] != '%' || Absorber(pat, s)
  }

  /** s are the repeated variables.  After each character a run of variables has one outside s,
      and so has the rest of the run after the last use of a variable of s. */
  predicate Good(pat: string, s: set<char>)
    requires Plain(pat)
  {
    if pat == "" then true
    else if pat[0] != '%' then Closed(pat[1..], s) && Good(pat[1..], s)
    else
      && Good(pat[2..], s)
      && if pat[1] in s then pat[1] in VarsOf(pat[2..]) || Absorber(pat[2..], s)
         else pat[1] !in VarsOf(pat[2..])
  }

  /** The pattern without the variables of s at its beginning, which stand for nothing. */
  function Core(pat: string, s: set<char>): (r: string)
    requires Plain(pat)
    ensures Plain(r) && |r| <= |pat|
  {
    if pat != "" && pat[0] == '%' && pat[1] in s then Core(pat[2..], s) else pat
  }

  lemma {:induction false} CoreNotEmpty(pat: string, s: set<char>)
    requires Plain(pat) && Good(pat, s) && pat != ""
    ensures Core(pat, s) != ""
    ensures Core(pat, s)[0] == '%' ==> Core(pat, s)[1] !in s
  {
    if pat[0] == '%' && pat[1] in s {
      CoreNotEmpty(pat[2..], s);
    }
  }

  lemma {:induction false} LaterFits(ins: string, k: nat, pat: string)
    requires Plain(pat) && k <= |ins| && SuffixFits(ins[k..], pat)
    ensures SuffixFits(ins, pat)
  {
    var j :| 0 <= j <= |ins| - k && Fits(ins[k..][j..], pat);
    assert ins[k..][j..] == ins[k + j..];
  }

  /** A variable takes up whatever comes before. */
  lemma {:induction false} VariableFits(ins: string, pat: string)
    requires Plain(pat) && ins != "" && pat != "" && pat[0] == '%'
    ensures SuffixFits(ins, pat) <==> SuffixFits(ins, pat[2..])
    ensures Fits(ins, pat) <==> SuffixFits(ins, pat)
  {
    if SuffixFits(ins, pat) {
      var k :| 0 <= k <= |ins| && Fits(ins[k..], pat);
      LaterFits(ins, k, pat[2..]);
    }
    assert ins[0..] == ins;
    if SuffixFits(ins, pat[2..]) {
      assert Fits(ins[0..], pat);
    }
  }

  lemma {:induction false} CoreFits(ins: string, pat: string, s: set<char>)
    requires Plain(pat) && Good(pat, s)
    ensures SuffixFits(ins, pat) <==> SuffixFits(ins, Core(pat, s))
    ensures Closed(pat, s) ==> (Fits(ins, pat) <==> Fits(ins, Core(pat, s)))
  {
    if pat != "" && pat[0] == '%' && pat[1] in s {
      CoreNotEmpty(pat, s);
      CoreFits(ins, pat[2..], s);
      if ins != "" {
        VariableFits(ins, pat);
        if Core(pat, s)[0] == '%' {
          VariableFits(ins, Core(pat, s));
        }
        AbsorberCore(pat, s);
      }
    }
  }

  lemma {:induction false} AbsorberCore(pat: string, s: set<char>)
    requires Plain(pat) && Good(pat, s) && pat != ""
    ensures Core(pat, s) != ""
    ensures Absorber(pat, s) <==> Core(pat, s)[0] == '%'
  {
    CoreNotEmpty(pat, s);
    if pat[0] == '%' && pat[1] in s {
      AbsorberCore(pat[2..], s);
    }
  }

  /** The first place from which the rest of the line fits. */
  ghost function First(ins: string, pat: string): (k: nat)
    requires Plain(pat) && SuffixFits(ins, pat)
    ensures k <= |ins| && Fits(ins[k..], pat)
    ensures forall j :: 0 <= j < k ==> !Fits(ins[j..], pat)
    decreases |ins|
  {
    FirstStep(ins, pat);
    if Fits(ins, pat) then 0 else
      var k := First(ins[1..], pat);
      FirstShift(ins, pat, k);
      k + 1
  }

  lemma {:induction false} FirstStep(ins: string, pat: string)
    requires Plain(pat) && SuffixFits(ins, pat)
    ensures ins[0..] == ins && (Fits(ins, pat) || (ins != "" && SuffixFits(ins[1..], pat)))
  {
    assert ins[0..] == ins;
    if ins != "" {
      TailFits(ins, pat);
    }
  }

  lemma {:induction false} FirstShift(ins: string, pat: string, k: nat)
    requires Plain(pat) && ins != "" && !Fits(ins, pat) && k < |ins| && Fits(ins[1..][k..], pat)
    requires forall j :: 0 <= j < k ==> !Fits(ins[1..][j..], pat)
    ensures Fits(ins[k + 1..], pat) && forall j :: 0 <= j < k + 1 ==> !Fits(ins[j..], pat)
  {
    assert ins[0..] == ins && ins[1..][k..] == ins[k + 1..];
    forall j | 0 <= j < k + 1 ensures !Fits(ins[j..], pat) {
      assert j > 0 ==> ins[1..][j - 1..] == ins[j..];
    }
  }

  /** The texts a match gives the variables: nothing to those of s, and to the others the text
      up to the first place where the rest fits. */
  ghost function Texts(ins: string, pat: string, s: set<char>): (v: Vars)
    requires Plain(pat) && Good(pat, s) && Fits(ins, Core(pat, s))
    decreases |pat|
  {
    if ins == "" || pat == "" then map[]
    else if pat[0] != '%' then
      CoreFits(ins[1..], pat[1..], s);
      Texts(ins[1..], pat[1..], s)
    else if pat[1] in s then Texts(ins, pat[2..], s)[pat[1] := ""]
    else
      CoreFits(ins, pat[2..], s);
      var k := First(ins, Core(pat[2..], s));
      Texts(ins[k..], pat[2..], s)[pat[1] := ins[..k]]
  }

  lemma {:induction false} TextsKeys(ins: string, pat: string, s: set<char>)
    requires Plain(pat) && Good(pat, s) && Fits(ins, Core(pat, s))
    ensures Texts(ins, pat, s).Keys == VarsOf(pat)
    ensures forall d :: d in VarsOf(pat) && d in s ==> Texts(ins, pat, s)[d] == ""
  {
    if pat != "" {
      CoreNotEmpty(pat, s);
      if pat[0] != '%' {
        CoreFits(ins[1..], pat[1..], s);
        TextsKeys(ins[1..], pat[1..], s);
      } else if pat[1] in s {
        TextsKeys(ins, pat[2..], s);
      } else {
        CoreFits(ins, pat[2..], s);
        TextsKeys(ins[First(ins, Core(pat[2..], s))..], pat[2..], s);
      }
    }
  }

  /** The texts at the first place where the pattern fits. */
  ghost function TextsAt(ins: string, pat: string, s: set<char>): (v: Vars)
    requires Plain(pat) && Good(pat, s) && SuffixFits(ins, Core(pat, s))
  {
    Texts(ins[First(ins, Core(pat, s))..], pat, s)
  }

  /** Nothing is bound, except that variables of s may stand for nothing. */
  predicate Clean(vars: Vars, pat: string, s: set<char>)
    requires Plain(pat)
  {
    forall d :: d in VarsOf(pat) && d in vars ==> d in s && vars[d] == ""
  }

  /** Every variable is bound already, as the first place where the pattern fits needs it. */
  ghost predicate Full(vars: Vars, ins: string, pat: string, s: set<char>)
    requires Plain(pat) && Good(pat, s)
  {
    SuffixFits(ins, Core(pat, s)) && Extends(TextsAt(ins, pat, s), vars)
  }

  ghost predicate Ready(vars: Vars, ins: string, pat: string, s: set<char>)
    requires Plain(pat) && Good(pat, s)
  {
    Clean(vars, pat, s) || Full(vars, ins, pat, s)
  }

  // -------------------------------------------------------------- what matching does

  /** What is ready for a pattern is ready for the rest behind a variable. */
  lemma {:induction false} ReadyRest(vars: Vars, ins: string, pat: string, s: set<char>)
    requires Plain(pat) && Good(pat, s) && pat != "" && pat[0] == '%' && ins != ""
    requires Ready(vars, ins, pat, s) && SuffixFits(ins, Core(pat[2..], s))
    requires pat[1] in s || Fits(ins, pat)
    ensures Ready(vars, ins, pat[2..], s)
  {
    if Full(vars, ins, pat, s) {
      hide Texts, Fits, SuffixFits, First, Core, TextsAt;
      if pat[1] in s {
        FullRestEmpty(vars, ins, pat, s);
      } else {
        FullRestText(vars, ins, pat, s);
      }
    }
  }

  lemma {:induction false} FullRestEmpty(vars: Vars, ins: string, pat: string, s: set<char>)
    requires Plain(pat) && Good(pat, s) && pat != "" && pat[0] == '%' && ins != "" && pat[1] in s
    requires Full(vars, ins, pat, s)
    ensures Full(vars, ins, pat[2..], s)
  {
    var rest := pat[2..];
    var k := First(ins, Core(rest, s));
    CoreNotEmpty(pat, s);
    TextsKeys(ins[k..], rest, s);
    hide First, Fits, SuffixFits;
    assert ins[k..] != "";
    assert TextsAt(ins, pat, s) == TextsAt(ins, rest, s)[pat[1] := ""];
  }

  lemma {:induction false} FullRestText(vars: Vars, ins: string, pat: string, s: set<char>)
    requires Plain(pat) && Good(pat, s) && pat != "" && pat[0] == '%' && ins != "" && pat[1] !in s
    requires Full(vars, ins, pat, s) && Fits(ins, pat)
    ensures Full(vars, ins, pat[2..], s)
  {
    var rest := pat[2..];
    CoreFits(ins, rest, s);
    assert ins[0..] == ins && First(ins, pat) == 0;
    var k := First(ins, Core(rest, s));
    TextsKeys(ins[k..], rest, s);
    assert TextsAt(ins, pat, s) == TextsAt(ins, rest, s)[pat[1] := ins[..k]];
  }

  /** When the line fits, the match succeeds and binds just those texts. */
  lemma {:induction false} Succeeds(ins: string, pat: string, s: set<char>, vars: Vars)
    requires Plain(pat) && Good(pat, s) && Fits(ins, Core(pat, s)) && Ready(vars, ins, pat, s)
    ensures Match(ins, pat, vars) == (true, vars + Texts(ins, pat, s))
    decreases |pat|, 0
  {
    assert ins[0..] == ins;
    if pat == "" {
      assert vars + map[] == vars;
    } else {
      CoreNotEmpty(pat, s);
      TextsKeys(ins, pat, s);
      assert First(ins, Core(pat, s)) == 0;
      if pat[0] != '%' {
        CoreFits(ins[1..], pat[1..], s);
        assert ins[1..][0..] == ins[1..] && First(ins[1..], Core(pat[1..], s)) == 0;
        assert Ready(vars, ins[1..], pat[1..], s);
        Succeeds(ins[1..], pat[1..], s, vars);
      } else if pat[1] in s {
        SucceedsEmpty(ins, pat, s, vars);
      } else {
        SucceedsText(ins, pat, s, vars);
      }
    }
  }

  lemma {:induction false} SucceedsEmpty(ins: string, pat: string, s: set<char>, vars: Vars)
    requires Plain(pat) && Good(pat, s) && Fits(ins, Core(pat, s)) && Ready(vars, ins, pat, s)
    requires ins != "" && pat != "" && pat[0] == '%' && pat[1] in s
    ensures Match(ins, pat, vars) == (true, vars + Texts(ins, pat, s))
    decreases |pat| - 1, 2
  {
    hide Match, Search, Fits, SuffixFits, First, Texts, Core, Full, Clean, Ready, Extends;
    var rest := pat[2..];
    TextsEmpty(ins, pat, s);
    ReadyRest(vars, ins, pat, s);
    Finds(ins, rest, s, vars);
    BoundEmpty(vars, ins, pat, s);
    VariableStep(ins, pat, vars);
    var t := Texts(ins, rest, s);
    var v := vars + t;
    var w := if pat[1] in v then v else v[pat[1] := ""];
    assert ins[0..] == ins && ins[..0] == "";
    MergeEmpty(vars, t, pat[1]);
    FullHere(w, ins, rest, s);
    Succeeds(ins, rest, s, w);
  }

  lemma {:induction false} TextsEmpty(ins: string, pat: string, s: set<char>)
    requires Plain(pat) && Good(pat, s) && Fits(ins, Core(pat, s))
    requires ins != "" && pat != "" && pat[0] == '%' && pat[1] in s
    ensures Fits(ins, Core(pat[2..], s)) && SuffixFits(ins, Core(pat[2..], s)) && First(ins, Core(pat[2..], s)) == 0
    ensures TextsAt(ins, pat[2..], s) == Texts(ins, pat[2..], s)
    ensures Texts(ins, pat, s) == Texts(ins, pat[2..], s)[pat[1] := ""]
    ensures pat[1] in Texts(ins, pat[2..], s) ==> Texts(ins, pat[2..], s)[pat[1]] == ""
  {
    assert ins[0..] == ins;
    TextsKeys(ins, pat[2..], s);
  }

  lemma {:induction false} BoundEmpty(vars: Vars, ins: string, pat: string, s: set<char>)
    requires Plain(pat) && Good(pat, s) && Fits(ins, Core(pat, s)) && Ready(vars, ins, pat, s)
    requires ins != "" && pat != "" && pat[0] == '%' && pat[1] in s
    ensures pat[1] in vars ==> vars[pat[1]] == ""
  {
    assert ins[0..] == ins && First(ins, Core(pat, s)) == 0;
    TextsKeys(ins, pat, s);
    hide Texts;
    if Full(vars, ins, pat, s) {
      assert TextsAt(ins, pat, s) == Texts(ins, pat, s);
    }
  }

  lemma {:induction false} MergeEmpty(vars: Vars, t: Vars, d: char)
    requires (d in t ==> t[d] == "") && (d in vars ==> vars[d] == "")
    ensures var v := vars + t;
            var w := if d in v then v else v[d := ""];
            (d in v ==> v[d] == "") && Extends(t, w) && w + t == vars + t[d := ""]
  {
    var v := vars + t;
    var w := if d in v then v else v[d := ""];
    assert w + t == vars + t[d := ""];
  }

  lemma {:induction false} SucceedsText(ins: string, pat: string, s: set<char>, vars: Vars)
    requires Plain(pat) && Good(pat, s) && Fits(ins, pat) && Ready(vars, ins, pat, s)
    requires ins != "" && pat != "" && pat[0] == '%' && pat[1] !in s
    ensures Match(ins, pat, vars) == (true, vars + Texts(ins, pat, s))
    decreases |pat| - 1, 2
  {
    hide Match, Search, Fits, SuffixFits, First, Texts, Core, Full, Clean, Ready, Extends;
    var rest := pat[2..];
    TextsText(ins, pat, s);
    ReadyRest(vars, ins, pat, s);
    Finds(ins, rest, s, vars);
    BoundText(vars, ins, pat, s);
    VariableStep(ins, pat, vars);
    var k := First(ins, Core(rest, s));
    var t := Texts(ins[k..], rest, s);
    var v := vars + t;
    var w := if pat[1] in v then v else v[pat[1] := ins[..k]];
    MergeText(vars, t, pat[1], ins[..k]);
    FullHere(w, ins[k..], rest, s);
    Succeeds(ins[k..], rest, s, w);
  }

  lemma {:induction false} MergeText(vars: Vars, t: Vars, d: char, text: string)
    requires d !in t && (d in vars ==> vars[d] == text)
    ensures var v := vars + t;
            var w := if d in v then v else v[d := text];
            (d in v ==> v[d] == text) && Extends(t, w) && w + t == vars + t[d := text]
  {
    var v := vars + t;
    var w := if d in v then v else v[d := text];
    assert w + t == vars + t[d := text];
  }

  lemma {:induction false} FullHere(w: Vars, ins: string, pat: string, s: set<char>)
    requires Plain(pat) && Good(pat, s) && Fits(ins, Core(pat, s)) && Extends(Texts(ins, pat, s), w)
    ensures Full(w, ins, pat, s) && Ready(w, ins, pat, s)
  {
    assert ins[0..] == ins && First(ins, Core(pat, s)) == 0;
  }

  lemma {:induction false} TextsText(ins: string, pat: string, s: set<char>)
    requires Plain(pat) && Good(pat, s) && Fits(ins, pat)
    requires ins != "" && pat != "" && pat[0] == '%' && pat[1] !in s
    ensures SuffixFits(ins, Core(pat[2..], s))
    ensures var k := First(ins, Core(pat[2..], s));
            && Fits(ins[k..], Core(pat[2..], s))
            && Texts(ins, pat, s) == Texts(ins[k..], pat[2..], s)[pat[1] := ins[..k]]
            && pat[1] !in Texts(ins[k..], pat[2..], s)
  {
    CoreFits(ins, pat[2..], s);
    TextsKeys(ins[First(ins, Core(pat[2..], s))..], pat[2..], s);
  }

  /** A variable that is bound already has the text it needs. */
  lemma {:induction false} BoundText(vars: Vars, ins: string, pat: string, s: set<char>)
    requires Plain(pat) && Good(pat, s) && Fits(ins, pat) && Ready(vars, ins, pat, s)
    requires ins != "" && pat != "" && pat[0] == '%' && pat[1] !in s && SuffixFits(ins, Core(pat[2..], s))
    ensures pat[1] in vars ==> vars[pat[1]] == ins[..First(ins, Core(pat[2..], s))]
  {
    TextsText(ins, pat, s);
    hide Texts;
    assert ins[0..] == ins && First(ins, pat) == 0;
    if Full(vars, ins, pat, s) {
      assert TextsAt(ins, pat, s) == Texts(ins, pat, s);
    }
  }

  /** When it does not fit, the match fails, and leaves nothing bound, or everything as the next
      place that fits needs it, or there is no such place. */
  lemma {:induction false} Fails(ins: string, pat: string, s: set<char>, vars: Vars)
    requires Plain(pat) && Good(pat, s) && !Fits(ins, Core(pat, s)) && Ready(vars, ins, pat, s)
    ensures !Match(ins, pat, vars).0
    ensures SuffixFits(ins, Core(pat, s)) ==> Ready(Match(ins, pat, vars).1, ins, pat, s)
    ensures SuffixFits(ins, Core(pat, s)) && Closed(pat, s) && Clean(vars, pat, s) ==> Clean(Match(ins, pat, vars).1, pat, s)
    ensures SuffixFits(ins, Core(pat, s)) && ins != "" && pat != "" && pat[0] == '%' ==> Full(Match(ins, pat, vars).1, ins, pat, s)
    decreases |pat|, 0
  {
    if ins == "" || pat == "" {
      if pat != "" {
        CoreNotEmpty(pat, s);
      }
    } else if pat[0] != '%' {
      FailsLiteral(ins, pat, s, vars);
    } else if pat[1] in s {
      FailsEmpty(ins, pat, s, vars);
    } else {
      VariableFits(ins, pat);
      if Match(ins, pat, vars).0 {
        MatchFits(ins, pat, vars);
      }
    }
  }

  lemma {:induction false} FailsLiteral(ins: string, pat: string, s: set<char>, vars: Vars)
    requires Plain(pat) && Good(pat, s) && !Fits(ins, pat) && Ready(vars, ins, pat, s)
    requires ins != "" && pat != "" && pat[0] != '%'
    ensures !Match(ins, pat, vars).0
    ensures SuffixFits(ins, pat) ==> Ready(Match(ins, pat, vars).1, ins, pat, s)
    ensures SuffixFits(ins, pat) && Clean(vars, pat, s) ==> Clean(Match(ins, pat, vars).1, pat, s)
    decreases |pat| - 1, 2
  {
    if Match(ins, pat, vars).0 {
      MatchFits(ins, pat, vars);
    }
    if Clean(vars, pat, s) {
      if pat[0] == ins[0] {
        CoreFits(ins[1..], pat[1..], s);
        Fails(ins[1..], pat[1..], s, vars);
        if SuffixFits(ins, pat) {
          AfterLiteral(ins, pat);
        }
      }
    } else {
      TextsKeys(ins[First(ins, pat)..], pat, s);
      MatchKeys(ins, pat, vars);
    }
  }

  lemma {:induction false} AfterLiteral(ins: string, pat: string)
    requires Plain(pat) && pat != "" && pat[0] != '%' && ins != "" && SuffixFits(ins, pat)
    ensures SuffixFits(ins[1..], pat[1..])
  {
    var k :| 0 <= k <= |ins| && Fits(ins[k..], pat);
    assert ins[k..][1..] == ins[1..][k..];
  }

  lemma {:induction false} FailsEmpty(ins: string, pat: string, s: set<char>, vars: Vars)
    requires Plain(pat) && Good(pat, s) && !Fits(ins, Core(pat, s)) && Ready(vars, ins, pat, s)
    requires ins != "" && pat != "" && pat[0] == '%' && pat[1] in s
    ensures !Match(ins, pat, vars).0
    ensures SuffixFits(ins, Core(pat, s)) ==> !Closed(pat, s) && Full(Match(ins, pat, vars).1, ins, pat, s)
    decreases |pat| - 1, 2
  {
    var rest := pat[2..];
    if SuffixFits(ins, Core(pat, s)) {
      AbsorberCore(pat, s);
      if Core(pat, s)[0] == '%' {
        VariableFits(ins, Core(pat, s));
      }
      ReadyRest(vars, ins, pat, s);
      Finds(ins, rest, s, vars);
      assert ins[0..] == ins;
      var k := First(ins, Core(rest, s));
      TextsKeys(ins[k..], rest, s);
      TextsKeys(ins[k..], pat, s);
      assert ins[..k] != "";
    } else if Match(ins, pat, vars).0 {
      MatchFits(ins, pat, vars);
      CoreFits(ins, rest, s);
    }
  }

  /** The search finds the first place that fits, whatever failed attempts have bound before. */
  lemma {:induction false} Finds(ins: string, pat: string, s: set<char>, vars: Vars)
    requires Plain(pat) && Good(pat, s) && SuffixFits(ins, Core(pat, s)) && Ready(vars, ins, pat, s)
    ensures Search(ins, pat, vars) == (First(ins, Core(pat, s)), vars + TextsAt(ins, pat, s))
    decreases |pat|, 1, |ins|, 0
  {
    assert ins[0..] == ins;
    if ins == "" {
      if pat != "" {
        CoreNotEmpty(pat, s);
      }
      assert vars + map[] == vars;
    } else if Fits(ins, Core(pat, s)) {
      Succeeds(ins, pat, s, vars);
    } else {
      FindsLater(ins, pat, s, vars);
    }
  }

  lemma {:induction false} FindsLater(ins: string, pat: string, s: set<char>, vars: Vars)
    requires Plain(pat) && Good(pat, s) && SuffixFits(ins, Core(pat, s)) && Ready(vars, ins, pat, s)
    requires ins != "" && !Fits(ins, Core(pat, s))
    ensures Search(ins, pat, vars) == (First(ins, Core(pat, s)), vars + TextsAt(ins, pat, s))
    decreases |pat|, 1, |ins| - 1, 1
  {
    Fails(ins, pat, s, vars);
    TailFits(ins, Core(pat, s));
    MatchExtends(ins, pat, vars);
    MatchKeys(ins, pat, vars);
    hide Match, Fits, SuffixFits, First, Texts, TextsAt, Core, Full, Clean, Ready;
    var v := Match(ins, pat, vars).1;
    ReadyTail(v, ins, pat, s);
    Finds(ins[1..], pat, s, v);
    SameTexts(vars, v, ins, pat, s);
  }

  lemma {:induction false} ReadyTail(vars: Vars, ins: string, pat: string, s: set<char>)
    requires Plain(pat) && Good(pat, s) && ins != "" && SuffixFits(ins[1..], Core(pat, s)) && SuffixFits(ins, Core(pat, s))
    requires !Fits(ins, Core(pat, s))
    ensures First(ins, Core(pat, s)) == First(ins[1..], Core(pat, s)) + 1
    ensures TextsAt(ins[1..], pat, s) == TextsAt(ins, pat, s)
    ensures Ready(vars, ins, pat, s) ==> Ready(vars, ins[1..], pat, s)
  {
    var k := First(ins[1..], Core(pat, s));
    assert ins[1..][k..] == ins[k + 1..];
  }

  /** What a failed attempt has added is among the texts. */
  lemma {:induction false} SameTexts(vars: Vars, v: Vars, ins: string, pat: string, s: set<char>)
    requires Plain(pat) && Good(pat, s) && SuffixFits(ins, Core(pat, s)) && Ready(v, ins, pat, s) && Extends(vars, v)
    requires forall d :: d in v ==> d in vars || d in VarsOf(pat)
    ensures v + TextsAt(ins, pat, s) == vars + TextsAt(ins, pat, s)
  {
    TextsKeys(ins[First(ins, Core(pat, s))..], pat, s);
  }

  // ------------------------------------------------------------------- in terms of subst

  /** The pattern ends in a variable that stands for nothing. */
  predicate LastEmpty(pat: string, vars: Vars)
    requires Plain(pat)
  {
    if pat == "" then false
    else if pat[0] != '%' then LastEmpty(pat[1..], vars)
    else if pat[2..] == "" then pat[1] !in vars || vars[pat[1]] == ""
    else LastEmpty(pat[2..], vars)
  }

  lemma {:induction false} SubstNotEmpty(pat: string, vars: Vars)
    requires Plain(pat) && pat != "" && !LastEmpty(pat, vars)
    ensures Subst(pat, vars) != ""
  {
    if pat[0] == '%' && pat[2..] != "" {
      SubstNotEmpty(pat[2..], vars);
    }
  }

  lemma {:induction false} SubstFits(pat: string, vars: Vars)
    requires Plain(pat) && !LastEmpty(pat, vars)
    ensures Fits(Subst(pat, vars), pat)
  {
    if pat != "" {
      SubstNotEmpty(pat, vars);
      var ins := Subst(pat, vars);
      if pat[0] != '%' {
        SubstFits(pat[1..], vars);
        assert ins[1..] == Subst(pat[1..], vars);
      } else {
        var text := if pat[1] in vars then vars[pat[1]] else "";
        assert ins[|text|..] == Subst(pat[2..], vars);
        if pat[2..] != "" {
          SubstFits(pat[2..], vars);
        }
      }
    }
  }

  lemma {:induction false} MatchLast(ins: string, pat: string, vars: Vars)
    requires Plain(pat) && Match(ins, pat, vars).0
    ensures !LastEmpty(pat, Match(ins, pat, vars).1)
    decreases |pat|
  {
    if ins != "" && pat != "" {
      if pat[0] != '%' {
        MatchLast(ins[1..], pat[1..], vars);
      } else {
        var found := Search(ins, pat[2..], vars);
        var w := if pat[1] in found.1 then found.1 else found.1[pat[1] := ins[..found.0]];
        MatchLast(ins[found.0..], pat[2..], w);
        if pat[2..] == "" {
          MatchExtends(ins[found.0..], pat[2..], w);
          assert ins[found.0..] == "";
        }
      }
    }
  }

  /** For a pattern of that kind, with nothing bound: the match succeeds exactly when some texts
      for the variables give the line, the last one not empty if the pattern ends in a variable. */
  lemma {:induction false} MatchesExactly(ins: string, pat: string, s: set<char>, vars: Vars)
    requires Plain(pat) && Good(pat, s) && Closed(pat, s) && Clean(vars, pat, s)
    ensures Match(ins, pat, vars).0 <==> exists v: Vars :: Subst(pat, v) == ins && !LastEmpty(pat, v)
  {
    if Match(ins, pat, vars).0 {
      MatchIsSound(ins, pat, vars);
      MatchLast(ins, pat, vars);
    } else {
      forall v: Vars | Subst(pat, v) == ins ensures LastEmpty(pat, v) {
        if !LastEmpty(pat, v) {
          SubstFits(pat, v);
          CoreFits(ins, pat, s);
          Succeeds(ins, pat, s, vars);
        }
      }
    }
  }

  /** The matcher finds every line the pattern stands for. */
  ghost predicate Complete(pat: string)
    requires Plain(pat)
  {
    forall v: Vars :: Match(Subst(pat, v), pat, map[]).0
  }

  /** It finds every line the pattern stands for with some text for a variable at its end. */
  ghost predicate CompleteButLastEmpty(pat: string)
    requires Plain(pat)
  {
    forall v: Vars :: !LastEmpty(pat, v) ==> Match(Subst(pat, v), pat, map[]).0
  }

  function Repeated(pat: string): (s: set<char>)
    requires Plain(pat)
  {
    set d | d in VarsOf(pat) && Occurrences(pat, d) >= 2
  }

  // ------------------------------------------------------------ a line that is missed

  lemma {:induction false} JoinedPlain(a: string, b: string)
    requires Plain(a) && Plain(b)
    ensures Plain(a + b)
  {
    if a == "" {
      assert a + b == b;
    } else if a[0] != '%' {
      JoinedTail(a, b, 1);
      JoinedPlain(a[1..], b);
    } else {
      JoinedTail(a, b, 2);
      JoinedPlain(a[2..], b);
    }
  }

  lemma JoinedTail(a: string, b: string, n: nat)
    requires 0 < n <= |a|
    ensures (a + b)[n..] == a[n..] + b && (a + b)[0] == a[0] && (n > 1 ==> (a + b)[1] == a[1])
  {}

  lemma {:induction false} JoinedVars(a: string, b: string, d: char)
    requires Plain(a) && Plain(b) && Plain(a + b)
    ensures d in VarsOf(a + b) <==> d in VarsOf(a) || d in VarsOf(b)
    ensures Occurrences(a + b, d) == Occurrences(a, d) + Occurrences(b, d)
  {
    if a == "" {
      assert a + b == b;
    } else if a[0] != '%' {
      assert (a + b)[1..] == a[1..] + b;
      JoinedVars(a[1..], b, d);
    } else {
      assert (a + b)[2..] == a[2..] + b;
      JoinedVars(a[2..], b, d);
    }
  }

  lemma {:induction false} JoinedSubst(a: string, b: string, vars: Vars)
    requires Plain(a) && Plain(b) && Plain(a + b)
    ensures Subst(a + b, vars) == Subst(a, vars) + Subst(b, vars)
  {
    if a == "" {
      assert a + b == b;
    } else {
      var n := if a[0] != '%' then 1 else 2;
      var text := if n == 1 then [a[0]] else if a[1] in vars then vars[a[1]] else "";
      assert (a + b)[n..] == a[n..] + b;
      JoinedSubst(a[n..], b, vars);
      Regroup(text, Subst(a[n..], vars), Subst(b, vars));
    }
  }

  lemma Regroup(x: string, y: string, z: string)
    ensures x + (y + z) == x + y + z
  {}

  lemma {:induction false} UsedVars(pat: string, d: char)
    requires Plain(pat)
    ensures d in VarsOf(pat) <==> Occurrences(pat, d) > 0
  {
    if pat != "" {
      UsedVars(if pat[0] != '%' then pat[1..] else pat[2..], d);
    }
  }

  /** The first attempt of every variable is to stand for nothing, so with the bare characters of
      a before it the rest of the pattern is tried on the rest of the line first of all. */
  lemma {:induction false} FirstAttempt(a: string, q: string, ins: string)
    requires Plain(a) && Plain(q) && Plain(a + q) && ins != ""
    ensures Extends(Match(ins, q, map[]).1, Match(Subst(a, map[]) + ins, a + q, map[]).1)
    decreases |a|
  {
    var line := Subst(a, map[]) + ins;
    if a == "" {
      assert a + q == q && line == ins;
    } else if a[0] != '%' {
      assert (a + q)[1..] == a[1..] + q && line[1..] == Subst(a[1..], map[]) + ins;
      assert (a + q)[0] == line[0] == a[0];
      LiteralStep(line, a + q, map[]);
      FirstAttempt(a[1..], q, ins);
    } else {
      assert (a + q)[2..] == a[2..] + q && line == Subst(a[2..], map[]) + ins;
      FirstAttempt(a[2..], q, ins);
      AttemptRest(line, a + q);
    }
  }

  lemma {:induction false} AttemptRest(ins: string, pat: string)
    requires Plain(pat) && pat != "" && pat[0] == '%' && ins != ""
    ensures Extends(Match(ins, pat[2..], map[]).1, Match(ins, pat, map[]).1)
  {
    var rest := pat[2..];
    var tried, found := Match(ins, rest, map[]), Search(ins, rest, map[]);
    if !tried.0 {
      SearchExtends(ins[1..], rest, tried.1);
    }
    VariableStep(ins, pat, map[]);
    MatchExtends(ins[found.0..], rest, found.1);
    MatchExtends(ins[found.0..], rest, found.1[pat[1] := ins[..found.0]]);
  }

  lemma {:induction false} SubstLonger(pat: string, vars: Vars, d: char)
    requires Plain(pat)
    ensures |Subst(pat, vars)| >= |Subst(pat, map[])|
    ensures d in VarsOf(pat) && d in vars ==> |Subst(pat, vars)| >= |Subst(pat, map[])| + |vars[d]|
  {
    if pat == "" {
    } else if pat[0] != '%' {
      SubstLonger(pat[1..], vars, d);
    } else {
      SubstLonger(pat[2..], vars, d);
    }
  }

  lemma {:induction false} SubstBare(pat: string, vars: Vars)
    requires Plain(pat) && forall d :: d in VarsOf(pat) && d in vars ==> vars[d] == ""
    ensures Subst(pat, vars) == Subst(pat, map[])
  {
    if pat != "" {
      SubstBare(if pat[0] != '%' then pat[1..] else pat[2..], vars);
    }
  }

  lemma {:induction false} SearchIsSound(ins: string, rest: string, vars: Vars)
    requires Plain(rest)
    ensures var r := Search(ins, rest, vars);
            r.0 == |ins| || (Bound(rest, r.1) && Subst(rest, r.1) == ins[r.0..])
    decreases |ins|
  {
    if ins != "" {
      assert ins[0..] == ins;
      var tried := Match(ins, rest, vars);
      if tried.0 {
        MatchIsSound(ins, rest, vars);
        MatchBinds(ins, rest, vars);
      } else {
        SearchIsSound(ins[1..], rest, tried.1);
        var k := Search(ins[1..], rest, tried.1).0;
        assert ins[1..][k..] == ins[k + 1..];
      }
    }
  }

  /** Some character that is neither of the two. */
  function Other(c: char, d: char): (r: char)
    ensures r != c && r != d
  {
    if 'a' != c && 'a' != d then 'a' else if 'b' != c && 'b' != d then 'b' else 'c'
  }

  function Var(d: char): string {
    ['%', d]
  }

  /** The pattern up to the first use of d and after it. */
  lemma {:induction false} FirstUse(a: string, d: char) returns (a1: string, a2: string)
    requires Plain(a) && d in VarsOf(a)
    ensures Plain(a1) && Plain(a2) && a == a1 + Var(d) + a2 && d !in VarsOf(a1) && IsDigit(d)
  {
    if a[0] != '%' {
      a1, a2 := FirstUse(a[1..], d);
      a1 := [a[0]] + a1;
      assert a1[1..] + Var(d) + a2 == a[1..];
    } else if a[1] == d {
      a1, a2 := "", a[2..];
    } else {
      a1, a2 := FirstUse(a[2..], d);
      var b := a1;
      a1 := Var(a[1]) + a1;
      assert a1[2..] == b;
    }
  }

  /** Texts that give the line: one for d, and something for the variables used once. */
  function Fill(q: string, s: set<char>, u: char): (v: Vars)
    requires Plain(q)
    ensures v.Keys == VarsOf(q) - s && forall d :: d in v ==> v[d] == [u]
  {
    map d | d in VarsOf(q) - s :: [u]
  }

  lemma {:induction false} FillsLast(q: string, s: set<char>, v: Vars)
    requires Plain(q) && Good(q, s) && forall d :: d in VarsOf(q) - s ==> d in v && v[d] != ""
    ensures !LastEmpty(q, v)
  {
    if q != "" {
      FillsLast(if q[0] != '%' then q[1..] else q[2..], s, v);
    }
  }

  lemma {:induction false} LastOfJoined(a: string, q: string, v: Vars)
    requires Plain(a) && Plain(q) && Plain(a + q) && q != "" && !LastEmpty(q, v)
    ensures !LastEmpty(a + q, v)
  {
    if a == "" {
      assert a + q == q;
    } else if a[0] != '%' {
      assert (a + q)[1..] == a[1..] + q;
      LastOfJoined(a[1..], q, v);
    } else {
      assert (a + q)[2..] == a[2..] + q;
      LastOfJoined(a[2..], q, v);
    }
  }

  /** d is used for the last time, and before the next character no variable follows that is used
      once: the line below is missed.  The first attempt leaves d bound to the text up to the place
      where the rest fits, and then the line is too short for its earlier use. */
  lemma {:induction false} MissedLast(a: string, d: char, rest: string, s: set<char>) returns (v: Vars)
    requires Plain(a) && Plain(rest) && Plain(Var(d) + rest) && Plain(a + (Var(d) + rest)) && IsDigit(d)
    requires d in VarsOf(a) && d !in VarsOf(rest) && Good(rest, s) && !Absorber(rest, s)
    requires VarsOf(rest) * VarsOf(a) <= s
    ensures !LastEmpty(a + (Var(d) + rest), v) && !Match(Subst(a + (Var(d) + rest), v), a + (Var(d) + rest), map[]).0
  {
    var a1, a2 := FirstUse(a, d);
    var core := Core(rest, s);
    var y := if core == "" then 'a' else Other(core[0], core[0]);
    v := Fill(rest, s, y)[d := Subst(a2, map[]) + [y]];
    LateLine(a, a1, d, a2, rest, s, y, v);
    var q, p := Var(d) + rest, a + (Var(d) + rest);
    var ins := [y] + Subst(a2, v) + Subst(q, v);
    FirstBound(ins, d, rest, s, y);
    FirstAttempt(a, q, ins);
    hide Match, Subst, LastEmpty, Absorber, Good, Core;
    var b, r := Match(ins, q, map[]).1, Match(Subst(p, v), p, map[]);
    if r.0 {
      MatchIsSound(Subst(p, v), p, map[]);
      JoinedSubst(a, q, r.1);
      SubstVar(d, rest, r.1);
      SubstLonger(a, r.1, d);
      assert false;
    }
  }

  lemma {:induction false} LateLine(a: string, a1: string, d: char, a2: string, rest: string, s: set<char>, y: char, v: Vars)
    requires Plain(a) && Plain(a1) && Plain(a2) && IsDigit(d) && a == a1 + Var(d) + a2 && d !in VarsOf(a1)
    requires Plain(rest) && Plain(Var(d) + rest) && Plain(a + (Var(d) + rest)) && Good(rest, s)
    requires d !in VarsOf(rest) && VarsOf(rest) * VarsOf(a) <= s
    requires v == Fill(rest, s, y)[d := Subst(a2, map[]) + [y]]
    ensures !LastEmpty(a + (Var(d) + rest), v)
    ensures Subst(a + (Var(d) + rest), v) == Subst(a, map[]) + ([y] + Subst(a2, v) + Subst(Var(d) + rest, v))
  {
    var q := Var(d) + rest;
    assert q[2..] == rest;
    FillsLast(rest, s, v);
    LastOfJoined(a, q, v);
    JoinedSubst(a, q, v);
    assert a == a1 + (Var(d) + a2);
    forall e | e in VarsOf(a1) ensures e !in v {
      JoinedVars(a1, Var(d) + a2, e);
    }
    LineOf(a, a1, d, a2, v, [y]);
    hide Subst, LastEmpty, VarsOf, Good, Plain;
    var x := Subst(a, map[]);
    Regroup(x + [y], Subst(a2, v), Subst(q, v));
    Regroup(x, [y], Subst(a2, v) + Subst(q, v));
    Regroup([y], Subst(a2, v), Subst(q, v));
  }

  /** A line in which the bare characters of a come first. */
  lemma {:induction false} LineOf(a: string, a1: string, d: char, a2: string, v: Vars, y: string)
    requires Plain(a) && Plain(a1) && Plain(a2) && IsDigit(d) && a == a1 + Var(d) + a2 && d !in VarsOf(a1)
    requires d in v && v[d] == Subst(a2, map[]) + y && forall e :: e in VarsOf(a1) && e in v ==> v[e] == ""
    ensures Subst(a, v) == Subst(a, map[]) + y + Subst(a2, v)
  {
    var b := Var(d) + a2;
    assert a == a1 + b && b[2..] == a2 && b[1] == d;
    JoinedPlain(a1, b);
    JoinedSubst(a1, b, v);
    JoinedSubst(a1, b, map[]);
    SubstBare(a1, v);
    hide Subst;
    SubstVar(d, a2, v);
    SubstVar(d, a2, map[]);
    var x1, x2 := Subst(a1, map[]), Subst(a2, map[]);
    assert "" + x2 == x2;
    Regroup(x1, x2 + y, Subst(a2, v));
    Regroup(x1, x2, y);
  }

  lemma SubstVar(d: char, rest: string, v: Vars)
    requires Plain(rest) && Plain(Var(d) + rest)
    ensures Subst(Var(d) + rest, v) == (if d in v then v[d] else "") + Subst(rest, v)
  {
    assert (Var(d) + rest)[2..] == rest;
  }

  /** What matching %d and the rest leaves bound when the rest does not fit at once. */
  lemma {:induction false} FirstBound(ins: string, d: char, rest: string, s: set<char>, y: char)
    requires Plain(rest) && Good(rest, s) && Plain(Var(d) + rest) && d !in VarsOf(rest) && ins != "" && ins[0] == y
    requires !Absorber(rest, s) && (Core(rest, s) != "" ==> Core(rest, s)[0] != y)
    ensures var b := Match(ins, Var(d) + rest, map[]).1;
            && d in b && b[d] != ""
            && forall v: Vars :: Extends(b, v) ==> v[d] == b[d] && |v[d]| + |Subst(rest, v)| >= |ins|
  {
    var q, core := Var(d) + rest, Core(rest, s);
    var found := Search(ins, rest, map[]);
    assert q[2..] == rest && q[1] == d;
    if rest != "" {
      AbsorberCore(rest, s);
    }
    assert !Fits(ins, core);
    Fails(ins, rest, s, map[]);
    VariableStep(ins, q, map[]);
    SearchKeys(ins, rest, map[]);
    SearchIsSound(ins, rest, map[]);
    var w := found.1[d := ins[..found.0]];
    MatchExtends(ins[found.0..], rest, w);
    var b := Match(ins, q, map[]).1;
    forall v: Vars | Extends(b, v) ensures v[d] == b[d] && |v[d]| + |Subst(rest, v)| >= |ins| {
      assert Extends(w, b) && w[d] == ins[..found.0];
      if found.0 < |ins| {
        SubstKept(rest, found.1, v);
      }
    }
  }

  /** The characters up to the first variable. */
  function Head(t: string): (w: string)
    requires Plain(t)
    ensures |w| <= |t| && t == w + t[|w|..] && Plain(t[|w|..]) && Plain(w)
    ensures t[|w|..] == "" || t[|w|..][0] == '%'
    ensures VarsOf(t[|w|..]) == VarsOf(t) && VarsOf(w) == {}
  {
    if t == "" || t[0] == '%' then "" else [t[0]] + Head(t[1..])
  }

  /** The pattern without the variables at its beginning has them all, if they are of s and a
      character comes next. */
  lemma {:induction false} AllUsedLater(q: string, s: set<char>)
    requires Plain(q) && Good(q, s) && !Absorber(q, s)
    ensures VarsOf(Core(q, s)) == VarsOf(q)
  {
    if q != "" && q[0] == '%' {
      AllUsedLater(q[2..], s);
    }
  }

  lemma {:induction false} CoreIsTail(q: string, s: set<char>) returns (n: nat)
    requires Plain(q)
    ensures n <= |q| && Core(q, s) == q[n..] && Plain(q[..n])
  {
    if q != "" && q[0] == '%' && q[1] in s {
      var m := CoreIsTail(q[2..], s);
      n := m + 2;
      TailOfTail(q, m);
    } else {
      n := 0;
      assert q[0..] == q;
    }
  }

  lemma TailOfTail(q: string, m: nat)
    requires m + 2 <= |q|
    ensures q[2..][m..] == q[m + 2..] && q[..m + 2][2..] == q[2..][..m]
  {}

  lemma {:induction false} HeadFits(w: string, t: string, x: string)
    requires Plain(w) && Plain(t) && Plain(w + t) && VarsOf(w) == {} && Fits(x, t) && x != "" && t != ""
    ensures Fits(w + x, w + t)
  {
    if w == "" {
      assert w + x == x && w + t == t;
    } else {
      assert w[0] != '%' && (w + x)[1..] == w[1..] + x && (w + t)[1..] == w[1..] + t;
      HeadFits(w[1..], t, x);
    }
  }

  lemma {:induction false} LaterPart(x: string, y: string, t: string)
    requires Plain(t) && t != "" && t[0] == '%' && Fits(y, t) && y != ""
    ensures Fits(x + y, t) && x + y != ""
  {
    var z := x + y;
    assert z[|x|..] == y && |z| > 0;
    assert SuffixFits(z, t);
    VariableFits(z, t);
  }

  lemma {:induction false} GoodTail(a: string, b: string, s: set<char>)
    requires Plain(a) && Plain(b) && Plain(a + b) && Good(a + b, s)
    ensures Good(b, s)
  {
    if a == "" {
      assert a + b == b;
    } else if a[0] != '%' {
      assert (a + b)[1..] == a[1..] + b;
      GoodTail(a[1..], b, s);
    } else {
      assert (a + b)[2..] == a[2..] + b;
      GoodTail(a[2..], b, s);
    }
  }

  lemma {:induction false} SubstLetters(w: string, v: Vars)
    requires Plain(w) && VarsOf(w) == {}
    ensures Subst(w, v) == w
  {
    if w != "" {
      SubstLetters(w[1..], v);
    }
  }

  /** What a failed attempt at a run of repeated variables leaves bound: the texts of the place one
      character further on. */
  lemma {:induction false} RunBound(ins: string, q: string, s: set<char>)
    requires Plain(q) && Good(q, s) && q != "" && q[0] == '%' && !Absorber(q, s) && ins != ""
    requires Core(q, s) != "" && Core(q, s)[0] != ins[0] && Fits(ins[1..], Core(q, s))
    ensures forall v: Vars :: Extends(Match(ins, q, map[]).1, v) ==> Subst(q, v) == ins[1..]
  {
    var core, tail := Core(q, s), ins[1..];
    AbsorberCore(q, s);
    assert ins[0..] == ins && !Fits(ins, core) && SuffixFits(ins, core);
    Fails(ins, q, s, map[]);
    assert First(ins, core) == 1;
    Succeeds(tail, q, s, map[]);
    var t := Texts(tail, q, s);
    assert map[] + t == t;
    MatchIsSound(tail, q, map[]);
    MatchBinds(tail, q, map[]);
    var b := Match(ins, q, map[]).1;
    forall v: Vars | Extends(b, v) ensures Subst(q, v) == tail {
      assert Extends(t, v);
      SubstKept(q, t, v);
    }
  }

  /** The line below ends in a place where the pattern behind the run fits. */
  lemma {:induction false} RunFits(q: string, pre: string, w: string, t: string, s: set<char>, v: Vars, x: string)
    requires Plain(q) && Plain(pre) && Plain(w) && Plain(t) && Plain(w + t) && q == pre + (w + t) && VarsOf(w) == {}
    requires t != "" && t[0] == '%' && Good(q, s) && forall d :: d in VarsOf(q) - s ==> d in v && v[d] != ""
    ensures Fits(w + (x + Subst(q, v)), w + t)
  {
    hide Subst, Fits, Good;
    RunEnd(q, pre, w, t, s, v);
    var y, z := Subst(t, v), Subst(pre, v);
    LaterPart(x + z + w, y, t);
    Regroup(x + z, w, y);
    Regroup(x, z, w + y);
    HeadFits(w, t, x + Subst(q, v));
  }

  lemma {:induction false} RunEnd(q: string, pre: string, w: string, t: string, s: set<char>, v: Vars)
    requires Plain(q) && Plain(pre) && Plain(w) && Plain(t) && Plain(w + t) && q == pre + (w + t) && VarsOf(w) == {}
    requires t != "" && t[0] == '%' && Good(q, s) && forall d :: d in VarsOf(q) - s ==> d in v && v[d] != ""
    ensures Subst(q, v) == Subst(pre, v) + (w + Subst(t, v)) && Fits(Subst(t, v), t) && Subst(t, v) != ""
  {
    JoinedSubst(pre, w + t, v);
    JoinedSubst(w, t, v);
    SubstLetters(w, v);
    GoodTail(pre, w + t, s);
    GoodTail(w, t, s);
    forall d | d in VarsOf(t) - s ensures d in v && v[d] != "" {
      JoinedVars(pre, w + t, d);
      JoinedVars(w, t, d);
    }
    FillsLast(t, s, v);
    SubstNotEmpty(t, v);
    SubstFits(t, v);
  }

  /** The pattern, or its part behind a character, begins with repeated variables only: a line is
      missed in which they would have to stand for something. */
  lemma {:induction false} MissedRun(a: string, q: string, s: set<char>) returns (v: Vars)
    requires Plain(a) && Plain(q) && Plain(a + q) && Good(q, s) && !Closed(q, s)
    requires VarsOf(q) * VarsOf(a) <= s && (a == "" || (Plain(a[..|a| - 1]) && a[|a| - 1] != '%'))
    ensures !LastEmpty(a + q, v) && !Match(Subst(a + q, v), a + q, map[]).0
  {
    AbsorberCore(q, s);
    AllUsedLater(q, s);
    var core := Core(q, s);
    var u := Other(core[0], if a == "" then core[0] else a[|a| - 1]);
    var w := Head(core);
    var ins;
    v, ins := RunLine(a, q, s, u, w);
    FillsLast(q, s, v);
    LastOfJoined(a, q, v);
    RunFails(a, q, s, u, v, ins);
  }

  lemma {:induction false} RunFails(a: string, q: string, s: set<char>, u: char, v: Vars, ins: string)
    requires Plain(a) && Plain(q) && Plain(a + q) && Good(q, s) && q != "" && q[0] == '%' && !Absorber(q, s)
    requires a == "" || (Plain(a[..|a| - 1]) && a[|a| - 1] != '%' && u != a[|a| - 1])
    requires Core(q, s) != "" && Core(q, s)[0] != u && ins != "" && ins[0] == u && Fits(ins[1..], Core(q, s))
    requires Subst(a + q, v) == Subst(a, map[]) + ins
    ensures !Match(Subst(a + q, v), a + q, map[]).0
  {
    hide Match, Subst, Absorber, Good, Core, Fits, VarsOf;
    RunBound(ins, q, s);
    FirstAttempt(a, q, ins);
    assert ins == [u] + ins[1..];
    var p, line := a + q, Subst(a + q, v);
    var r := Match(line, p, map[]);
    if r.0 {
      MatchIsSound(line, p, map[]);
      JoinedSubst(a, q, r.1);
      LastLetter(a, Subst(a, map[]), u, ins[1..], r.1);
      assert false;
    }
  }

  /** The line that shows it. */
  lemma {:induction false} RunLine(a: string, q: string, s: set<char>, u: char, w: string) returns (v: Vars, ins: string)
    requires Plain(a) && Plain(q) && Plain(a + q) && Good(q, s) && !Closed(q, s) && VarsOf(q) * VarsOf(a) <= s
    requires w == Head(Core(q, s))
    ensures forall d :: d in VarsOf(q) - s ==> d in v && v[d] != ""
    ensures ins != "" && ins[0] == u && Fits(ins[1..], Core(q, s)) && Subst(a + q, v) == Subst(a, map[]) + ins
  {
    var pre, t := RunParts(q, s, w);
    if q[1] in VarsOf(a) {
      v, ins := RunLineBefore(a, q, Var(q[1]) + pre, w, t, s, u);
    } else {
      v, ins := RunLineFirst(a, q, pre, w, t, s, u);
    }
  }

  /** A variable, the rest of the run, characters, and the part from the next variable on. */
  lemma {:induction false} RunParts(q: string, s: set<char>, w: string) returns (pre: string, t: string)
    requires Plain(q) && Good(q, s) && !Closed(q, s) && w == Head(Core(q, s))
    ensures Plain(pre) && Plain(t) && Plain(w) && VarsOf(w) == {} && t != "" && t[0] == '%'
    ensures Core(q, s) == w + t && q[2..] == pre + (w + t) && q == Var(q[1]) + pre + (w + t) && Plain(Var(q[1]) + pre)
    ensures q[1] in VarsOf(q)
  {
    hide VarsOf;
    OpenFacts(q, s);
    var rest, core := q[2..], Core(q, s);
    var n := CoreIsTail(rest, s);
    hide Good, Core, Absorber, Closed, VarsOf, Head;
    pre, t := rest[..n], core[|w|..];
    UsesSome(t, q[1]);
    Halves(rest, n);
    assert (Var(q[1]) + pre)[2..] == pre;
    Regroup(Var(q[1]), pre, w + t);
  }

  lemma Halves(x: string, n: nat)
    requires n <= |x|
    ensures x == x[..n] + x[n..]
  {}

  lemma UsesSome(t: string, d: char)
    requires Plain(t) && d in VarsOf(t)
    ensures t != ""
  {}

  lemma {:induction false} OpenFacts(q: string, s: set<char>)
    requires Plain(q) && Good(q, s) && !Closed(q, s)
    ensures |q| >= 2 && q[0] == '%' && Plain(q[2..]) && Good(q[2..], s) && !Absorber(q[2..], s) && IsDigit(q[1])
    ensures q == Var(q[1]) + q[2..] && Core(q, s) == Core(q[2..], s) && q[1] in VarsOf(q) && VarsOf(Core(q, s)) == VarsOf(q)
  {
    AllUsedLater(q, s);
  }

  /** The first variable of the run is used before. */
  lemma {:induction false} RunLineBefore(a: string, q: string, pre: string, w: string, t: string, s: set<char>, u: char)
    returns (v: Vars, ins: string)
    requires Plain(a) && Plain(q) && Plain(a + q) && Good(q, s) && VarsOf(q) * VarsOf(a) <= s
    requires Plain(pre) && Plain(w) && Plain(t) && Plain(w + t) && q == pre + (w + t) && VarsOf(w) == {}
    requires t != "" && t[0] == '%' && q[0] == '%' && q[1] in VarsOf(a)
    ensures forall d :: d in VarsOf(q) - s ==> d in v && v[d] != ""
    ensures ins != "" && ins[0] == u && Fits(ins[1..], w + t) && Subst(a + q, v) == Subst(a, map[]) + ins
  {
    var d := q[1];
    var a1, a2 := FirstUse(a, d);
    v := Fill(q, s, u)[d := Subst(a2, map[]) + ([u] + w)];
    assert a == a1 + (Var(d) + a2);
    forall e | e in VarsOf(a1) ensures e !in v {
      JoinedVars(a1, Var(d) + a2, e);
    }
    LineOf(a, a1, d, a2, v, [u] + w);
    JoinedSubst(a, q, v);
    RunFits(q, pre, w, t, s, v, Subst(a2, v));
    hide Subst, Fits, Plain, Good, VarsOf;
    var x, y := Subst(a2, v), Subst(q, v);
    ins := [u] + (w + (x + y));
    assert ins[1..] == w + (x + y);
    Regroup(Subst(a, map[]) + ([u] + w), x, y);
    Regroup(Subst(a, map[]), [u] + w, x + y);
    Regroup([u], w, x + y);
  }

  /** It is not used before. */
  lemma {:induction false} RunLineFirst(a: string, q: string, pre: string, w: string, t: string, s: set<char>, u: char)
    returns (v: Vars, ins: string)
    requires Plain(a) && Plain(q) && Plain(a + q) && Good(q, s) && VarsOf(q) * VarsOf(a) <= s
    requires q != "" && q[0] == '%' && q[1] !in VarsOf(a) && q[1] in VarsOf(q)
    requires Plain(pre) && Plain(w) && Plain(t) && Plain(w + t) && q[2..] == pre + (w + t) && VarsOf(w) == {}
    requires t != "" && t[0] == '%'
    ensures forall d :: d in VarsOf(q) - s ==> d in v && v[d] != ""
    ensures ins != "" && ins[0] == u && Fits(ins[1..], w + t) && Subst(a + q, v) == Subst(a, map[]) + ins
  {
    var d, q2 := q[1], q[2..];
    v := Fill(q, s, u)[d := [u] + w];
    forall e | e in VarsOf(a) ensures e !in v {}
    SubstBare(a, v);
    JoinedSubst(a, q, v);
    assert q == Var(d) + q2;
    SubstVar(d, q2, v);
    RunFits(q2, pre, w, t, s, v, "");
    hide Subst, Fits, Plain, Good, VarsOf;
    var y := Subst(q2, v);
    ins := [u] + (w + ("" + y));
    assert ins[1..] == w + ("" + y) && "" + y == y;
    Regroup([u], w, y);
  }

  lemma {:induction false} LastLetter(a: string, bare: string, u: char, tail: string, v: Vars)
    requires Plain(a) && (a == "" || (Plain(a[..|a| - 1]) && a[|a| - 1] != '%' && u != a[|a| - 1]))
    ensures Subst(a, v) + tail != bare + ([u] + tail)
  {
    var x, y := Subst(a, v), bare + [u];
    if a != "" {
      var z := Subst(a[..|a| - 1], v);
      EndsIn(a, v);
      assert x[|x| - 1] == a[|a| - 1];
    }
    assert y[|y| - 1] == u;
    hide Subst, Plain;
    CancelTail(x, y, tail);
    Regroup(bare, [u], tail);
  }

  lemma {:induction false} EndsIn(a: string, v: Vars)
    requires Plain(a) && a != "" && Plain(a[..|a| - 1]) && a[|a| - 1] != '%'
    ensures Subst(a, v) == Subst(a[..|a| - 1], v) + [a[|a| - 1]]
  {
    var b, c := a[..|a| - 1], [a[|a| - 1]];
    assert a == b + c && c[1..] == "";
    JoinedSubst(b, c, v);
  }

  lemma {:induction false} CancelTail(x: string, y: string, tail: string)
    ensures x + tail == y + tail ==> x == y
  {
    if x + tail == y + tail {
      assert x == (x + tail)[..|x|] && y == (y + tail)[..|y|];
    }
  }

  // ------------------------------------------------------------------- the exact condition

  /** A pattern that is not of the kind above misses a line: the part q of it says where. */
  lemma {:induction false} MissedLine(a: string, q: string, p: string, s: set<char>) returns (v: Vars)
    requires Plain(a) && Plain(q) && Plain(p) && p == a + q && s == Repeated(p) && !Good(q, s)
    ensures !LastEmpty(p, v) && !Match(Subst(p, v), p, map[]).0
    decreases |q|
  {
    hide Match, Search, Subst, LastEmpty, Repeated;
    if q[0] != '%' {
      var b, rest := a + [q[0]], q[1..];
      JoinedPlain(a, [q[0]]);
      assert p == b + rest;
      if Good(rest, s) {
        SharedRepeated(b, rest, p);
        assert b[..|b| - 1] == a;
        v := MissedRun(b, rest, s);
      } else {
        v := MissedLine(b, rest, p, s);
      }
    } else {
      var d, rest := q[1], q[2..];
      assert q == Var(d) + rest;
      JoinedPlain(a, Var(d));
      assert p == (a + Var(d)) + rest;
      if Good(rest, s) {
        SharedRepeated(a, q, p);
        UsedTwice(a, d, rest, p);
        v := MissedLast(a, d, rest, s);
      } else {
        v := MissedLine(a + Var(d), rest, p, s);
      }
    }
  }

  lemma {:induction false} SharedRepeated(a: string, q: string, p: string)
    requires Plain(a) && Plain(q) && Plain(p) && p == a + q
    ensures VarsOf(q) * VarsOf(a) <= Repeated(p)
  {
    forall d | d in VarsOf(q) && d in VarsOf(a) ensures d in Repeated(p) {
      JoinedVars(a, q, d);
      UsedVars(a, d);
      UsedVars(q, d);
    }
  }

  lemma {:induction false} UsedTwice(a: string, d: char, rest: string, p: string)
    requires Plain(a) && Plain(rest) && Plain(Var(d) + rest) && Plain(p) && p == a + (Var(d) + rest)
    ensures d in Repeated(p) <==> d in VarsOf(a) || d in VarsOf(rest)
  {
    assert (Var(d) + rest)[2..] == rest;
    JoinedVars(a, Var(d) + rest, d);
    UsedVars(a, d);
    UsedVars(rest, d);
  }

  /** Let s be the variables used more than once.  A pattern misses no line with some text for a
      variable at its end exactly when every run of adjacent variables has one that is used once,
      and after the last use of a variable of s one that is used once follows in the same run. */
  lemma {:induction false} CompleteButLastEmptyExactly(pat: string)
    requires Plain(pat)
    ensures CompleteButLastEmpty(pat) <==> Good(pat, Repeated(pat)) && Closed(pat, Repeated(pat))
  {
    var s := Repeated(pat);
    if !Good(pat, s) {
      assert "" + pat == pat;
      var v := MissedLine("", pat, pat, s);
    } else if !Closed(pat, s) {
      assert "" + pat == pat;
      var v := MissedRun("", pat, s);
    } else {
      forall v: Vars | !LastEmpty(pat, v) ensures Match(Subst(pat, v), pat, map[]).0 {
        MatchesExactly(Subst(pat, v), pat, s, map[]);
      }
    }
  }

  predicate EndsInVariable(pat: string)
    requires Plain(pat)
  {
    if pat == "" then false
    else if pat[0] != '%' then EndsInVariable(pat[1..])
    else pat[2..] == "" || EndsInVariable(pat[2..])
  }

  /** Only a variable at the end can be empty there; if it is not, the line is longer than the
      bare characters. */
  lemma {:induction false} LastText(pat: string, v: Vars)
    requires Plain(pat)
    ensures !EndsInVariable(pat) ==> !LastEmpty(pat, v)
    ensures EndsInVariable(pat) && !LastEmpty(pat, v) ==> |Subst(pat, v)| > |Subst(pat, map[])|
  {
    if pat == "" {
    } else if pat[0] != '%' {
      LastText(pat[1..], v);
    } else {
      LastText(pat[2..], v);
    }
  }

  /** The loop of match stops at the end of the line, so a variable at the end of the pattern
      never gets the empty text: the line of the bare characters is missed. */
  lemma {:induction false} MissedBare(pat: string)
    requires Plain(pat) && EndsInVariable(pat)
    ensures !Match(Subst(pat, map[]), pat, map[]).0
  {
    var r := Match(Subst(pat, map[]), pat, map[]);
    if r.0 {
      MatchIsSound(Subst(pat, map[]), pat, map[]);
      MatchLast(Subst(pat, map[]), pat, map[]);
      LastText(pat, r.1);
      assert false;
    }
  }

  /** The matcher finds every line a pattern stands for exactly when moreover the pattern does not
      end in a variable. */
  lemma {:induction false} CompleteExactly(pat: string)
    requires Plain(pat)
    ensures Complete(pat) <==> !EndsInVariable(pat) && Good(pat, Repeated(pat)) && Closed(pat, Repeated(pat))
  {
    CompleteButLastEmptyExactly(pat);
    if EndsInVariable(pat) {
      MissedBare(pat);
    } else {
      forall v: Vars ensures !LastEmpty(pat, v) {
        LastText(pat, v);
      }
    }
  }

  /** Patterns without repeated variables meet the condition on runs. */
  lemma {:induction false} NoRepeats(pat: string, s: set<char>)
    requires Plain(pat) && s == {} && forall d :: Occurrences(pat, d) <= 1
    ensures Good(pat, s) && Closed(pat, s)
  {
    if pat != "" {
      var rest := if pat[0] != '%' then pat[1..] else pat[2..];
      forall e ensures Occurrences(rest, e) <= 1 {
        assert Occurrences(pat, e) <= 1;
      }
      NoRepeats(rest, s);
      if pat[0] == '%' {
        assert Occurrences(pat, pat[1]) <= 1;
        UsedVars(rest, pat[1]);
      }
    }
  }

  lemma {:induction false} AddVar(d: char, rest: string, s: set<char>)
    requires IsDigit(d) && Plain(rest)
    ensures Plain(Var(d) + rest) && VarsOf(Var(d) + rest) == {d} + VarsOf(rest)
    ensures forall e :: Occurrences(Var(d) + rest, e) == (if e == d then 1 else 0) + Occurrences(rest, e)
    ensures EndsInVariable(Var(d) + rest) <==> rest == "" || EndsInVariable(rest)
    ensures Absorber(Var(d) + rest, s) <==> d !in s || Absorber(rest, s)
    ensures Good(Var(d) + rest, s) <==>
              Good(rest, s) && if d in s then d in VarsOf(rest) || Absorber(rest, s) else d !in VarsOf(rest)
  {
    assert (Var(d) + rest)[2..] == rest;
  }

  lemma {:induction false} AddLetter(c: char, rest: string, s: set<char>)
    requires c != '%' && Plain(rest)
    ensures Plain([c] + rest) && VarsOf([c] + rest) == VarsOf(rest) && !Absorber([c] + rest, s)
    ensures forall d :: Occurrences([c] + rest, d) == Occurrences(rest, d)
    ensures Good([c] + rest, s) <==> Closed(rest, s) && Good(rest, s)
    ensures EndsInVariable([c] + rest) <==> EndsInVariable(rest)
  {
    assert ([c] + rest)[1..] == rest;
  }

  /** %1%1%2; misses no line, although a variable is repeated: the matcher lets it stand for
      nothing. */
  lemma {:induction false} HarmlessRepeat(p: string)
    requires p == "%1%1%2;"
    ensures Plain(p) && '1' in Repeated(p) && Complete(p)
  {
    hide Plain, VarsOf, Occurrences, Absorber, Good, EndsInVariable;
    var t := [';'] + "";
    var r := Var('2') + t;
    var q := Var('1') + r;
    assert p == Var('1') + q;
    var s: set<char> := {'1'};
    NothingToMatch(s);
    AddLetter(';', "", s);
    AddVar('2', t, s);
    AddVar('1', r, s);
    AddVar('1', q, s);
    assert Repeated(p) == s;
    CompleteExactly(p);
  }

  lemma NothingToMatch(s: set<char>)
    ensures Plain("") && VarsOf("") == {} && Good("", s) && Closed("", s) && !Absorber("", s) && !EndsInVariable("")
    ensures forall d :: Occurrences("", d) == 0
  {}

  /** %1%1 misses more than its bare line, which is empty: it misses "aa". */
  lemma {:induction false} MissingRepeat(p: string)
    requires p == "%1%1"
    ensures Plain(p) && !CompleteButLastEmpty(p)
  {
    MatchIsIncomplete();
    var v: Vars, q := map['1' := "a"], p[2..];
    assert q == "%1" && q[2..] == "" && Plain(q);
    assert !LastEmpty(q, v) && !LastEmpty(p, v) && Subst(p, v) == "aa";
  }

  /** a%1 repeats nothing, but ends in a variable: it stands for "a", which is missed, and misses
      no other line. */
  lemma {:induction false} MissingTail(p: string)
    requires p == "a%1"
    ensures Plain(p) && CompleteButLastEmpty(p)
    ensures Subst(p, map['1' := ""]) == "a" && !Match("a", p, map[]).0
    ensures forall v: Vars :: Subst(p, v) != "a" ==> Match(Subst(p, v), p, map[]).0
  {
    var q := Var('1') + "";
    assert p == ['a'] + q && p[1..] == q && q[2..] == "";
    NothingToMatch({});
    AddVar('1', "", {});
    AddLetter('a', q, {});
    NoRepeats(p, {});
    assert Repeated(p) == {};
    CompleteButLastEmptyExactly(p);
    MissedBare(p);
    SubstBare(p, map['1' := ""]);
    forall v: Vars | Subst(p, v) != "a" ensures Match(Subst(p, v), p, map[]).0 {
      assert Subst(q, v) == (if '1' in v then v['1'] else "") + Subst("", v);
      assert !LastEmpty(q, v);
    }
  }
}
