/**
  The pattern matcher of copt.c for patterns of literal characters and the variables %0 to %9.
  Matching tries to match the rest of the pattern at every place; such attempts bind
  variables too, even when they fail.
 */
module Copt {
  /** vars: the text bound to each variable digit; unbound variables are absent. */
  type Vars = map<char, string>

  predicate IsDigit(c: char) {
    '0' <= c <= '9'
  }

  lemma TheDigits(c: char)
    ensures IsDigit(c) <==> c in "0123456789"
  {
    assert "0123456789"[0] == '0' && "0123456789"[9] == '9';
  }

  /** Every percent sign is followed by a digit. */
  predicate Plain(pat: string) {
    if pat == "" then true
    else if pat[0] != '%' then Plain(pat[1..])
    else |pat| >= 2 && IsDigit(pat[1]) && Plain(pat[2..])
  }

  /** subst: the pattern with its variables replaced; an unbound one stands for nothing. */
  function Subst(pat: string, vars: Vars): string
    requires Plain(pat)
  {
    if pat == "" then ""
    else if pat[0] != '%' then [pat[0]] + Subst(pat[1..], vars)
    else (if pat[1] in vars then vars[pat[1]] else "") + Subst(pat[2..], vars)
  }

  /** match: whether it succeeds, and the bindings it leaves behind either way. */
  function Match(ins: string, pat: string, vars: Vars): (r: (bool, Vars))
    requires Plain(pat)
    decreases |pat|, 0
  {
    if ins == "" || pat == "" then (ins == pat, vars)
    else if pat[0] != '%' then
      if pat[0] != ins[0] then (false, vars) else Match(ins[1..], pat[1..], vars)
    else
      var found := Search(ins, pat[2..], vars);
      var text, v := ins[..found.0], found.1;
      if pat[1] !in v then Match(ins[found.0..], pat[2..], v[pat[1] := text])
      else if v[pat[1]] != text then (false, v)
      else Match(ins[found.0..], pat[2..], v)
  }

  /** The loop that gives a variable its text: the first place where the rest of the pattern
      matches, or the end of the line. */
  function Search(ins: string, rest: string, vars: Vars): (r: (nat, Vars))
    requires Plain(rest)
    ensures r.0 <= |ins|
    decreases |rest| + 1, |ins|
  {
    if ins == "" then (0, vars) else
      var tried := Match(ins, rest, vars);
      if tried.0 then (0, tried.1) else
        var later := Search(ins[1..], rest, tried.1);
        (later.0 + 1, later.1)
  }

  // ------------------------------------------------------------------- what it means

  /** Bindings are never changed, only added. */
  predicate Extends(a: Vars, b: Vars) {
    forall d :: d in a ==> d in b && b[d] == a[d]
  }

  lemma {:induction false} MatchExtends(ins: string, pat: string, vars: Vars)
    requires Plain(pat)
    ensures Extends(vars, Match(ins, pat, vars).1)
    decreases |pat|, 0
  {
    if ins != "" && pat != "" {
      if pat[0] != '%' {
        MatchExtends(ins[1..], pat[1..], vars);
      } else {
        var found := Search(ins, pat[2..], vars);
        SearchExtends(ins, pat[2..], vars);
        MatchExtends(ins[found.0..], pat[2..], found.1);
        MatchExtends(ins[found.0..], pat[2..], found.1[pat[1] := ins[..found.0]]);
      }
    }
  }

  lemma {:induction false} SearchExtends(ins: string, rest: string, vars: Vars)
    requires Plain(rest)
    ensures Extends(vars, Search(ins, rest, vars).1)
    decreases |rest| + 1, |ins|
  {
    if ins != "" {
      MatchExtends(ins, rest, vars);
      SearchExtends(ins[1..], rest, Match(ins, rest, vars).1);
    }
  }

  /** A successful match is right: the pattern with the bindings left behind is the line. */
  lemma {:induction false} MatchIsSound(ins: string, pat: string, vars: Vars)
    requires Plain(pat) && Match(ins, pat, vars).0
    ensures Subst(pat, Match(ins, pat, vars).1) == ins
    decreases |pat|
  {
    if ins != "" && pat != "" {
      if pat[0] != '%' {
        MatchIsSound(ins[1..], pat[1..], vars);
      } else {
        var found := Search(ins, pat[2..], vars);
        var text, v := ins[..found.0], found.1;
        var w := if pat[1] in v then v else v[pat[1] := text];
        assert w[pat[1]] == text;
        MatchIsSound(ins[found.0..], pat[2..], w);
        MatchExtends(ins[found.0..], pat[2..], w);
        assert ins == text + ins[found.0..];
      }
    }
  }

  /** Every variable of a matched pattern is bound, so further bindings do not change it. */
  predicate Bound(pat: string, vars: Vars)
    requires Plain(pat)
  {
    if pat == "" then true
    else if pat[0] != '%' then Bound(pat[1..], vars)
    else pat[1] in vars && Bound(pat[2..], vars)
  }

  lemma {:induction false} MatchBinds(ins: string, pat: string, vars: Vars)
    requires Plain(pat) && Match(ins, pat, vars).0
    ensures Bound(pat, Match(ins, pat, vars).1)
    decreases |pat|
  {
    if ins != "" && pat != "" {
      if pat[0] != '%' {
        MatchBinds(ins[1..], pat[1..], vars);
      } else {
        var found := Search(ins, pat[2..], vars);
        var v := found.1;
        var w := if pat[1] in v then v else v[pat[1] := ins[..found.0]];
        MatchBinds(ins[found.0..], pat[2..], w);
        MatchExtends(ins[found.0..], pat[2..], w);
      }
    }
  }

  lemma {:induction false} SubstKept(pat: string, a: Vars, b: Vars)
    requires Plain(pat) && Bound(pat, a) && Extends(a, b)
    ensures Bound(pat, b) && Subst(pat, b) == Subst(pat, a)
  {
    if pat != "" {
      if pat[0] != '%' {
        SubstKept(pat[1..], a, b);
      } else {
        SubstKept(pat[2..], a, b);
      }
    }
  }

  /** The converse fails: the matcher commits to the first place where the rest matches.
      "aa" is %1%1 with %1 = "a", but the match fails, leaving %1 bound to "aa". */
  lemma {:induction false} MatchIsIncomplete()
    ensures Plain("%1%1") && Subst("%1%1", map['1' := "a"]) == "aa"
    ensures Match("aa", "%1%1", map[]) == (false, map['1' := "aa"])
  {
    var p := "%1%1";
    assert p[2..] == "%1" && p[2..][2..] == "";
    assert Plain(p[2..]);
    assert Subst(p[2..], map['1' := "a"]) == "a" + Subst("", map['1' := "a"]);
    var s := "aa";
    assert s[1..] == "a" && s[1..][1..] == "";
    assert Match(s, "", map[]) == (false, map[]) && Match("a", "", map[]) == (false, map[]);
    assert Search("a", "", map[]) == (1, map[]);
    assert Search(s, "", map[]) == (2, map[]);
    assert s[..2] == s && s[2..] == "";
    assert Match(s, p[2..], map[]) == (true, map['1' := s]);
    assert Search(s, p[2..], map[]) == (0, map['1' := s]);
    assert s[..0] == "";
  }

  // --------------------------------------------------------------------- the program

  /** A source line; comment lines are kept apart by a flag. */
  datatype Line = Line(text: string, comment: bool)

  class Matcher {
    var vars: Vars
    var vuse: map<char, nat>
    var recurse: nat

    constructor ()
      ensures vars == map[] && recurse == 0 && forall d :: Uses(d) == 0
    {
      vars, vuse, recurse := map[], map[], 0;
    }

    function Uses(d: char): nat
      reads this
    {
      if d in vuse then vuse[d] else 0
    }

    /** match.  Only the outermost call counts the uses of variables. */
    method MatchLine(ins: string, pat: string) returns (ok: bool)
      requires Plain(pat)
      modifies this
      ensures (ok, vars) == Match(ins, pat, old(vars)) && recurse == old(recurse)
      ensures old(recurse) > 0 ==> vuse == old(vuse)
      ensures ok && old(recurse) == 0 ==> forall d :: Uses(d) == old(Uses(d)) + Occurrences(pat, d)
      decreases |pat|
    {
      hide Match, Search, Plain, Occurrences;
      recurse := recurse + 1;
      var i: nat, j: nat := 0, 0;
      assert ins[0..] == ins && pat[0..] == pat;
      while i < |ins| && j < |pat|
        invariant i <= |ins| && j <= |pat| && Plain(pat[j..]) && recurse == old(recurse) + 1
        invariant Match(ins, pat, old(vars)) == Match(ins[i..], pat[j..], vars)
        invariant old(recurse) > 0 ==> vuse == old(vuse)
        invariant old(recurse) == 0 ==>
                    forall d :: Uses(d) + Occurrences(pat[j..], d) == old(Uses(d)) + Occurrences(pat, d)
        decreases |pat| - j
      {
        ghost var now, left := ins[i..], pat[j..];
        if pat[j] != '%' {
          LiteralStep(now, left, vars);
          assert left[1..] == pat[j + 1..] && now[1..] == ins[i + 1..];
          if pat[j] != ins[i] {
            recurse := recurse - 1;
            return false;
          }
          i, j := i + 1, j + 1;
        } else {
          VariableStep(now, left, vars);
          assert left[2..] == pat[j + 2..];
          var d := pat[j + 1];
          j := j + 2;
          var k := FindPlace(ins[i..], pat[j..]);
          var text := ins[i..][..k];
          assert now[k..] == ins[i + k..];
          i := i + k;
          if d !in vars {
            vars := vars[d := text];
          } else if vars[d] != text {
            recurse := recurse - 1;
            return false;
          }
          if recurse == 1 {
            vuse := vuse[d := Uses(d) + 1];
          }
        }
      }
      LastStep(ins[i..], pat[j..], vars);
      ok := i == |ins| && j == |pat|;
      recurse := recurse - 1;
    }

    /** The search loop of match for a variable's text. */
    method FindPlace(ins: string, rest: string) returns (k: nat)
      requires Plain(rest) && recurse > 0
      modifies this
      ensures (k, vars) == Search(ins, rest, old(vars)) && k <= |ins| && recurse == old(recurse) && vuse == old(vuse)
      decreases |rest| + 1
    {
      k := 0;
      while k < |ins|
        invariant k <= |ins| && recurse == old(recurse) && vuse == old(vuse)
        invariant var r := Search(ins[k..], rest, vars); Search(ins, rest, old(vars)) == (k + r.0, r.1)
      {
        ghost var here := ins[k..];
        var ok := MatchLine(ins[k..], rest);
        if ok {
          return k;
        }
        assert here[1..] == ins[k + 1..];
        k := k + 1;
      }
    }

    /** The matching loop of optline for one rule: the rule's old lines against the source from
        line `start`.  It goes on until all have matched, the source ends or a line that is no
        comment does not match; only comments are passed over.  If all match, subst of each old
        line gives the line it matched, although other attempts have bound variables in between. */
    method MatchRule(lines: seq<Line>, start: nat, pats: seq<string>)
      returns (p: nat, end: nat, ghost at: seq<nat>, ghost run: seq<Before>)
      requires start <= |lines| && recurse == 0 && AllPlain(pats)
      modifies this
      ensures p <= |pats| && start <= end <= |lines| && |at| == p && recurse == 0
      ensures Ascending(at, start, end) && forall k :: 0 <= k < p ==> Matched(pats[k], lines, at[k], vars)
      ensures IsRun(lines, start, pats, run) && |run| == end - start + 1 && run[end - start].p == p
      ensures forall m :: start <= m < end ==> (m !in at <==> PassedOver(lines, start, pats, run, m))
      ensures p < |pats| && end < |lines| ==>
                !lines[end].comment && !Match(lines[end].text, pats[p], run[end - start].vars).0
      ensures p == |pats| <==> Applies(lines, start, pats)
    {
      hide Match, Plain, Bound, Subst, IsRun, Hit, Tried, Turn, Matched;
      vars, vuse := map[], map[];
      end, p, at, run := start, 0, [], [Before(0, map[])];
      RunStarts(lines, start, pats);
      while end < |lines| && p < |pats|
        invariant p <= |pats| && start <= end <= |lines| && |at| == p && recurse == 0
        invariant Ascending(at, start, end) && forall k :: 0 <= k < p ==> Matched(pats[k], lines, at[k], vars)
        invariant IsRun(lines, start, pats, run) && |run| == end - start + 1 && run[end - start] == Before(p, vars)
        invariant forall m :: start <= m < end ==>
                    (m !in at <==> PassedOver(lines, start, pats, run, m))
      {
        ghost var v := vars;
        var hit := false;
        if !lines[end].comment || SameFirst(lines[end].text, pats[p]) {
          hit := MatchLine(lines[end].text, pats[p]);
          MatchExtends(lines[end].text, pats[p], v);
          StillMatched(pats, lines, at, v, vars);
        }
        HitIs(lines[end], pats[p], v);
        if !lines[end].comment && !hit {
          RunStops(lines, start, pats, run);
          return;
        }
        ghost var p0, at0, run0 := p, at, run;
        if hit {
          MatchedNow(lines, end, pats[p], v);
          at := at + [end];
          p := p + 1;
        }
        run := run + [Before(p, vars)];
        RunGoesOn(lines, start, pats, run0, Before(p, vars));
        PassedStill(lines, start, pats, run0, run, at0, at, hit);
        end := end + 1;
      }
      if p < |pats| {
        RunStops(lines, start, pats, run);
      }
      RunApplies(lines, start, pats, run);
    }
  }

  predicate AllPlain(pats: seq<string>) {
    forall k :: 0 <= k < |pats| ==> Plain(pats[k])
  }

  // ------------------------------------------------------- how far a rule gets

  /** Before a line: the old lines matched so far, and the bindings. */
  datatype Before = Before(p: nat, vars: Vars)

  /** Whether the line is given to match at all: a comment only if its first character is the
      pattern's. */
  predicate Tried(line: Line, pat: string) {
    !line.comment || SameFirst(line.text, pat)
  }

  predicate Hit(line: Line, pat: string, vars: Vars)
    requires Plain(pat)
  {
    Tried(line, pat) && Match(line.text, pat, vars).0
  }

  /** One line of the source goes by: it is hit, or it is a comment. */
  predicate Turn(line: Line, pats: seq<string>, a: Before, b: Before)
    requires AllPlain(pats)
  {
    && a.p < |pats| && (line.comment || Hit(line, pats[a.p], a.vars))
    && b.p == a.p + (if Hit(line, pats[a.p], a.vars) then 1 else 0)
    && b.vars == if Tried(line, pats[a.p]) then Match(line.text, pats[a.p], a.vars).1 else a.vars
  }

  /** The rule gets past |run| - 1 lines from `start` on. */
  predicate IsRun(lines: seq<Line>, start: nat, pats: seq<string>, run: seq<Before>)
    requires AllPlain(pats)
  {
    && |run| >= 1 && start + |run| - 1 <= |lines| && run[0] == Before(0, map[])
    && forall m :: 0 <= m < |run| - 1 ==> Turn(lines[start + m], pats, run[m], run[m + 1])
  }

  /** All old lines of the rule match in turn, comments that are not hit passed over. */
  ghost predicate Applies(lines: seq<Line>, start: nat, pats: seq<string>)
    requires AllPlain(pats)
  {
    exists run: seq<Before> :: IsRun(lines, start, pats, run) && run[|run| - 1].p == |pats|
  }

  /** Line m of the run was a comment that is not hit. */
  predicate PassedOver(lines: seq<Line>, start: nat, pats: seq<string>, run: seq<Before>, m: nat)
    requires AllPlain(pats)
  {
    && start <= m < start + |run| && m < |lines| && run[m - start].p < |pats|
    && lines[m].comment && !Hit(lines[m], pats[run[m - start].p], run[m - start].vars)
  }

  lemma RunStarts(lines: seq<Line>, start: nat, pats: seq<string>)
    requires AllPlain(pats) && start <= |lines|
    ensures IsRun(lines, start, pats, [Before(0, map[])])
  {}

  lemma HitIs(line: Line, pat: string, vars: Vars)
    requires Plain(pat)
    ensures Hit(line, pat, vars) <==> Tried(line, pat) && Match(line.text, pat, vars).0
    ensures Tried(line, pat) <==> !line.comment || SameFirst(line.text, pat)
  {}

  lemma {:induction false} RunGoesOn(lines: seq<Line>, start: nat, pats: seq<string>, run: seq<Before>, b: Before)
    requires AllPlain(pats) && IsRun(lines, start, pats, run) && start + |run| <= |lines|
    requires run[|run| - 1].p < |pats|
    requires var a, line := run[|run| - 1], lines[start + |run| - 1];
             && (line.comment || Hit(line, pats[a.p], a.vars))
             && b.p == a.p + (if Hit(line, pats[a.p], a.vars) then 1 else 0)
             && b.vars == if Tried(line, pats[a.p]) then Match(line.text, pats[a.p], a.vars).1 else a.vars
    ensures IsRun(lines, start, pats, run + [b])
  {}

  /** There is one run only, as far as it goes. */
  lemma {:induction false} RunsAgree(lines: seq<Line>, start: nat, pats: seq<string>, a: seq<Before>, b: seq<Before>, m: nat)
    requires AllPlain(pats) && IsRun(lines, start, pats, a) && IsRun(lines, start, pats, b) && m < |a| && m < |b|
    ensures a[m] == b[m]
  {
    if m > 0 {
      RunsAgree(lines, start, pats, a, b, m - 1);
      assert Turn(lines[start + m - 1], pats, a[m - 1], a[m]) && Turn(lines[start + m - 1], pats, b[m - 1], b[m]);
    }
  }

  lemma {:induction false} RunGrows(lines: seq<Line>, start: nat, pats: seq<string>, run: seq<Before>, m: nat)
    requires AllPlain(pats) && IsRun(lines, start, pats, run) && m < |run|
    ensures run[m].p <= run[|run| - 1].p <= |pats|
    ensures m < |run| - 1 ==> run[m].p < |pats|
    decreases |run| - m
  {
    assert m > 0 ==> Turn(lines[start + m - 1], pats, run[m - 1], run[m]);
    if m < |run| - 1 {
      assert Turn(lines[start + m], pats, run[m], run[m + 1]);
      RunGrows(lines, start, pats, run, m + 1);
    }
  }

  lemma {:induction false} StopsAt(lines: seq<Line>, start: nat, pats: seq<string>, run: seq<Before>, m: nat)
    requires AllPlain(pats) && IsRun(lines, start, pats, run) && m < |run| && run[m].p < |pats|
    requires start + m < |lines| ==>
               !lines[start + m].comment && !Hit(lines[start + m], pats[run[m].p], run[m].vars)
    ensures m == |run| - 1
  {
    assert m < |run| - 1 ==> Turn(lines[start + m], pats, run[m], run[m + 1]);
  }

  /** A run that stands before a line it cannot pass, or at the end of the source, with old lines
      left over: no run gets further. */
  lemma {:induction false} RunStops(lines: seq<Line>, start: nat, pats: seq<string>, run: seq<Before>)
    requires AllPlain(pats) && IsRun(lines, start, pats, run) && run[|run| - 1].p < |pats|
    requires start + |run| - 1 < |lines| ==>
               !lines[start + |run| - 1].comment
               && !Hit(lines[start + |run| - 1], pats[run[|run| - 1].p], run[|run| - 1].vars)
    ensures !Applies(lines, start, pats)
  {
    forall r: seq<Before> | IsRun(lines, start, pats, r) ensures r[|r| - 1].p < |pats| {
      var m := if |r| < |run| then |r| - 1 else |run| - 1;
      RunsAgree(lines, start, pats, run, r, m);
      RunGrows(lines, start, pats, run, m);
      if m == |run| - 1 {
        StopsAt(lines, start, pats, r, m);
      }
    }
  }

  lemma RunApplies(lines: seq<Line>, start: nat, pats: seq<string>, run: seq<Before>)
    requires AllPlain(pats) && IsRun(lines, start, pats, run)
    ensures run[|run| - 1].p == |pats| ==> Applies(lines, start, pats)
  {}

  lemma {:induction false} PassedStill(lines: seq<Line>, start: nat, pats: seq<string>, a: seq<Before>, b: seq<Before>,
                                       atA: seq<nat>, atB: seq<nat>, hit: bool)
    requires AllPlain(pats) && IsRun(lines, start, pats, a) && IsRun(lines, start, pats, b)
    requires |b| == |a| + 1 && b[..|a|] == a && (hit <==> b[|a|].p > a[|a| - 1].p)
    requires atB == if hit then atA + [start + |a| - 1] else atA
    requires forall k :: 0 <= k < |atA| ==> atA[k] < start + |a| - 1
    requires forall m :: start <= m < start + |a| - 1 ==> (m !in atA <==> PassedOver(lines, start, pats, a, m))
    ensures forall m :: start <= m < start + |b| - 1 ==> (m !in atB <==> PassedOver(lines, start, pats, b, m))
  {
    hide Hit;
    forall m | start <= m < start + |b| - 1 ensures m !in atB <==> PassedOver(lines, start, pats, b, m) {
      assert b[m - start] == a[m - start];
      if m == start + |a| - 1 {
        assert Turn(lines[m], pats, b[|a| - 1], b[|a|]);
        assert m !in atA;
      } else {
        assert m in atB <==> m in atA;
      }
    }
  }

  lemma {:induction false} MatchedNow(lines: seq<Line>, m: nat, pat: string, vars: Vars)
    requires m < |lines| && Plain(pat) && Match(lines[m].text, pat, vars).0
    ensures Matched(pat, lines, m, Match(lines[m].text, pat, vars).1)
  {
    MatchIsSound(lines[m].text, pat, vars);
    MatchBinds(lines[m].text, pat, vars);
  }

  /** text[0] of both strings is the same character, or both are empty. */
  predicate SameFirst(a: string, b: string) {
    if a == "" || b == "" then a == b else a[0] == b[0]
  }

  lemma FirstDecides(c: char, a: string, d: char, b: string)
    ensures SameFirst([c] + a, [d] + b) <==> c == d
    ensures SameFirst("", "") && !SameFirst([c] + a, "") && !SameFirst("", [d] + b)
  {}

  predicate Ascending(at: seq<nat>, lo: nat, hi: nat) {
    && (forall k :: 0 <= k < |at| ==> lo <= at[k] < hi)
    && forall j, k :: 0 <= j < k < |at| ==> at[j] < at[k]
  }

  /** The pattern with its variables replaced is this line. */
  predicate Matched(pat: string, lines: seq<Line>, m: nat, vars: Vars) {
    Plain(pat) && m < |lines| && Bound(pat, vars) && Subst(pat, vars) == lines[m].text
  }

  lemma {:induction false} StillMatched(pats: seq<string>, lines: seq<Line>, at: seq<nat>, a: Vars, b: Vars)
    requires |at| <= |pats| && Extends(a, b) && forall k :: 0 <= k < |at| ==> Matched(pats[k], lines, at[k], a)
    ensures forall k :: 0 <= k < |at| ==> Matched(pats[k], lines, at[k], b)
  {
    forall k | 0 <= k < |at| ensures Matched(pats[k], lines, at[k], b) {
      SubstKept(pats[k], a, b);
    }
  }

  lemma {:induction false} LiteralStep(ins: string, pat: string, vars: Vars)
    requires Plain(pat) && ins != "" && pat != "" && pat[0] != '%'
    ensures Plain(pat[1..]) && forall d :: Occurrences(pat, d) == Occurrences(pat[1..], d)
    ensures Match(ins, pat, vars) == if pat[0] != ins[0] then (false, vars) else Match(ins[1..], pat[1..], vars)
  {}

  lemma {:induction false} VariableStep(ins: string, pat: string, vars: Vars)
    requires Plain(pat) && ins != "" && pat != "" && pat[0] == '%'
    ensures |pat| >= 2 && Plain(pat[2..])
    ensures forall d :: Occurrences(pat, d) == (if pat[1] == d then 1 else 0) + Occurrences(pat[2..], d)
    ensures var found := Search(ins, pat[2..], vars);
            var text, v := ins[..found.0], found.1;
            Match(ins, pat, vars)
            == if pat[1] !in v then Match(ins[found.0..], pat[2..], v[pat[1] := text])
               else if v[pat[1]] != text then (false, v)
               else Match(ins[found.0..], pat[2..], v)
  {}

  lemma {:induction false} LastStep(ins: string, pat: string, vars: Vars)
    requires Plain(pat) && (ins == "" || pat == "")
    ensures Match(ins, pat, vars) == (ins == pat, vars)
    ensures pat == "" ==> forall d :: Occurrences(pat, d) == 0
  {}

  function Occurrences(pat: string, d: char): nat
    requires Plain(pat)
  {
    if pat == "" then 0
    else if pat[0] != '%' then Occurrences(pat[1..], d)
    else (if pat[1] == d then 1 else 0) + Occurrences(pat[2..], d)
  }
}
