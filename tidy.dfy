/**
 * `tidy!`: the description of every step is cleaned (parenthetical asides, a trailing
 * ` in "Word"`, the "User account for ..." control name) and then the phrase
 * "User left click" is reworded according to how many steps in a row have used it.
 * Here the rewriting is stated on the list of descriptions; the analyser applies it
 * to its steps in place.
 */
module Tidy {
  import opened Wrappers
  import opened Text
  import opened Report

  const Click := "User left click"
  const ClickOn := "User left click on"

  // ---------------------------------------------------------------------------
  // The three cleaning substitutions

  /** `\s*\([^\)]+\)\s*` matching at `p`: white space, `(`, at least one character other
      than `)`, the first `)`, and the white space after it. */
  function AsideAt(s: string, p: nat): (r: Option<nat>)
    ensures r.Some? ==> p < r.value <= |s|
  {
    if p < |s| then
      var b := p + LeadingSpace(s[p..]);
      if b + 1 < |s| && s[b] == '(' then
        match IndexOf(s, ")", b + 1)
        case None => None
        case Some(c) =>
          if c > b + 1 then Some(c + 1 + LeadingSpace(s[c + 1..])) else None
      else None
    else None
  }

  /** The `gsub` of that pattern with the empty string, on the text from `from` on. */
  function StripAsidesFrom(s: string, from: nat): (r: string)
    requires from <= |s|
    decreases |s| - from
  {
    match Leftmost(AsideAt, s, from)
    case None => s[from..]
    case Some((p, e)) => s[from..p] + StripAsidesFrom(s, e)
  }

  function StripAsides(s: string): string {
    StripAsidesFrom(s, 0)
  }

  /** A text with no `(` has no aside to strip. */
  lemma StripAsidesNone(s: string, from: nat)
    requires from <= |s| && '(' !in s[from..]
    ensures StripAsidesFrom(s, from) == s[from..]
  {
    forall j | from <= j <= |s| ensures AsideAt(s, j).None? {
      if j < |s| {
        var b := j + LeadingSpace(s[j..]);
        if b + 1 < |s| {
          assert s[b] == s[from..][b - from];
        }
      }
    }
  }

  /** An aside between a word and the rest of the text is removed together with the
      white space around it, and nothing else changes. */
  lemma AsideStripped(t: string, x: string, u: string)
    requires '(' !in t && (t == [] || !IsSpace(t[|t| - 1]))
    requires x != [] && ')' !in x
    requires '(' !in u && (u == [] || !IsSpace(u[0]))
    ensures StripAsides(t + " (" + x + ")" + u) == t + u
  {
    var s := t + " (" + x + ")" + u;
    var p := |t|;
    var e := p + 3 + |x|;
    AsideMatch(t, x, u);
    NoAsideBeforeAll(t, x, u);
    LeftmostAt(AsideAt, s, 0, p);
    assert StripAsidesFrom(s, 0) == s[0..p] + StripAsidesFrom(s, e);
    assert s[e..] == u;
    StripAsidesNone(s, e);
    assert s[0..p] == t;
  }

  lemma NoAsideBeforeAll(t: string, x: string, u: string)
    requires '(' !in t && (t == [] || !IsSpace(t[|t| - 1]))
    ensures forall j :: 0 <= j < |t| ==> AsideAt(t + " (" + x + ")" + u, j).None?
  {
    var s := t + " (" + x + ")" + u;
    assert s == t + " (" + (x + ")" + u);
    forall j | 0 <= j < |t| ensures AsideAt(s, j).None? {
      NoAsideBefore(t, x + ")" + u, j);
    }
  }

  lemma AsideMatch(t: string, x: string, u: string)
    requires x != [] && ')' !in x
    requires u == [] || !IsSpace(u[0])
    ensures AsideAt(t + " (" + x + ")" + u, |t|) == Some(|t| + 3 + |x|)
  {
    var s := t + " (" + x + ")" + u;
    var p := |t|;
    var c := p + 2 + |x|;
    assert s[p..][1..] == "(" + x + ")" + u;
    assert LeadingSpace(s[p..]) == 1;
    forall j | p + 2 <= j < c ensures !StartsAt(s, j, ")") {
      assert s[j] == x[j - p - 2];
    }
    assert StartsAt(s, c, ")");
    assert s[c + 1..] == u;
  }

  lemma NoAsideBefore(t: string, v: string, j: nat)
    requires '(' !in t && j < |t| && !IsSpace(t[|t| - 1])
    ensures AsideAt(t + " (" + v, j).None?
  {
    var s := t + " (" + v;
    var p := |t|;
    var b := j + LeadingSpace(s[j..]);
    assert b < p by {
      assert !IsSpace(s[j..][p - 1 - j]);
    }
    assert s[b] == t[b];
  }

  /** Number of leading characters matched by `\w*`. */
  function LeadingWord(s: string): (k: nat)
    ensures k <= |s|
    ensures forall j :: 0 <= j < k ==> IsWordChar(s[j])
    ensures k < |s| ==> !IsWordChar(s[k])
  {
    if s != [] && IsWordChar(s[0]) then 1 + LeadingWord(s[1..]) else 0
  }

  /** ` in "\w+"$` matching at `p`: the quoted word must end the line. */
  function InWordAt(s: string, p: nat): (r: Option<nat>)
    ensures r.Some? ==> p < r.value <= |s|
  {
    if StartsAt(s, p, " in \"") then
      var w := LeadingWord(s[p + 5..]);
      var q := p + 5 + w;
      if w > 0 && q < |s| && s[q] == '"' && (q + 1 == |s| || s[q + 1] == '\n') then Some(q + 1) else None
    else None
  }

  /** `"User account for [^"]+"` matching at `p`. */
  function AccountAt(s: string, p: nat): (r: Option<nat>)
    ensures r.Some? ==> p < r.value <= |s|
  {
    if StartsAt(s, p, "\"User account for ") then
      var b := p + 18;
      var c := b + FirstIndex(s[b..], '"');
      if c > b && c < |s| then Some(c + 1) else None
    else None
  }

  /** `sub(/ in "\w+"$/, '')`. */
  function DropInWord(s: string): (r: string)
    ensures |r| <= |s|
  {
    match Leftmost(InWordAt, s, 0)
    case None => s
    case Some((p, e)) => s[..p] + s[e..]
  }

  /** `sub(/"User account for [^"]+"/, 'the User account icon.')`. */
  function NameAccount(s: string): string {
    match Leftmost(AccountAt, s, 0)
    case None => s
    case Some((p, e)) => s[..p] + "the User account icon." + s[e..]
  }

  /** The description after the three cleaning substitutions, in the order applied. */
  function Cleaned(d: string): string {
    NameAccount(DropInWord(StripAsides(d)))
  }

  // ---------------------------------------------------------------------------
  // The verbosity levels, on cleaned descriptions

  /** The rewording of a cleaned description at a verbosity level. */
  function Reword(c: string, level: nat): string {
    if !Contains(c, Click) then c
    else if level == 0 then ReplaceFirst(c, Click, "Using the mouse, left click")
    else if level == 1 then ReplaceFirst(c, Click, "Left click")
    else if level == 2 then ReplaceFirst(c, Click, "Click")
    else ReplaceFirst(c, ClickOn, "Select")
  }

  /** The level after a description: one more (up to 3) after a click, else back to 0. */
  function NextLevel(c: string, level: nat): (r: nat)
    ensures r <= 3
  {
    if Contains(c, Click) then (if level < 3 then level + 1 else 3) else 0
  }

  /** `verbose_level` after the cleaned descriptions `cs`, taken first to last from `level`. */
  function LevelFrom(level: nat, cs: seq<string>): nat
    decreases |cs|
  {
    if cs == [] then level else LevelFrom(NextLevel(cs[0], level), cs[1..])
  }

  /** How many descriptions at the end of the list, in a row, mention a click. */
  function ClickRun(cs: seq<string>): (r: nat)
    ensures r <= |cs|
  {
    if cs != [] && Contains(cs[|cs| - 1], Click) then 1 + ClickRun(cs[..|cs| - 1]) else 0
  }

  function Min(a: nat, b: nat): nat {
    if a <= b then a else b
  }

  lemma {:induction false} LevelFromSnoc(level: nat, cs: seq<string>, c: string)
    ensures LevelFrom(level, cs + [c]) == NextLevel(c, LevelFrom(level, cs))
    decreases |cs|
  {
    if cs != [] {
      assert (cs + [c])[1..] == cs[1..] + [c];
      LevelFromSnoc(NextLevel(cs[0], level), cs[1..], c);
    } else {
      assert ([] + [c])[1..] == [];
    }
  }

  /** The level is the length of the current run of clicking steps, capped at 3. */
  lemma {:induction false} LevelIsRun(cs: seq<string>)
    ensures LevelFrom(0, cs) == Min(3, ClickRun(cs))
    decreases |cs|
  {
    if cs != [] {
      var init := cs[..|cs| - 1];
      LevelIsRun(init);
      assert cs == init + [cs[|cs| - 1]];
      LevelFromSnoc(0, init, cs[|cs| - 1]);
    }
  }

  /** A description that does not mention a click resets the level. */
  lemma NoClickResets(cs: seq<string>, i: nat)
    requires i < |cs| && !Contains(cs[i], Click)
    ensures LevelFrom(0, cs[..i + 1]) == 0
  {
    assert cs[..i + 1] == cs[..i] + [cs[i]];
    LevelFromSnoc(0, cs[..i], cs[i]);
  }

  /** Replacing the first occurrence of a prefix replaces the prefix. */
  lemma ReplaceFirstPrefix(p: string, u: string, rep: string)
    ensures ReplaceFirst(p + u, p, rep) == rep + u
  {
    assert StartsAt(p + u, 0, p);
    assert IndexOf(p + u, p, 0) == Some(0);
    assert (p + u)[|p|..] == u;
  }

  /** The four wordings of a description that starts "User left click on". */
  lemma RewordClickOn(u: string)
    ensures Reword(ClickOn + u, 0) == "Using the mouse, left click on" + u
    ensures Reword(ClickOn + u, 1) == "Left click on" + u
    ensures Reword(ClickOn + u, 2) == "Click on" + u
    ensures Reword(ClickOn + u, 3) == "Select" + u
  {
    var c := ClickOn + u;
    assert c == Click + (" on" + u);
    assert StartsAt(c, 0, Click);
    ReplaceFirstPrefix(Click, " on" + u, "Using the mouse, left click");
    ReplaceFirstPrefix(Click, " on" + u, "Left click");
    ReplaceFirstPrefix(Click, " on" + u, "Click");
    ReplaceFirstPrefix(ClickOn, u, "Select");
  }

  // ---------------------------------------------------------------------------
  // The steps after `tidy!`

  /** The cleaned description of every step; a comment step has none. */
  function CleanedDescs(steps: seq<Step>): (cs: seq<string>)
    ensures |cs| == |steps|
  {
    seq(|steps|, k requires 0 <= k < |steps| =>
      if steps[k].narrative.Structured? then Cleaned(steps[k].narrative.desc) else "")
  }

  /** The step with its description replaced, and nothing else changed. */
  function Redescribed(x: Step, d: string): (r: Step)
    requires x.narrative.Structured?
    ensures r.narrative.Structured? && r.narrative.desc == d
    ensures r.(narrative := x.narrative) == x
  {
    x.(narrative := x.narrative.(desc := d))
  }

  /** `tidy!` from a given level on, given the cleaned descriptions: each step in turn is
      reworded at the current level, which then moves on; at a comment step, which has no
      description, `tidy!` raises and the steps from there on keep theirs. */
  function TidyRun(steps: seq<Step>, cs: seq<string>, level: nat): (r: seq<Step>)
    requires |cs| == |steps|
    ensures |r| == |steps|
  {
    if steps == [] || steps[0].narrative.Comment? then steps
    else [Redescribed(steps[0], Reword(cs[0], level))] + TidyRun(steps[1..], cs[1..], NextLevel(cs[0], level))
  }

  /** The steps after `tidy!`, which starts at level 0. */
  function Tidied(steps: seq<Step>): (r: seq<Step>)
    ensures |r| == |steps|
  {
    TidyRun(steps, CleanedDescs(steps), 0)
  }

  /** Step `j` of a run is reworded at the level its predecessors lead to, and every step
      from the first comment on is unchanged. */
  lemma {:induction false} TidyRunAt(steps: seq<Step>, cs: seq<string>, level: nat, j: nat)
    requires |cs| == |steps| && j < |steps|
    ensures j < FirstComment(steps) ==>
      TidyRun(steps, cs, level)[j] == Redescribed(steps[j], Reword(cs[j], LevelFrom(level, cs[..j])))
    ensures j >= FirstComment(steps) ==> TidyRun(steps, cs, level)[j] == steps[j]
    decreases j
  {
    if steps[0].narrative.Structured? && j > 0 {
      TidyRunAt(steps[1..], cs[1..], NextLevel(cs[0], level), j - 1);
      RunTail(steps, cs, level, j);
    }
  }

  lemma RunTail(steps: seq<Step>, cs: seq<string>, level: nat, j: nat)
    requires |cs| == |steps| && 0 < j < |steps| && steps[0].narrative.Structured?
    ensures TidyRun(steps, cs, level)[j] == TidyRun(steps[1..], cs[1..], NextLevel(cs[0], level))[j - 1]
    ensures FirstComment(steps) == 1 + FirstComment(steps[1..])
    ensures steps[1..][j - 1] == steps[j] && cs[1..][j - 1] == cs[j]
    ensures LevelFrom(level, cs[..j]) == LevelFrom(NextLevel(cs[0], level), cs[1..][..j - 1])
  {
    assert cs[..j][1..] == cs[1..][..j - 1];
  }

  /** One step of the run, as the loop in `tidy!` takes it. */
  lemma RunStep(steps: seq<Step>, cs: seq<string>, i: nat, level: nat)
    requires |cs| == |steps| && i < |steps|
    ensures steps[i].narrative.Comment? ==> TidyRun(steps[i..], cs[i..], level) == steps[i..]
    ensures steps[i].narrative.Structured? ==>
      TidyRun(steps[i..], cs[i..], level) ==
        [Redescribed(steps[i], Reword(cs[i], level))] + TidyRun(steps[i + 1..], cs[i + 1..], NextLevel(cs[i], level))
  {
    assert steps[i..][0] == steps[i] && steps[i..][1..] == steps[i + 1..];
    assert cs[i..][0] == cs[i] && cs[i..][1..] == cs[i + 1..];
  }

  /** A step before the first comment is cleaned and then reworded at the level given by
      the run of clicking steps just before it, capped at 3: the first click of a run
      reads "Using the mouse, left click", the second "Left click", the third "Click",
      later ones "Select". Only descriptions change, and nothing from the first comment on. */
  lemma TidiedAt(steps: seq<Step>, j: nat)
    requires j < |steps|
    ensures j < FirstComment(steps) ==>
      Tidied(steps)[j] ==
        Redescribed(steps[j], Reword(Cleaned(steps[j].narrative.desc), Min(3, ClickRun(CleanedDescs(steps)[..j]))))
    ensures j >= FirstComment(steps) ==> Tidied(steps)[j] == steps[j]
    ensures Tidied(steps)[j].(narrative := steps[j].narrative) == steps[j]
  {
    var cs := CleanedDescs(steps);
    TidyRunAt(steps, cs, 0, j);
    if j < FirstComment(steps) {
      LevelIsRun(cs[..j]);
    }
  }

  /** A step whose cleaned description does not mention a click is only cleaned. */
  lemma NoClickUnchanged(steps: seq<Step>, j: nat)
    requires j < FirstComment(steps) && !Contains(Cleaned(steps[j].narrative.desc), Click)
    ensures Tidied(steps)[j] == Redescribed(steps[j], Cleaned(steps[j].narrative.desc))
  {
    TidiedAt(steps, j);
  }

  /** `tidy!` changes descriptions and nothing else about a step. */
  lemma TidiedOnlyDescs(steps: seq<Step>)
    ensures forall j :: 0 <= j < |steps| ==> Tidied(steps)[j].(narrative := steps[j].narrative) == steps[j]
  {
    forall j | 0 <= j < |steps| ensures Tidied(steps)[j].(narrative := steps[j].narrative) == steps[j] {
      TidiedAt(steps, j);
    }
  }
}
