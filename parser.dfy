/**
 * `parse_steps`: the narrative part of a Steps Recorder report. The text from
 * "Recording Session" to the last `<` on that line is cut into blocks before each
 * `Step n:` heading; the first piece (the summary) is dropped; each block is split on
 * `<br />` and its fields are read with the patterns of the original, here written
 * out as leftmost searches.
 */
module StepParser {
  import opened Wrappers
  import opened Text
  import opened Clock
  import opened Report
  import opened Screenshot

  const RecordingSession: string := "Recording Session"
  const StepWord: string := "Step "
  const UserComment: string := "User Comment: "
  const LineBreak: string := "<br />"
  const ProgramLead: string := "Program: "
  const UiLead: string := "UI Elements: "

  // ---------------------------------------------------------------------------
  // s[/Recording Session.*(?=<)/]

  /** Index of the line feed that ends the line containing `from`, or `|s|`. */
  function LineEnd(s: string, from: nat): (e: nat)
    requires from <= |s|
    ensures from <= e <= |s| && (e < |s| ==> s[e] == '\n')
    ensures forall k :: from <= k < e ==> s[k] != '\n'
  {
    from + FirstIndex(s[from..], '\n')
  }

  /** The last `<` in `s[lo..hi]`. */
  function LastAngle(s: string, lo: nat, hi: nat): (r: Option<nat>)
    requires lo <= hi <= |s|
    ensures r.Some? ==> lo <= r.value < hi && s[r.value] == '<'
    ensures r.Some? ==> forall k :: r.value < k < hi ==> s[k] != '<'
    ensures r.None? ==> forall k :: lo <= k < hi ==> s[k] != '<'
    decreases hi - lo
  {
    if lo == hi then None
    else if s[hi - 1] == '<' then Some(hi - 1)
    else LastAngle(s, lo, hi - 1)
  }

  /** The end of the match of `Recording Session.*(?=<)` that begins at `i`: the last
      `<` on the same line, because `.*` is greedy and does not cross a line feed. */
  function SessionAt(s: string, i: nat): (r: Option<nat>)
    ensures r.Some? ==> i <= |s| && StartsAt(s, i, RecordingSession)
    ensures r.Some? ==> i + |RecordingSession| <= r.value < |s| && s[r.value] == '<'
    ensures r.Some? ==> forall k :: i <= k < r.value ==> s[k] != '\n'
    ensures r.Some? ==> forall k :: r.value < k < LineEnd(s, r.value) ==> s[k] != '<'
    ensures i <= |s| && StartsAt(s, i, RecordingSession) && r.None? ==>
      forall k :: i + |RecordingSession| <= k < LineEnd(s, i + |RecordingSession|) ==> s[k] != '<'
  {
    if i <= |s| && StartsAt(s, i, RecordingSession) then
      var b := i + |RecordingSession|;
      assert forall k :: i <= k < b ==> s[k] == RecordingSession[k - i];
      LastAngle(s, b, LineEnd(s, b))
    else None
  }

  /** The recording-session text, or `None` (the `nil` that makes `split` raise). */
  function SessionText(s: string): (r: Option<string>)
    ensures r.Some? ==> RecordingSession <= r.value && '\n' !in r.value
    ensures r.None? <==> forall i :: 0 <= i <= |s| ==> SessionAt(s, i).None?
    ensures r.Some? ==> exists i :: 0 <= i <= |s| && SessionAt(s, i).Some? &&
                          (forall j :: 0 <= j < i ==> SessionAt(s, j).None?) &&
                          r.value == s[i..SessionAt(s, i).value]
  {
    FirstSession(s);
    var m := Leftmost(SessionAt, s, 0);
    if m.None? then None
    else
      SessionSlice(s, m.value.0, m.value.1);
      Some(s[m.value.0..m.value.1])
  }

  /** What a session match spans. */
  lemma SessionSlice(s: string, i: nat, e: nat)
    requires SessionAt(s, i) == Some(e)
    ensures i <= e <= |s| && RecordingSession <= s[i..e] && '\n' !in s[i..e]
  {
    assert s[i..e][..|RecordingSession|] == s[i..i + |RecordingSession|];
    forall k | 0 <= k < |s[i..e]|
      ensures s[i..e][k] != '\n'
    {
      assert s[i..e][k] == s[i + k];
    }
  }

  /** The leftmost session match, stated without the matcher as a value. */
  lemma FirstSession(s: string)
    ensures var m := Leftmost(SessionAt, s, 0);
      && (m.None? <==> forall i :: 0 <= i <= |s| ==> SessionAt(s, i).None?)
      && (m.Some? ==> m.value.0 <= |s| && SessionAt(s, m.value.0) == Some(m.value.1))
      && (m.Some? ==> forall j :: 0 <= j < m.value.0 ==> SessionAt(s, j).None?)
  {
    var m := Leftmost(SessionAt, s, 0);
    if m.Some? {
      assert SessionAt(s, m.value.0).Some?;
    }
  }

  // ---------------------------------------------------------------------------
  // s2.split(/(?=Step \d+:)/) and raw_steps.shift

  /** A `Step n:` heading begins at `p`. */
  predicate HeadingAt(s: string, p: nat) {
    p + 5 <= |s| && StartsAt(s, p, StepWord) &&
    var k := LeadingDigits(s[p + 5..]);
    k > 0 && p + 5 + k < |s| && s[p + 5 + k] == ':'
  }

  /** The first heading at or after `from`, or `|s|`. */
  function NextHeading(s: string, from: nat): (p: nat)
    requires from <= |s|
    ensures from <= p <= |s|
    ensures p < |s| ==> HeadingAt(s, p)
    ensures forall q :: from <= q < p ==> !HeadingAt(s, q)
    decreases |s| - from
  {
    if from == |s| then |s| else if HeadingAt(s, from) then from else NextHeading(s, from + 1)
  }

  /** The pieces of `s[start..]` cut before every heading after `start`. */
  function Chunks(s: string, start: nat): (r: seq<string>)
    requires start < |s|
    ensures |r| >= 1 && r[0] == s[start..NextHeading(s, start + 1)]
    ensures Concat(r) == s[start..]
    ensures forall k :: 1 <= k < |r| ==> Block(r[k])
    ensures HeadingAt(s, start) ==> Block(r[0])
    decreases |s| - start
  {
    var p := NextHeading(s, start + 1);
    ChunkShape(s, start, p);
    var rest := if p < |s| then Chunks(s, p) else [];
    ChunksCons(s, start, p, rest);
    [s[start..p]] + rest
  }

  lemma ChunksCons(s: string, start: nat, p: nat, rest: seq<string>)
    requires start < p <= |s| && Concat(rest) == s[p..]
    ensures Concat([s[start..p]] + rest) == s[start..]
    ensures ([s[start..p]] + rest)[1..] == rest
  {
    assert ([s[start..p]] + rest)[1..] == rest;
    assert s[start..p] + s[p..] == s[start..];
  }

  /** A step block: it begins with a heading and has no other heading in it. */
  predicate Block(b: string) {
    HeadingAt(b, 0) && forall q :: 0 < q < |b| ==> !HeadingAt(b, q)
  }

  lemma ChunkShape(s: string, start: nat, p: nat)
    requires start < |s| && start < p && p == NextHeading(s, start + 1)
    ensures forall q :: 0 < q < p - start ==> !HeadingAt(s[start..p], q)
    ensures HeadingAt(s, start) ==> Block(s[start..p])
  {
    forall q | 0 < q < p - start ensures !HeadingAt(s[start..p], q) {
      if HeadingAt(s[start..p], q) {
        HeadingInSlice(s, start, p, q);
      }
    }
    if HeadingAt(s, start) {
      HeadingFits(s, start, p);
    }
  }

  /** A heading is not cut by the next one, so the block it starts begins with it. */
  lemma HeadingFits(s: string, start: nat, p: nat)
    requires start < |s| && start < p && p == NextHeading(s, start + 1)
    requires HeadingAt(s, start)
    ensures HeadingAt(s[start..p], 0)
  {
    var k := LeadingDigits(s[start + 5..]);
    forall q | start < q < start + 6 + k ensures !HeadingAt(s, q) {
      NoHeadingInsideHeading(s, start, q);
    }
    assert p >= start + 6 + k;
    HeadingKept(s, start, p);
  }

  lemma NoHeadingInsideHeading(s: string, start: nat, q: nat)
    requires HeadingAt(s, start)
    requires start < q < start + 6 + LeadingDigits(s[start + 5..])
    ensures !HeadingAt(s, q)
  {
    NoStepInsideHeading(s, start, q);
    if q + 5 <= |s| {
      assert s[q..q + 5][0] == s[q];
    }
  }

  /** A slice that keeps a whole heading begins with it. */
  lemma HeadingKept(s: string, start: nat, p: nat)
    requires HeadingAt(s, start) && p <= |s|
    requires p >= start + 6 + LeadingDigits(s[start + 5..])
    ensures HeadingAt(s[start..p], 0)
  {
    var k := LeadingDigits(s[start + 5..]);
    var b := s[start..p];
    SliceOfSlice(s, start, p, 0, 5);
    SliceDigits(s, start + 5, p, k);
    SliceOfSlice(s, start, p, 5, p - start);
    assert b[5 + k] == s[start + 5 + k];
  }

  lemma NoStepInsideHeading(s: string, start: nat, q: nat)
    requires HeadingAt(s, start)
    requires start < q < start + 6 + LeadingDigits(s[start + 5..])
    ensures s[q] != 'S'
  {
    var k := LeadingDigits(s[start + 5..]);
    if q < start + 5 {
      assert s[q] == s[start..start + 5][q - start];
    } else if q < start + 5 + k {
      assert s[q] == s[start + 5..][q - start - 5];
    }
  }

  /** The digit run of `s[i..]` followed by a non-digit is also that of `s[i..b]`. */
  lemma SliceDigits(s: string, i: nat, b: nat, k: nat)
    requires i + k < b <= |s| && LeadingDigits(s[i..]) == k
    ensures LeadingDigits(s[i..b]) == k
  {
    var u, v := s[i..], s[i..b];
    assert forall j :: 0 <= j <= k ==> u[j] == v[j];
    SameLeadingDigits(u, v, k);
  }

  lemma SameLeadingDigits(u: string, v: string, k: nat)
    requires LeadingDigits(u) == k < |u| && k < |v|
    requires forall j :: 0 <= j <= k ==> u[j] == v[j]
    ensures LeadingDigits(v) == k
  {
  }

  lemma SliceOfSlice(s: string, a: nat, b: nat, i: nat, j: nat)
    requires a <= b <= |s| && i <= j <= b - a
    ensures s[a..b][i..j] == s[a + i..a + j]
  {
    var x, y := s[a..b][i..j], s[a + i..a + j];
    assert |x| == |y|;
    forall k | 0 <= k < |x| ensures x[k] == y[k] {
      assert x[k] == s[a..b][i + k];
    }
  }

  lemma HeadingInSlice(s: string, a: nat, b: nat, q: nat)
    requires a <= b <= |s| && HeadingAt(s[a..b], q)
    ensures HeadingAt(s, a + q)
  {
    var t := s[a..b];
    var k := LeadingDigits(t[q + 5..]);
    assert t[q..q + 5] == StepWord;
    SliceOfSlice(s, a, b, q, q + 5);
    var u, v := t[q + 5..], s[a + q + 5..];
    forall j | 0 <= j <= k ensures u[j] == v[j] {
      assert u[j] == t[q + 5 + j] == s[a + q + 5 + j];
    }
    SameLeadingDigits(u, v, k);
  }

  /** `s2.split(/(?=Step \d+:)/)` followed by `shift`: the summary before the first heading
      (a heading at position 0 does not split) and the step blocks after it. */
  function SplitSteps(s: string): (r: (string, seq<string>))
    ensures r.0 + Concat(r.1) == s
    ensures forall q :: 0 < q < |r.0| ==> !HeadingAt(s, q)
    ensures forall k :: 0 <= k < |r.1| ==> Block(r.1[k])
  {
    if s == [] then ([], [])
    else
      var c := Chunks(s, 0);
      assert c == [c[0]] + c[1..];
      assert Concat(c) == c[0] + Concat(c[1..]);
      (c[0], c[1..])
  }

  // ---------------------------------------------------------------------------
  // The fields of the first line of a block

  /** `(?<=\[)[^\]]+` matching at `q`: the run of non-`]` after a `[`, ending at the next `]`. */
  function BracketAt(s: string, q: nat): (r: Option<nat>)
    ensures r.Some? ==> 1 <= q < r.value <= |s| && s[q - 1] == '['
    ensures r.Some? ==> forall j :: q <= j < r.value ==> s[j] != ']'
    ensures r.Some? ==> r.value == |s| || s[r.value] == ']'
  {
    if 1 <= q < |s| && s[q - 1] == '[' && s[q] != ']' then Some(q + FirstIndex(s[q..], ']')) else None
  }

  /** `a[0][/(?<=\[)[^\]]+/]`: the text after the leftmost `[` that is not followed by `]`,
      up to the next `]`. */
  function BracketText(s: string): (r: Option<string>)
    ensures r.None? <==> forall q :: 0 <= q <= |s| ==> BracketAt(s, q).None?
    ensures r.Some? ==> exists q :: 0 <= q <= |s| && BracketAt(s, q).Some? &&
                          (forall j :: 0 <= j < q ==> BracketAt(s, j).None?) &&
                          r.value == s[q..BracketAt(s, q).value]
  {
    FirstBracket(s);
    var m := Leftmost(BracketAt, s, 0);
    if m.None? then None else Some(s[m.value.0..m.value.1])
  }

  /** The leftmost bracket match, stated without the matcher as a value. */
  lemma FirstBracket(s: string)
    ensures var m := Leftmost(BracketAt, s, 0);
      && (m.None? <==> forall q :: 0 <= q <= |s| ==> BracketAt(s, q).None?)
      && (m.Some? ==> m.value.0 <= |s| && BracketAt(s, m.value.0) == Some(m.value.1))
      && (m.Some? ==> forall j :: 0 <= j < m.value.0 ==> BracketAt(s, j).None?)
  {
    var m := Leftmost(BracketAt, s, 0);
    if m.Some? {
      assert BracketAt(s, m.value.0).Some?;
    }
  }

  /** `keys`: the bracketed key hint with every `...` removed, split on white space;
      no keys when there is no bracket. */
  function KeysOf(line: string): (keys: seq<string>)
    ensures BracketText(line).None? ==> keys == []
    ensures forall k :: 0 <= k < |keys| ==> keys[k] != [] && forall j :: 0 <= j < |keys[k]| ==> !IsSpace(keys[k][j])
  {
    match BracketText(line)
    case None => []
    case Some(t) => Words(ReplaceAll(t, "...", ""))
  }

  /** `a[0][/User Comment: (.*)/, 1]`. */
  function CommentOf(line: string): (r: Option<string>)
    ensures r.None? <==> !Contains(line, UserComment)
    ensures r.Some? ==> exists i :: 0 <= i <= |line| && FirstAt(line, i, UserComment) && r.value == RestOfLine(line, i + |UserComment|)
  {
    IndexOfContains(line, UserComment);
    match IndexOf(line, UserComment, 0)
    case None => None
    case Some(i) =>
      assert FirstAt(line, i, UserComment);
      Some(RestOfLine(line, i + |UserComment|))
  }

  /** `(?<=Step )\d+` matching at `i + 5`: "Step " at `i` and then digits. */
  function NumberAt(s: string, i: nat): (r: Option<nat>)
    ensures r.Some? <==> i + 5 < |s| && StartsAt(s, i, StepWord) && IsDigit(s[i + 5])
    ensures r.Some? ==> i + 5 < r.value <= |s| && (r.value < |s| ==> !IsDigit(s[r.value]))
    ensures r.Some? ==> forall j :: i + 5 <= j < r.value ==> IsDigit(s[j])
  {
    if i + 5 < |s| && StartsAt(s, i, StepWord) && IsDigit(s[i + 5]) then
      Some(i + 5 + LeadingDigits(s[i + 5..]))
    else None
  }

  /** The value of the digits matched at `i`. */
  function NumberValue(s: string, i: nat): nat
    requires NumberAt(s, i).Some?
  {
    var e := NumberAt(s, i).value;
    DigitsValue(s[i + 5..e])
  }

  /** `a[0][/(?<=Step )\d+/].to_i`; `nil.to_i` is 0. */
  function StepNumberOf(line: string): (n: nat)
    ensures (forall i :: 0 <= i <= |line| ==> NumberAt(line, i).None?) ==> n == 0
    ensures (exists i :: 0 <= i <= |line| && NumberAt(line, i).Some?) ==>
              exists i :: 0 <= i <= |line| && NumberAt(line, i).Some? &&
                          (forall j :: 0 <= j < i ==> NumberAt(line, j).None?) &&
                          n == NumberValue(line, i)
  {
    FirstNumber(line);
    var m := Leftmost(NumberAt, line, 0);
    if m.None? then 0 else NumberValue(line, m.value.0)
  }

  /** The leftmost `Step n` match, stated without the matcher as a value. */
  lemma FirstNumber(line: string)
    ensures var m := Leftmost(NumberAt, line, 0);
      && (m.None? <==> forall i :: 0 <= i <= |line| ==> NumberAt(line, i).None?)
      && (m.Some? ==> m.value.0 <= |line| && NumberAt(line, m.value.0) == Some(m.value.1))
      && (m.Some? ==> forall j :: 0 <= j < m.value.0 ==> NumberAt(line, j).None?)
  {
    var m := Leftmost(NumberAt, line, 0);
    if m.Some? {
      assert NumberAt(line, m.value.0).Some?;
    }
  }

  /** `(?:Step \d+: )` matching at `i`; yields the index after it. */
  function DescAt(s: string, i: nat): (r: Option<nat>)
    ensures r.Some? ==> i + 7 < r.value <= |s| && StartsAt(s, i, StepWord) && StartsAt(s, r.value - 2, ": ")
    ensures r.Some? ==> forall j :: i + 5 <= j < r.value - 2 ==> IsDigit(s[j])
  {
    if i + 5 <= |s| && StartsAt(s, i, StepWord) then
      var k := LeadingDigits(s[i + 5..]);
      if k > 0 && StartsAt(s, i + 5 + k, ": ") then Some(i + 5 + k + 2) else None
    else None
  }

  /** `a[0][/(?:Step \d+: )(.*)/, 1]`: the rest of the line after the first "Step n: ". */
  function DescLine(line: string): (r: Option<string>)
    ensures r.None? <==> forall i :: 0 <= i <= |line| ==> DescAt(line, i).None?
    ensures r.Some? ==> exists i :: 0 <= i <= |line| && DescAt(line, i).Some? &&
                          (forall j :: 0 <= j < i ==> DescAt(line, j).None?) &&
                          r.value == RestOfLine(line, DescAt(line, i).value)
  {
    FirstDesc(line);
    var m := Leftmost(DescAt, line, 0);
    if m.None? then None else Some(RestOfLine(line, m.value.1))
  }

  /** The leftmost `Step n: ` match, stated without the matcher as a value. */
  lemma FirstDesc(line: string)
    ensures var m := Leftmost(DescAt, line, 0);
      && (m.None? <==> forall i :: 0 <= i <= |line| ==> DescAt(line, i).None?)
      && (m.Some? ==> m.value.0 <= |line| && DescAt(line, m.value.0) == Some(m.value.1))
      && (m.Some? ==> forall j :: 0 <= j < m.value.0 ==> DescAt(line, j).None?)
  {
    var m := Leftmost(DescAt, line, 0);
    if m.Some? {
      assert DescAt(line, m.value.0).Some?;
    }
  }

  /** The pattern `(?<=LEAD).*` as in `a[1][...]`: the rest of the line after the first
      occurrence of `lead`. */
  function AfterLead(s: string, lead: string): (r: Option<string>)
    ensures r.None? <==> !Contains(s, lead)
    ensures r.Some? ==> exists i :: 0 <= i <= |s| && FirstAt(s, i, lead) && r.value == RestOfLine(s, i + |lead|)
  {
    IndexOfContains(s, lead);
    match IndexOf(s, lead, 0)
    case None => None
    case Some(i) =>
      assert FirstAt(s, i, lead);
      Some(RestOfLine(s, i + |lead|))
  }

  // ---------------------------------------------------------------------------
  // Entities and the key-hint suffix of a description

  /** The decoding as the original writes it: `.gsub('&amp;','&').gsub("&quot;",'"')`. */
  function DecodeAsWritten(s: string): string {
    ReplaceAll(ReplaceAll(s, "&amp;", "&"), "&quot;", "\"")
  }

  /** How the report escapes text: `&` as `&amp;` and `"` as `&quot;`. */
  function Escape(s: string): string {
    if s == [] then []
    else (if s[0] == '&' then "&amp;" else if s[0] == '"' then "&quot;" else [s[0]]) + Escape(s[1..])
  }

  /** Entity decoding in one left-to-right pass, so that a decoded `&` never starts
      another entity. The model reads descriptions with this decoder. */
  function Unescape(s: string): string
    decreases |s|
  {
    if "&amp;" <= s then "&" + Unescape(s[5..])
    else if "&quot;" <= s then "\"" + Unescape(s[6..])
    else if s == [] then []
    else [s[0]] + Unescape(s[1..])
  }

  /** Decoding undoes the report's escaping, for every text. */
  lemma {:induction false} UnescapeEscape(s: string)
    ensures Unescape(Escape(s)) == s
  {
    if s != [] {
      var e := Escape(s);
      var rest := Escape(s[1..]);
      UnescapeEscape(s[1..]);
      if s[0] == '&' {
        assert e == "&amp;" + rest;
        assert e[5..] == rest;
      } else if s[0] == '"' {
        assert e == "&quot;" + rest;
        assert !("&amp;" <= e) by { assert e[1] == 'q'; }
        assert e[6..] == rest;
      } else {
        assert e == [s[0]] + rest;
        assert e[1..] == rest;
      }
      assert s == [s[0]] + s[1..];
    }
  }

  /** On a text that does not itself contain `&quot;`, the original's two passes undo
      the report's escaping as well: they part from the one-pass decoder only there. */
  lemma DecodeAsWrittenEscape(d: string)
    requires !Contains(d, "&quot;")
    ensures DecodeAsWritten(Escape(d)) == d
  {
    FirstPass(d);
    SecondPass(d);
  }

  /** The text between the original's two passes: only `"` is still escaped. */
  function QuotesEscaped(s: string): string {
    if s == [] then []
    else (if s[0] == '"' then "&quot;" else [s[0]]) + QuotesEscaped(s[1..])
  }

  lemma {:induction false} FirstPass(s: string)
    ensures ReplaceAll(Escape(s), "&amp;", "&") == QuotesEscaped(s)
  {
    if s != [] {
      var rest := Escape(s[1..]);
      FirstPass(s[1..]);
      if s[0] == '&' {
        assert Escape(s) == "&amp;" + rest;
        AmpFirst(rest);
      } else if s[0] == '"' {
        assert Escape(s) == "&quot;" + rest;
        QuotFirst(rest);
      } else {
        assert Escape(s) == [s[0]] + rest;
        ReplaceAllPrefix([s[0]], rest, "&amp;", "&");
      }
    }
  }

  lemma AmpFirst(rest: string)
    ensures ReplaceAll("&amp;" + rest, "&amp;", "&") == "&" + ReplaceAll(rest, "&amp;", "&")
  {
    var e := "&amp;" + rest;
    assert e[5..] == rest;
  }

  lemma QuotFirst(rest: string)
    ensures ReplaceAll("&quot;" + rest, "&amp;", "&") == "&quot;" + ReplaceAll(rest, "&amp;", "&")
  {
    var e := "&quot;" + rest;
    assert !("&amp;" <= e) by { assert e[1] == 'q'; }
    assert e[1..] == "quot;" + rest;
    ReplaceAllPrefix("quot;", rest, "&amp;", "&");
  }

  lemma {:induction false} SecondPass(s: string)
    requires !Contains(s, "&quot;")
    ensures ReplaceAll(QuotesEscaped(s), "&quot;", "\"") == s
  {
    if s != [] {
      NotContainsTail(s, "&quot;");
      SecondPass(s[1..]);
      var rest := QuotesEscaped(s[1..]);
      if s[0] == '"' {
        assert QuotesEscaped(s) == "&quot;" + rest;
        QuotSecond(rest);
      } else if s[0] == '&' {
        assert QuotesEscaped(s) == "&" + rest;
        if "quot;" <= rest {
          QuotesEscapedPrefix("quot;", s[1..]);
          assert StartsAt(s, 0, "&quot;");
        }
        AmpSecond(rest);
      } else {
        assert QuotesEscaped(s) == [s[0]] + rest;
        ReplaceAllPrefix([s[0]], rest, "&quot;", "\"");
      }
      assert s == [s[0]] + s[1..];
    }
  }

  lemma QuotSecond(rest: string)
    ensures ReplaceAll("&quot;" + rest, "&quot;", "\"") == "\"" + ReplaceAll(rest, "&quot;", "\"")
  {
    var e := "&quot;" + rest;
    assert e[6..] == rest;
  }

  lemma AmpSecond(rest: string)
    requires !("quot;" <= rest)
    ensures ReplaceAll("&" + rest, "&quot;", "\"") == "&" + ReplaceAll(rest, "&quot;", "\"")
  {
    var e := "&" + rest;
    assert e[1..] == rest;
  }

  /** A prefix without `&` of the half-decoded text is a prefix of the text. */
  lemma {:induction false} QuotesEscapedPrefix(p: string, t: string)
    requires '&' !in p && p <= QuotesEscaped(t)
    ensures p <= t
    decreases |p|
  {
    if p != [] {
      assert t != [];
      assert p[0] in p;
      if t[0] == '"' {
        assert false;
      }
      assert QuotesEscaped(t) == [t[0]] + QuotesEscaped(t[1..]);
      assert p[1..] <= QuotesEscaped(t[1..]);
      QuotesEscapedPrefix(p[1..], t[1..]);
    }
  }

  /** The original's two passes decode the escaped text `&quot;` to `"`: the `&` that
      the first pass produces starts an entity for the second. */
  lemma DoubleDecoding()
    ensures Escape("&quot;") == "&amp;quot;"
    ensures DecodeAsWritten(Escape("&quot;")) == "\""
    ensures Unescape(Escape("&quot;")) == "&quot;"
  {
    EscapedEntity();
    DecodedTwice();
    UnescapeEscape("&quot;");
  }

  lemma EscapedEntity()
    ensures Escape("&quot;") == "&amp;quot;"
  {
    assert "&quot;"[1..] == "quot;";
    assert "quot;"[1..] == "uot;";
    assert "uot;"[1..] == "ot;";
    assert "ot;"[1..] == "t;";
    assert "t;"[1..] == ";";
    assert ";"[1..] == [];
  }

  lemma DecodedTwice()
    ensures DecodeAsWritten("&amp;quot;") == "\""
  {
    var e := "&amp;quot;";
    assert ReplaceAll(e, "&amp;", "&") == "&quot;" by {
      assert "&amp;" <= e;
      assert e[5..] == "quot;";
      ReplaceAllAbsent("quot;", "&amp;", "&");
    }
    assert ReplaceAll("&quot;", "&quot;", "\"") == "\"" by {
      assert "&quot;"[6..] == [];
    }
  }

  /** `\s+\[[^\[]+\]$` matching at `p` in a line: white space, a `[`, at least one
      character other than `[`, and a `]` that ends the line. */
  function KeySuffixAt(d: string, p: nat): (r: Option<nat>)
    ensures r.Some? ==> p < |d| && r.value == |d|
  {
    if p < |d| then
      var b := p + LeadingSpace(d[p..]);
      if b > p && b + 2 < |d| && d[b] == '[' && d[|d| - 1] == ']' && '[' !in d[b + 1..|d| - 1] then Some(|d|) else None
    else None
  }

  /** `.sub(/\s+\[[^\[]+\]$/,'')` on a line: drops the trailing bracketed key hint. */
  function StripKeySuffix(d: string): (r: string)
    ensures r <= d
  {
    match Leftmost(KeySuffixAt, d, 0)
    case None => d
    case Some((p, _)) => d[..p]
  }

  /** A description followed by a space and a bracketed hint loses exactly the hint. */
  lemma {:induction false} StripKeySuffixOf(t: string, hint: string)
    requires hint != [] && '[' !in hint
    requires t == [] || !IsSpace(t[|t| - 1])
    ensures StripKeySuffix(t + " [" + hint + "]") == t
  {
    var d := t + " [" + hint + "]";
    var p := |t|;
    assert d[p..] == " [" + hint + "]";
    assert LeadingSpace(d[p..]) == 1 by {
      assert d[p..][1..] == "[" + hint + "]";
    }
    assert d[p + 2..|d| - 1] == hint;
    assert KeySuffixAt(d, p) == Some(|d|);
    forall j | 0 <= j < p ensures KeySuffixAt(d, j).None? {
      NoEarlierKeySuffix(t, hint, j);
    }
    LeftmostAt(KeySuffixAt, d, 0, p);
  }

  lemma NoEarlierKeySuffix(t: string, hint: string, j: nat)
    requires hint != [] && '[' !in hint
    requires j < |t| && !IsSpace(t[|t| - 1])
    ensures KeySuffixAt(t + " [" + hint + "]", j).None?
  {
    var d := t + " [" + hint + "]";
    var p := |t|;
    var b := j + LeadingSpace(d[j..]);
    assert b < p by {
      assert !IsSpace(d[j..][p - 1 - j]);
    }
    assert d[b + 1..|d| - 1][p - b] == '[';
  }

  // ---------------------------------------------------------------------------
  // Reading back the fields a report writes

  /** The first line of a step block: the heading `Step n: ` and the text after it. */
  function HeadingLine(n: nat, t: string): string {
    StepWord + NatToString(n) + ": " + t
  }

  /** A heading line is read as the step number it was written with. */
  lemma HeadingNumber(n: nat, t: string)
    ensures StepNumberOf(HeadingLine(n, t)) == n
  {
    var d := NatToString(n);
    var s := HeadingLine(n, t);
    assert s[0..5] == StepWord;
    assert s[5..] == d + (": " + t);
    LeadingDigitsPrefix(d, ": " + t);
    assert s[5] == d[0];
    assert NumberAt(s, 0) == Some(5 + |d|);
    LeftmostAt(NumberAt, s, 0, 0);
    assert s[5..5 + |d|] == d;
    NatToStringValue(n);
  }

  /** The description of a heading line is the text written after the heading. */
  lemma HeadingDesc(n: nat, t: string)
    requires '\n' !in t
    ensures DescLine(HeadingLine(n, t)) == Some(t)
  {
    var d := NatToString(n);
    var s := HeadingLine(n, t);
    assert s[0..5] == StepWord;
    assert s[5..] == d + (": " + t);
    LeadingDigitsPrefix(d, ": " + t);
    assert s[5 + |d|..7 + |d|] == ": ";
    assert DescAt(s, 0) == Some(7 + |d|);
    LeftmostAt(DescAt, s, 0, 0);
    assert s[7 + |d|..] == t;
    RestOfLineAll(s, 7 + |d|);
  }

  /** A line holding the comment marker, with no `U` before it, is read as the comment
      written after the marker. */
  lemma CommentOfMarker(pre: string, c: string)
    requires 'U' !in pre && '\n' !in c
    ensures CommentOf(pre + UserComment + c) == Some(c)
  {
    var s := pre + UserComment + c;
    var i := |pre|;
    assert s[i..i + |UserComment|] == UserComment;
    forall j | 0 <= j < i ensures !StartsAt(s, j, UserComment) {
      assert s[j] == pre[j] && pre[j] in pre;
    }
    assert FirstAt(s, i, UserComment);
    assert IndexOf(s, UserComment, 0) == Some(i);
    assert s[i + |UserComment|..] == c;
    RestOfLineAll(s, i + |UserComment|);
  }

  /** A line that starts with `lead` is read as what follows it. */
  lemma AfterLeadOf(lead: string, v: string)
    requires '\n' !in v
    ensures AfterLead(lead + v, lead) == Some(v)
  {
    var s := lead + v;
    assert s[0..|lead|] == lead;
    assert IndexOf(s, lead, 0) == Some(0);
    assert s[|lead|..] == v;
    RestOfLineAll(s, |lead|);
  }

  /** The bracket after a head without `[` is read up to its `]`. */
  lemma BracketOf(pre: string, hint: string, post: string)
    requires '[' !in pre && hint != [] && ']' !in hint
    ensures BracketText(pre + "[" + hint + "]" + post) == Some(hint)
  {
    var s := pre + "[" + hint + "]" + post;
    var q := |pre| + 1;
    NoBracketBefore(pre, hint + "]" + post);
    assert s == pre + "[" + (hint + "]" + post);
    assert s[q..] == hint + ("]" + post);
    FirstIndexAfter(hint, ']', "]" + post);
    assert BracketAt(s, q) == Some(q + |hint|);
    LeftmostAt(BracketAt, s, 0, q);
    assert s[q..q + |hint|] == hint;
  }

  /** No bracket match starts inside, or right after, a head without `[`. */
  lemma NoBracketBefore(pre: string, rest: string)
    requires '[' !in pre
    ensures forall j :: 0 <= j <= |pre| ==> BracketAt(pre + "[" + rest, j).None?
  {
    var s := pre + "[" + rest;
    forall j | 0 <= j <= |pre| ensures BracketAt(s, j).None? {
      if 1 <= j {
        assert s[j - 1] == pre[j - 1] && pre[j - 1] in pre;
      }
    }
  }

  /** A key name as it can appear in the bracketed hint and be read back. */
  predicate KeyName(w: string) {
    w != [] &&
    forall j :: 0 <= j < |w| ==>
      !IsSpace(w[j]) && w[j] != '[' && w[j] != ']' && w[j] != '.' && w[j] != '&' && w[j] != '"'
  }

  /** Keys written as a bracketed, space-separated hint, with or without a trailing `...`,
      are read back as those keys. */
  lemma KeysOfHint(pre: string, ks: seq<string>, more: bool, post: string)
    requires '[' !in pre && ks != []
    requires forall k :: 0 <= k < |ks| ==> KeyName(ks[k])
    ensures KeysOf(pre + "[" + (Join(ks, " ") + (if more then " ..." else "")) + "]" + post) == ks
  {
    HintOfKeys(ks, more);
    KeysOfBracket(pre, Join(ks, " ") + (if more then " ..." else ""), post);
  }

  /** The plain hint, without `...`. */
  lemma KeysOfJoin(pre: string, ks: seq<string>, post: string)
    requires '[' !in pre && ks != []
    requires forall k :: 0 <= k < |ks| ==> KeyName(ks[k])
    ensures KeysOf(pre + "[" + Join(ks, " ") + "]" + post) == ks
  {
    var j := Join(ks, " ");
    KeyNamesJoined(ks);
    KeysOfBracket(pre, j, post);
    ReplaceAllAbsent(j, "...", "");
    forall k | 0 <= k < |ks| ensures ks[k] != [] && forall i :: 0 <= i < |ks[k]| ==> !IsSpace(ks[k][i]) {
      assert KeyName(ks[k]);
    }
    WordsOfJoin(ks);
  }

  lemma KeysOfBracket(pre: string, hint: string, post: string)
    requires '[' !in pre && hint != [] && ']' !in hint
    ensures KeysOf(pre + "[" + hint + "]" + post) == Words(ReplaceAll(hint, "...", ""))
  {
    BracketOf(pre, hint, post);
  }

  lemma HintOfKeys(ks: seq<string>, more: bool)
    requires ks != [] && forall k :: 0 <= k < |ks| ==> KeyName(ks[k])
    ensures var hint := Join(ks, " ") + (if more then " ..." else "");
            hint != [] && ']' !in hint && Words(ReplaceAll(hint, "...", "")) == ks
  {
    var j := Join(ks, " ");
    KeyNamesJoined(ks);
    DotsRemoved(j, more);
    forall k | 0 <= k < |ks| ensures ks[k] != [] && forall i :: 0 <= i < |ks[k]| ==> !IsSpace(ks[k][i]) {
      assert KeyName(ks[k]);
    }
    WordsOfJoinSpace(ks, if more then " " else "");
  }

  /** Key names joined by spaces: a non-empty text without `]`, `.`, `[`, `&`, `"` or line feed. */
  lemma KeyNamesJoined(ks: seq<string>)
    requires ks != [] && forall k :: 0 <= k < |ks| ==> KeyName(ks[k])
    ensures Join(ks, " ") != [] && ks[0] != []
    ensures ']' !in Join(ks, " ") && '.' !in Join(ks, " ") && '[' !in Join(ks, " ")
    ensures '&' !in Join(ks, " ") && '"' !in Join(ks, " ") && '\n' !in Join(ks, " ")
  {
    forall k | 0 <= k < |ks|
      ensures ']' !in ks[k] && '.' !in ks[k] && '[' !in ks[k] && '&' !in ks[k] && '"' !in ks[k] && '\n' !in ks[k]
    {
      assert KeyName(ks[k]);
    }
    JoinNotIn(ks, " ", ']');
    JoinNotIn(ks, " ", '.');
    JoinNotIn(ks, " ", '[');
    JoinNotIn(ks, " ", '&');
    JoinNotIn(ks, " ", '"');
    JoinNotIn(ks, " ", '\n');
    JoinHead(ks, " ");
  }

  /** `gsub('...','')` removes a trailing ` ...` and nothing else from a text without dots. */
  lemma DotsRemoved(j: string, more: bool)
    requires '.' !in j
    ensures ReplaceAll(j + (if more then " ..." else ""), "...", "") == j + (if more then " " else "")
  {
    if more {
      ReplaceAllPrefix(j, " ...", "...", "");
      ReplaceAllPrefix(" ", "...", "...", "");
      assert ReplaceAll("...", "...", "") == [] by {
        assert "..."[3..] == [];
      }
      assert " ..." == " " + "...";
    } else {
      assert j + [] == j;
      ReplaceAllAbsent(j, "...", "");
    }
  }

  /** Escaping distributes over concatenation. */
  lemma {:induction false} EscapeAppend(a: string, b: string)
    ensures Escape(a + b) == Escape(a) + Escape(b)
  {
    if a == [] {
      assert a + b == b;
    } else {
      assert (a + b)[0] == a[0] && (a + b)[1..] == a[1..] + b;
      EscapeAppend(a[1..], b);
    }
  }

  /** A text without `&` or `"` is escaped as itself. */
  lemma {:induction false} EscapePlain(b: string)
    requires '&' !in b && '"' !in b
    ensures Escape(b) == b
  {
    if b != [] {
      assert b[0] in b;
      assert forall c :: c in b[1..] ==> c in b;
      EscapePlain(b[1..]);
      assert b == [b[0]] + b[1..];
    }
  }

  /** Escaping adds no character outside the entities it writes. */
  lemma {:induction false} EscapeNotIn(d: string, c: char)
    requires c !in d && c !in "&amp;quot;"
    ensures c !in Escape(d)
  {
    if d != [] {
      assert d[0] in d;
      assert forall x :: x in d[1..] ==> x in d;
      EscapeNotIn(d[1..], c);
    }
  }

  /** The description line of a block, `Escape(d) [hint]`, is read as `d`: decoding undoes
      the escaping and the hint is stripped. */
  lemma DescOfLine(d: string, hint: string)
    requires hint != [] && '[' !in hint && '&' !in hint && '"' !in hint
    requires d == [] || !IsSpace(d[|d| - 1])
    ensures StripKeySuffix(Unescape(Escape(d) + " [" + hint + "]")) == d
  {
    EscapedLine(d, hint);
    UnescapeEscape(d + (" [" + hint + "]"));
    StrippedLine(d, hint);
  }

  lemma EscapedLine(d: string, hint: string)
    requires '&' !in hint && '"' !in hint
    ensures Escape(d) + " [" + hint + "]" == Escape(d + (" [" + hint + "]"))
  {
    TailPlain(hint);
    EscapeAppend(d, " [" + hint + "]");
  }

  lemma TailPlain(hint: string)
    requires '&' !in hint && '"' !in hint
    ensures Escape(" [" + hint + "]") == " [" + hint + "]"
  {
    var tail := " [" + hint + "]";
    assert forall c :: c in tail ==> c == ' ' || c == '[' || c == ']' || c in hint;
    EscapePlain(tail);
  }

  lemma StrippedLine(d: string, hint: string)
    requires hint != [] && '[' !in hint
    requires d == [] || !IsSpace(d[|d| - 1])
    ensures StripKeySuffix(d + (" [" + hint + "]")) == d
  {
    assert d + (" [" + hint + "]") == d + " [" + hint + "]";
    StripKeySuffixOf(d, hint);
  }

  /** Fields a report can carry and have read back: a description without `[` or line
      feed that does not end in white space, key names (none for a mouse step), a program
      name on one line and UI elements that neither contain `,` nor start with white space. */
  predicate Writable(d: string, ks: seq<string>, p: string, us: seq<string>) {
    '[' !in d && '\n' !in d && (d == [] || !IsSpace(d[|d| - 1])) &&
    (forall k :: 0 <= k < |ks| ==> KeyName(ks[k])) &&
    '\n' !in p &&
    forall k :: 0 <= k < |us| ==> Clean(CommaSpace, us[k]) && '\n' !in us[k]
  }

  /** The first line the report writes for a structured step: the key hint in brackets
      when there are keys, no bracket at all for a step without keys. */
  function StepLine(n: nat, d: string, ks: seq<string>): string {
    HeadingLine(n, Escape(d) + KeyHint(ks))
  }

  function KeyHint(ks: seq<string>): string {
    if ks == [] then [] else " [" + Join(ks, " ") + "]"
  }

  /** A step line is read as its number, its keys and its description line. */
  lemma StepLineFields(n: nat, d: string, ks: seq<string>)
    requires '[' !in d && '\n' !in d && forall k :: 0 <= k < |ks| ==> KeyName(ks[k])
    ensures StepNumberOf(StepLine(n, d, ks)) == n
    ensures KeysOf(StepLine(n, d, ks)) == ks
    ensures DescLine(StepLine(n, d, ks)) == Some(Escape(d) + KeyHint(ks))
  {
    if ks == [] {
      PlainLineFields(n, d);
      assert Escape(d) + KeyHint(ks) == Escape(d);
    } else {
      KeyHintOf(Escape(d), ks);
      HeadingNumber(n, Escape(d) + KeyHint(ks));
      StepLineKeys(n, d, ks);
      StepLineDesc(n, d, ks);
    }
  }

  /** The line of a step without keys: `Step n: ` and the escaped description. */
  lemma PlainLineFields(n: nat, d: string)
    requires '[' !in d && '\n' !in d
    ensures StepNumberOf(StepLine(n, d, [])) == n
    ensures KeysOf(StepLine(n, d, [])) == []
    ensures DescLine(StepLine(n, d, [])) == Some(Escape(d))
  {
    assert KeyHint([]) == [] && Escape(d) + [] == Escape(d);
    HeadingNumber(n, Escape(d));
    PlainLineKeys(n, d);
    EscapeNotIn(d, '\n');
    HeadingDesc(n, Escape(d));
  }

  /** The hint of a step with keys, as the report appends it. */
  lemma KeyHintOf(e: string, ks: seq<string>)
    requires ks != []
    ensures e + KeyHint(ks) == e + " [" + Join(ks, " ") + "]"
  {
    var j := Join(ks, " ");
    assert KeyHint(ks) == " [" + j + "]";
    assert e + (" [" + j + "]") == e + " [" + j + "]";
  }

  /** A line without a key hint holds no `[`, so it has no keys. */
  lemma PlainLineKeys(n: nat, d: string)
    requires '[' !in d
    ensures KeysOf(StepLine(n, d, [])) == []
  {
    var s := StepLine(n, d, []);
    EscapeNotIn(d, '[');
    assert '[' !in NatToString(n);
    assert s == StepWord + NatToString(n) + ": " + Escape(d);
    assert '[' !in s;
    forall q | 0 <= q <= |s| ensures BracketAt(s, q).None? {
      if 1 <= q < |s| {
        assert s[q - 1] in s;
      }
    }
  }

  lemma StepLineKeys(n: nat, d: string, ks: seq<string>)
    requires '[' !in d && ks != [] && forall k :: 0 <= k < |ks| ==> KeyName(ks[k])
    ensures KeysOf(StepLine(n, d, ks)) == ks
  {
    var pre := HeadingLine(n, Escape(d)) + " ";
    StepLineShape(n, d, ks);
    EscapeNotIn(d, '[');
    assert '[' !in NatToString(n);
    assert '[' !in pre;
    KeysOfHint(pre, ks, false, []);
  }

  lemma StepLineShape(n: nat, d: string, ks: seq<string>)
    requires ks != []
    ensures StepLine(n, d, ks) == HeadingLine(n, Escape(d)) + " " + "[" + (Join(ks, " ") + (if false then " ..." else "")) + "]" + []
  {
  }

  lemma StepLineDesc(n: nat, d: string, ks: seq<string>)
    requires '\n' !in d && ks != [] && forall k :: 0 <= k < |ks| ==> KeyName(ks[k])
    ensures DescLine(StepLine(n, d, ks)) == Some(Escape(d) + " [" + Join(ks, " ") + "]")
  {
    EscapeNotIn(d, '\n');
    KeyNamesJoined(ks);
    var t := Escape(d) + " [" + Join(ks, " ") + "]";
    assert StepLine(n, d, ks) == HeadingLine(n, t);
    assert forall c :: c in t ==> c in Escape(d) || c == ' ' || c == '[' || c in Join(ks, " ") || c == ']';
    HeadingDesc(n, t);
  }

  /** The three lines the report writes for a structured step are read back as the step's
      description, keys, program and UI elements. */
  lemma NarrativeOfFields(d: string, ks: seq<string>, p: string, us: seq<string>, n: nat)
    requires Writable(d, ks, p, us)
    requires !Contains(StepLine(n, d, ks), UserComment)
    ensures NarrativeOf([StepLine(n, d, ks), ProgramLead + p, UiLead + Join(us, ", ")], ks, n) ==
            Ok(Structured(d, ks, Some(p), us))
  {
    var a := [StepLine(n, d, ks), ProgramLead + p, UiLead + Join(us, ", ")];
    StepLineRead(n, d, ks);
    AfterLeadOf(ProgramLead, p);
    UiLineRead(us);
    NarrativeOfLines(a, ks, n, DescLine(a[0]).value, p, Join(us, ", "));
  }

  /** The first line gives back the description. */
  lemma StepLineRead(n: nat, d: string, ks: seq<string>)
    requires '[' !in d && '\n' !in d && (d == [] || !IsSpace(d[|d| - 1]))
    requires forall k :: 0 <= k < |ks| ==> KeyName(ks[k])
    ensures DescLine(StepLine(n, d, ks)).Some?
    ensures StripKeySuffix(Unescape(DescLine(StepLine(n, d, ks)).value)) == d
  {
    if ks == [] {
      PlainLineFields(n, d);
      UnescapeEscape(d);
      StripKeySuffixPlain(d);
    } else {
      StepLineFields(n, d, ks);
      KeyHintOf(Escape(d), ks);
      KeyNamesJoined(ks);
      DescOfLine(d, Join(ks, " "));
    }
  }

  /** A description without `[` has no key hint to lose. */
  lemma StripKeySuffixPlain(d: string)
    requires '[' !in d
    ensures StripKeySuffix(d) == d
  {
    forall p | 0 <= p <= |d| ensures KeySuffixAt(d, p).None? {
      if p < |d| {
        var b := p + LeadingSpace(d[p..]);
        if b < |d| {
          assert d[b] in d;
        }
      }
    }
  }

  /** The UI line gives back the elements. */
  lemma UiLineRead(us: seq<string>)
    requires forall k :: 0 <= k < |us| ==> Clean(CommaSpace, us[k]) && '\n' !in us[k]
    ensures AfterLead(UiLead + Join(us, ", "), UiLead) == Some(Join(us, ", "))
    ensures Split(CommaSpace, Join(us, ", ")) == us
  {
    JoinNotIn(us, ", ", '\n');
    AfterLeadOf(UiLead, Join(us, ", "));
    SplitJoin(CommaSpace, us);
  }

  /** Three lines with a description, a program and UI elements, and no comment, are read
      as a structured narrative. */
  lemma NarrativeOfLines(a: seq<string>, keys: seq<string>, n: nat, x: string, p: string, u: string)
    requires |a| == 3 && !Contains(a[0], UserComment) && DescLine(a[0]) == Some(x)
    requires AfterLead(a[1], ProgramLead) == Some(p) && AfterLead(a[2], UiLead) == Some(u)
    ensures NarrativeOf(a, keys, n) == Ok(Structured(StripKeySuffix(Unescape(x)), keys, Some(p), Split(CommaSpace, u)))
  {
  }

  /** A comment line is read as the comment with every `&quot;` deleted, whatever follows. */
  lemma NarrativeOfComment(pre: string, c: string, rest: seq<string>, keys: seq<string>, n: nat)
    requires 'U' !in pre && '\n' !in c
    ensures NarrativeOf([pre + UserComment + c] + rest, keys, n) == Ok(Comment(ReplaceAll(c, "&quot;", "")))
  {
    CommentOfMarker(pre, c);
  }

  /** A block whose `<br />` fields are the three lines of a structured step is read as that
      step, timed by its action and with the action's crop. */
  lemma ParseBlockOfFields(report: string, actions: seq<Action>, start: nat, block: string,
                           n: nat, d: string, ks: seq<string>, p: string, us: seq<string>, clock: nat, shot: Option<Crop>)
    requires Split(Literal(LineBreak), block) == [StepLine(n, d, ks), ProgramLead + p, UiLead + Join(us, ", ")]
    requires Writable(d, ks, p, us) && !Contains(StepLine(n, d, ks), UserComment)
    requires ActionOf(actions, n).Some? && ActionOf(actions, n).value.time.Some?
    requires ParseClock(ActionOf(actions, n).value.time.value) == Some(clock)
    requires ExtractImage(report, actions, n) == Ok(shot)
    ensures ParseBlock(report, actions, start, block).Ok?
    ensures var x := ParseBlock(report, actions, start, block).value;
            x.number == n && x.time == clock - start && x.screenshot == shot &&
            x.narrative == Structured(d, ks, Some(p), us)
  {
    StepLineFields(n, d, ks);
    NarrativeOfFields(d, ks, p, us, n);
    ParseBlockReads(report, actions, start, block, n, Structured(d, ks, Some(p), us));
  }

  lemma ParseBlockReads(report: string, actions: seq<Action>, start: nat, block: string, n: nat, nar: Narrative)
    requires var a := Split(Literal(LineBreak), block);
      && a != [] && StepNumberOf(a[0]) == n
      && NarrativeOf(a, KeysOf(a[0]), n) == Ok(nar)
    requires ActionOf(actions, n).Some? && ActionOf(actions, n).value.time.Some?
    requires ParseClock(ActionOf(actions, n).value.time.value).Some?
    requires ExtractImage(report, actions, n).Ok?
    ensures ParseBlock(report, actions, start, block).Ok?
  {
  }

  // ---------------------------------------------------------------------------
  // One block, and all of them

  /** The narrative of a block: the comment with `&quot;` deleted, or the structured
      description, key list, program and UI elements. */
  function NarrativeOf(a: seq<string>, keys: seq<string>, n: nat): (r: Result<Narrative, ParseError>)
    requires a != []
    ensures CommentOf(a[0]).Some? ==> r == Ok(Comment(ReplaceAll(CommentOf(a[0]).value, "&quot;", "")))
    ensures CommentOf(a[0]).None? && DescLine(a[0]).None? ==> r == Err(NoDescription(n))
    ensures CommentOf(a[0]).None? && DescLine(a[0]).Some? ==>
              (r.Ok? <==> |a| >= 3 && AfterLead(a[2], UiLead).Some?) &&
              (r.Err? ==> r.error == (if |a| < 2 then NoProgramLine(n) else NoUiElements(n)))
    ensures r.Ok? && r.value.Structured? ==>
              CommentOf(a[0]).None? && DescLine(a[0]).Some? && |a| >= 3 && AfterLead(a[2], UiLead).Some? &&
              r.value.desc == StripKeySuffix(Unescape(DescLine(a[0]).value)) && r.value.keys == keys &&
              r.value.program == AfterLead(a[1], ProgramLead) &&
              r.value.uiElements == Split(CommaSpace, AfterLead(a[2], UiLead).value)
  {
    match CommentOf(a[0])
    case Some(c) => Ok(Comment(ReplaceAll(c, "&quot;", "")))
    case None =>
      match DescLine(a[0])
      case None => Err(NoDescription(n))
      case Some(d) =>
        if |a| < 2 then Err(NoProgramLine(n))
        else if |a| < 3 then Err(NoUiElements(n))
        else
          match AfterLead(a[2], UiLead)
          case None => Err(NoUiElements(n))
          case Some(u) =>
            Ok(Structured(StripKeySuffix(Unescape(d)), keys, AfterLead(a[1], ProgramLead), Split(CommaSpace, u)))
  }

  /** One element of the `raw_steps.map`: the step a block describes. Its time is the
      time of action `n - 1` minus the session start; its timing and audio are not set yet. */
  function ParseBlock(report: string, actions: seq<Action>, start: nat, block: string): (r: Result<Step, ParseError>)
    ensures r.Ok? ==> var a := Split(Literal(LineBreak), block);
      && a != []
      && r.value.number == StepNumberOf(a[0])
      && ActionOf(actions, r.value.number).Some?
      && ActionOf(actions, r.value.number).value.time.Some?
      && ParseClock(ActionOf(actions, r.value.number).value.time.value).Some?
      && r.value.time == ParseClock(ActionOf(actions, r.value.number).value.time.value).value - start
      && (r.value.narrative.Comment? <==> CommentOf(a[0]).Some?)
      && NarrativeOf(a, KeysOf(a[0]), r.value.number) == Ok(r.value.narrative)
      && ExtractImage(report, actions, r.value.number) == Ok(r.value.screenshot)
      && r.value.duration.None? && r.value.audio.None? && r.value.audioDuration.None? && r.value.silence.None?
  {
    var a := Split(Literal(LineBreak), block);
    if a == [] then Err(EmptyBlock(0))
    else
      var line := a[0];
      var keys := KeysOf(line);
      var n := StepNumberOf(line);
      match ActionOf(actions, n)
      case None => Err(NoAction(n))
      case Some(action) =>
        var clock := if action.time.Some? then ParseClock(action.time.value) else None;
        if clock.None? then Err(BadTime(n))
        else
          var narrative :- NarrativeOf(a, keys, n);
          var shot :- ExtractImage(report, actions, n);
          Ok(Step(n, clock.value - start, shot, narrative, None, None, None, None))
  }

  /** `raw_steps.map` with the block parser `parse`: every block's step in order, or the
      error of the first block that fails. */
  function ParseAll(parse: string -> Result<Step, ParseError>, blocks: seq<string>): (r: Result<seq<Step>, ParseError>)
    ensures r.Ok? ==> |r.value| == |blocks|
    ensures r.Ok? ==> forall k :: 0 <= k < |blocks| ==> parse(blocks[k]) == Ok(r.value[k])
    ensures r.Err? ==> exists k :: 0 <= k < |blocks| && parse(blocks[k]) == Err(r.error) &&
                                   forall j :: 0 <= j < k ==> parse(blocks[j]).Ok?
  {
    if blocks == [] then Ok([])
    else
      var first :- parse(blocks[0]);
      var rest :- ParseAll(parse, blocks[1..]);
      assert forall k :: 1 <= k < |blocks| ==> blocks[k] == blocks[1..][k - 1];
      Ok([first] + rest)
  }

  /** `parse_steps`: one step per `Step n:` block of the recording-session text. */
  function ParseSteps(report: string, actions: seq<Action>, start: nat): (r: Result<seq<Step>, ParseError>)
    ensures SessionText(report).None? ==> r == Err(NoRecordingSession)
    ensures r.Ok? ==> SessionText(report).Some?
    ensures r.Ok? ==>
      var blocks := SplitSteps(SessionText(report).value).1;
      |r.value| == |blocks| &&
      forall k :: 0 <= k < |blocks| ==> ParseBlock(report, actions, start, blocks[k]) == Ok(r.value[k])
    ensures r.Err? && SessionText(report).Some? ==>
      var blocks := SplitSteps(SessionText(report).value).1;
      exists k :: 0 <= k < |blocks| && ParseBlock(report, actions, start, blocks[k]) == Err(r.error) &&
                  forall j :: 0 <= j < k ==> ParseBlock(report, actions, start, blocks[j]).Ok?
  {
    match SessionText(report)
    case None => Err(NoRecordingSession)
    case Some(s2) => ParseAll(b => ParseBlock(report, actions, start, b), SplitSteps(s2).1)
  }
}
