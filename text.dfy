/**
 * The pieces of Ruby string handling that the analyser relies on, stated over `seq<char>`:
 * character classes (`\s`, `\d`), literal search, `gsub`/`sub` with a literal pattern,
 * the rest of a line as matched by `.*`, `String#split` (which drops trailing empty
 * fields), the whitespace split of `String#split` without arguments, `Array#join`
 * and the decimal conversions `Integer#to_s` and `String#to_i`.
 */
module Text {
  import opened Wrappers

  /** Ruby's `\s`: space, tab, line feed, vertical tab, form feed, carriage return. */
  predicate IsSpace(c: char) {
    c == ' ' || c == '\t' || c == '\n' || c == '\U{B}' || c == '\U{C}' || c == '\r'
  }

  /** Ruby's `\d` (ASCII digits only). */
  predicate IsDigit(c: char) {
    '0' <= c <= '9'
  }

  /** Ruby's `\w`: ASCII letters, digits and the underscore. */
  predicate IsWordChar(c: char) {
    IsDigit(c) || 'a' <= c <= 'z' || 'A' <= c <= 'Z' || c == '_'
  }

  /** `p` occurs in `s` at position `i`. */
  predicate StartsAt(s: string, i: nat, p: string) {
    i + |p| <= |s| && s[i..i + |p|] == p
  }

  predicate Contains(s: string, p: string) {
    exists i :: 0 <= i <= |s| && StartsAt(s, i, p)
  }

  /** The leftmost occurrence of `p` in `s` at or after `from`. */
  function IndexOf(s: string, p: string, from: nat): (r: Option<nat>)
    requires from <= |s|
    ensures r.Some? ==> from <= r.value <= |s| && StartsAt(s, r.value, p)
    ensures r.Some? ==> forall j :: from <= j < r.value ==> !StartsAt(s, j, p)
    ensures r.None? ==> forall j :: from <= j <= |s| ==> !StartsAt(s, j, p)
    decreases |s| - from
  {
    if StartsAt(s, from, p) then Some(from)
    else if from == |s| then None
    else IndexOf(s, p, from + 1)
  }

  /** `p` occurs at `i` and nowhere before: where a search for `p` stops. */
  predicate FirstAt(s: string, i: nat, p: string) {
    StartsAt(s, i, p) && forall j :: 0 <= j < i ==> !StartsAt(s, j, p)
  }

  lemma IndexOfContains(s: string, p: string)
    ensures IndexOf(s, p, 0).Some? <==> Contains(s, p)
  {
    if Contains(s, p) {
      var i :| 0 <= i <= |s| && StartsAt(s, i, p);
      assert IndexOf(s, p, 0).Some?;
    }
  }

  /** The leftmost position at or after `from` where the matcher `m` matches, with the
      end of that match: how a Ruby regex search picks its match. */
  function Leftmost(m: (string, nat) -> Option<nat>, s: string, from: nat): (r: Option<(nat, nat)>)
    requires from <= |s|
    ensures r.Some? ==> from <= r.value.0 <= |s| && m(s, r.value.0) == Some(r.value.1)
    ensures r.Some? ==> forall j :: from <= j < r.value.0 ==> m(s, j).None?
    ensures r.None? ==> forall j :: from <= j <= |s| ==> m(s, j).None?
    decreases |s| - from
  {
    match m(s, from)
    case Some(e) => Some((from, e))
    case None => if from == |s| then None else Leftmost(m, s, from + 1)
  }

  lemma LeftmostAt(m: (string, nat) -> Option<nat>, s: string, from: nat, i: nat)
    requires from <= i <= |s| && m(s, i).Some?
    requires forall j :: from <= j < i ==> m(s, j).None?
    ensures Leftmost(m, s, from) == Some((i, m(s, i).value))
    decreases i - from
  {
    if from < i {
      LeftmostAt(m, s, from + 1, i);
    }
  }

  /** The concatenation of a list of strings. */
  function Concat(xs: seq<string>): string {
    if xs == [] then [] else xs[0] + Concat(xs[1..])
  }

  /** Number of leading characters of `s` matched by `\s*`. */
  function LeadingSpace(s: string): (k: nat)
    ensures k <= |s|
    ensures forall j :: 0 <= j < k ==> IsSpace(s[j])
    ensures k < |s| ==> !IsSpace(s[k])
  {
    if s != [] && IsSpace(s[0]) then 1 + LeadingSpace(s[1..]) else 0
  }

  /** Number of leading characters of `s` matched by `\d*`. */
  function LeadingDigits(s: string): (k: nat)
    ensures k <= |s|
    ensures forall j :: 0 <= j < k ==> IsDigit(s[j])
    ensures k < |s| ==> !IsDigit(s[k])
  {
    if s != [] && IsDigit(s[0]) then 1 + LeadingDigits(s[1..]) else 0
  }

  /** Index of the first `c` in `s`, or `|s|` when there is none. */
  function FirstIndex(s: string, c: char): (k: nat)
    ensures k <= |s|
    ensures forall j :: 0 <= j < k ==> s[j] != c
    ensures k < |s| ==> s[k] == c
  {
    if s == [] then 0 else if s[0] == c then 0 else 1 + FirstIndex(s[1..], c)
  }

  /** What `.*` matches from position `i`: everything up to the next line feed. */
  function RestOfLine(s: string, i: nat): (r: string)
    requires i <= |s|
    ensures r <= s[i..]
    ensures '\n' !in r
    ensures i + |r| < |s| ==> s[i + |r|] == '\n'
  {
    var t := s[i..];
    var k := FirstIndex(t, '\n');
    assert forall j :: 0 <= j < k ==> t[..k][j] == t[j];
    t[..k]
  }

  /** On a text without a line feed, `.*` takes everything after `i`. */
  lemma RestOfLineAll(s: string, i: nat)
    requires i <= |s| && '\n' !in s[i..]
    ensures RestOfLine(s, i) == s[i..]
  {
  }

  /** `s.gsub(p, rep)` for a literal, non-empty pattern: every occurrence, left to right. */
  function ReplaceAll(s: string, p: string, rep: string): (r: string)
    requires p != []
    decreases |s|
  {
    if p <= s then rep + ReplaceAll(s[|p|..], p, rep)
    else if s == [] then []
    else [s[0]] + ReplaceAll(s[1..], p, rep)
  }

  /** `s.sub(p, rep)` for a literal pattern: the leftmost occurrence only. */
  function ReplaceFirst(s: string, p: string, rep: string): (r: string)
    ensures !Contains(s, p) ==> r == s
    ensures Contains(s, p) ==> exists i :: 0 <= i <= |s| - |p| && r == s[..i] + rep + s[i + |p|..]
  {
    IndexOfContains(s, p);
    match IndexOf(s, p, 0)
    case None => s
    case Some(i) => s[..i] + rep + s[i + |p|..]
  }

  /** A literal `gsub` leaves a string without the pattern's first character untouched. */
  lemma {:induction false} ReplaceAllAbsent(s: string, p: string, rep: string)
    requires p != [] && p[0] !in s
    ensures ReplaceAll(s, p, rep) == s
  {
    if s != [] {
      assert s[0] in s;
      assert !(p <= s);
      assert forall c :: c in s[1..] ==> c in s;
      ReplaceAllAbsent(s[1..], p, rep);
    }
  }

  /** A text that does not contain `p` has no tail that contains it. */
  lemma NotContainsTail(s: string, p: string)
    requires s != [] && !Contains(s, p)
    ensures !Contains(s[1..], p)
  {
    forall i | 0 <= i <= |s[1..]| ensures !StartsAt(s[1..], i, p) {
      if StartsAt(s[1..], i, p) {
        assert s[i + 1..i + 1 + |p|] == s[1..][i..i + |p|];
        assert StartsAt(s, i + 1, p);
      }
    }
  }

  /** A literal `gsub` passes over a head that holds no first character of the pattern. */
  lemma {:induction false} ReplaceAllPrefix(a: string, b: string, p: string, rep: string)
    requires p != [] && p[0] !in a
    ensures ReplaceAll(a + b, p, rep) == a + ReplaceAll(b, p, rep)
    decreases |a|
  {
    if a != [] {
      var s := a + b;
      assert a == [a[0]] + a[1..];
      assert s[0] == a[0] != p[0];
      assert s[1..] == a[1..] + b;
      assert ReplaceAll(s, p, rep) == [s[0]] + ReplaceAll(s[1..], p, rep);
      ReplaceAllPrefix(a[1..], b, p, rep);
    } else {
      assert a + b == b;
    }
  }

  /** The first `c` of a text whose head holds none is the one after the head. */
  lemma FirstIndexAfter(a: string, c: char, b: string)
    requires c !in a
    ensures FirstIndex(a + b, c) >= |a|
    ensures b != [] && b[0] == c ==> FirstIndex(a + b, c) == |a|
  {
    var s := a + b;
    assert forall j :: 0 <= j < |a| ==> s[j] == a[j] && a[j] in a;
    if b != [] && b[0] == c {
      assert s[|a|] == c;
    }
  }

  /** A character in neither the parts nor the separator is not in the joined text. */
  lemma {:induction false} JoinNotIn(parts: seq<string>, sep: string, c: char)
    requires c !in sep && forall k :: 0 <= k < |parts| ==> c !in parts[k]
    ensures c !in Join(parts, sep)
  {
    if |parts| > 1 {
      JoinNotIn(parts[1..], sep, c);
      assert parts[0] != [] ==> c !in parts[0];
      assert Join(parts, sep) == parts[0] + sep + Join(parts[1..], sep);
    }
  }

  /** `Array#join(sep)`. */
  function Join(parts: seq<string>, sep: string): string {
    if parts == [] then []
    else if |parts| == 1 then parts[0]
    else parts[0] + sep + Join(parts[1..], sep)
  }

  /** `String#split` with no argument: the maximal runs of non-space characters. */
  function Words(s: string): (ws: seq<string>)
    ensures forall k :: 0 <= k < |ws| ==> ws[k] != [] && forall j :: 0 <= j < |ws[k]| ==> !IsSpace(ws[k][j])
    decreases |s|
  {
    var t := s[LeadingSpace(s)..];
    if t == [] then []
    else
      var k := 1 + FirstSpace(t[1..]);
      assert t[0] == s[LeadingSpace(s)];
      WordAtHead(t);
      [t[..k]] + Words(t[k..])
  }

  /** The word at the head of a text that starts with a non-space character. */
  lemma WordAtHead(t: string)
    requires t != [] && !IsSpace(t[0])
    ensures var k := 1 + FirstSpace(t[1..]);
      t[..k] != [] && forall j :: 0 <= j < k ==> !IsSpace(t[..k][j])
  {
    var k := 1 + FirstSpace(t[1..]);
    forall j | 0 <= j < k ensures !IsSpace(t[..k][j]) {
      if j > 0 {
        assert t[j] == t[1..][j - 1];
      }
    }
  }

  /** Index of the first space character in `s`, or `|s|`. */
  function FirstSpace(s: string): (k: nat)
    ensures k <= |s|
    ensures forall j :: 0 <= j < k ==> !IsSpace(s[j])
    ensures k < |s| ==> IsSpace(s[k])
  {
    if s == [] then 0 else if IsSpace(s[0]) then 0 else 1 + FirstSpace(s[1..])
  }

  /** Splitting words joined by single spaces gives the words back. */
  lemma {:induction false} WordsOfJoin(ws: seq<string>)
    requires forall k :: 0 <= k < |ws| ==> ws[k] != [] && forall j :: 0 <= j < |ws[k]| ==> !IsSpace(ws[k][j])
    ensures Words(Join(ws, " ")) == ws
  {
    if ws != [] {
      if |ws| == 1 {
        WordsHead(ws[0], []);
        assert ws[0] + [] == ws[0];
      } else {
        var rest := Join(ws[1..], " ");
        assert Join(ws, " ") == ws[0] + (" " + rest);
        WordsHead(ws[0], " " + rest);
        WordsSpace(rest);
        WordsOfJoin(ws[1..]);
      }
    }
  }

  /** Words joined by single spaces and followed by white space split into the words. */
  lemma {:induction false} WordsOfJoinSpace(ws: seq<string>, sp: string)
    requires ws != []
    requires forall k :: 0 <= k < |ws| ==> ws[k] != [] && forall j :: 0 <= j < |ws[k]| ==> !IsSpace(ws[k][j])
    requires forall j :: 0 <= j < |sp| ==> IsSpace(sp[j])
    ensures Words(Join(ws, " ") + sp) == ws
  {
    if |ws| == 1 {
      WordsHead(ws[0], sp);
      WordsOfSpace(sp);
    } else {
      WordsOfJoinSpace(ws[1..], sp);
      WordsOfSpaceJoined(ws[0], Join(ws[1..], " "), sp, ws[1..]);
      assert ws == [ws[0]] + ws[1..];
    }
  }

  /** One more word in front, with a single space after it. */
  lemma WordsOfSpaceJoined(w: string, rest: string, sp: string, tail: seq<string>)
    requires w != [] && forall j :: 0 <= j < |w| ==> !IsSpace(w[j])
    requires Words(rest + sp) == tail
    ensures Words(w + " " + rest + sp) == [w] + tail
  {
    assert w + " " + rest + sp == w + (" " + (rest + sp));
    WordsHead(w, " " + (rest + sp));
    WordsSpace(rest + sp);
  }

  lemma {:induction false} WordsOfSpace(sp: string)
    requires forall j :: 0 <= j < |sp| ==> IsSpace(sp[j])
    ensures Words(sp) == []
  {
    LeadingSpaceAll(sp);
  }

  lemma {:induction false} LeadingSpaceAll(sp: string)
    requires forall j :: 0 <= j < |sp| ==> IsSpace(sp[j])
    ensures LeadingSpace(sp) == |sp|
  {
    if sp != [] {
      LeadingSpaceAll(sp[1..]);
    }
  }

  lemma WordsHead(w: string, rest: string)
    requires w != [] && forall j :: 0 <= j < |w| ==> !IsSpace(w[j])
    requires rest == [] || IsSpace(rest[0])
    ensures Words(w + rest) == [w] + Words(rest)
  {
    var s := w + rest;
    assert LeadingSpace(s) == 0 by { assert s[0] == w[0]; }
    assert s[0..] == s;
    assert s[1..] == w[1..] + rest;
    FirstSpaceOfPrefix(w[1..], rest);
    assert s[..|w|] == w;
    assert s[|w|..] == rest;
  }

  lemma WordsSpace(x: string)
    ensures Words([' '] + x) == Words(x)
  {
    var s := [' '] + x;
    var n := LeadingSpace(x);
    assert s[0] == ' ' && s[1..] == x;
    assert LeadingSpace(s) == 1 + n;
    assert s[1 + n..] == x[n..];
  }

  lemma FirstSpaceOfPrefix(w: string, rest: string)
    requires forall j :: 0 <= j < |w| ==> !IsSpace(w[j])
    requires rest == [] || IsSpace(rest[0])
    ensures FirstSpace(w + rest) == |w|
  {
    var s := w + rest;
    assert forall j :: 0 <= j < |w| ==> s[j] == w[j];
    assert |w| < |s| ==> s[|w|] == rest[0];
  }

  // ---------------------------------------------------------------------------
  // String#split with a separator, and the removal of trailing empty fields

  /** The separators the analyser splits on: a literal string, the regex `/,\s+/` and the
      regex `/\D/` (any one character that is not a digit). */
  datatype Separator = Literal(text: string) | CommaSpace | NonDigit

  /** End of a separator match that begins at `i`, if one does. */
  function SepEnd(sep: Separator, s: string, i: nat): (r: Option<nat>)
    requires i <= |s|
    ensures r.Some? ==> i < r.value <= |s|
  {
    match sep
    case Literal(t) => if t != [] && StartsAt(s, i, t) then Some(i + |t|) else None
    case CommaSpace =>
      if i + 1 < |s| && s[i] == ',' && IsSpace(s[i + 1]) then Some(i + 1 + LeadingSpace(s[i + 1..])) else None
    case NonDigit => if i < |s| && !IsDigit(s[i]) then Some(i + 1) else None
  }

  /** The leftmost separator match at or after `from`, as (start, end). */
  function FindSep(sep: Separator, s: string, from: nat): (r: Option<(nat, nat)>)
    requires from <= |s|
    ensures r.Some? ==> from <= r.value.0 < r.value.1 <= |s| && SepEnd(sep, s, r.value.0) == Some(r.value.1)
    ensures r.Some? ==> forall j :: from <= j < r.value.0 ==> SepEnd(sep, s, j).None?
    ensures r.None? ==> forall j :: from <= j <= |s| ==> SepEnd(sep, s, j).None?
    decreases |s| - from
  {
    match SepEnd(sep, s, from)
    case Some(e) => Some((from, e))
    case None => if from == |s| then None else FindSep(sep, s, from + 1)
  }

  /** Every field between separators, empty ones included. */
  function Fields(sep: Separator, s: string): (r: seq<string>)
    ensures |r| >= 1
    decreases |s|
  {
    match FindSep(sep, s, 0)
    case None => [s]
    case Some((i, e)) => [s[..i]] + Fields(sep, s[e..])
  }

  function DropTrailingEmpty(xs: seq<string>): (r: seq<string>)
    ensures r <= xs
    ensures r == [] || r[|r| - 1] != []
    ensures forall k :: |r| <= k < |xs| ==> xs[k] == []
  {
    if xs != [] && xs[|xs| - 1] == [] then DropTrailingEmpty(xs[..|xs| - 1]) else xs
  }

  /** Ruby's `s.split(sep)`: the fields, with trailing empty fields removed. */
  function Split(sep: Separator, s: string): seq<string> {
    DropTrailingEmpty(Fields(sep, s))
  }

  /** The text a separator is written as when joining. */
  function SepText(sep: Separator): string {
    match sep
    case Literal(t) => t
    case CommaSpace => ", "
    case NonDigit => ":"
  }

  /** A field that joins and splits back unchanged: non-empty, no separator character in it,
      and for `/,\s+/` not starting with a space (that would be swallowed by `\s+`). */
  predicate Clean(sep: Separator, p: string) {
    p != [] &&
    match sep
    case Literal(t) => |t| == 1 && t[0] !in p
    case CommaSpace => ',' !in p && !IsSpace(p[0])
    case NonDigit => forall j :: 0 <= j < |p| ==> IsDigit(p[j])
  }

  lemma FindSepAt(sep: Separator, s: string, from: nat, i: nat, e: nat)
    requires from <= i <= |s|
    requires forall j :: from <= j < i ==> SepEnd(sep, s, j).None?
    requires SepEnd(sep, s, i) == Some(e)
    ensures FindSep(sep, s, from) == Some((i, e))
    decreases i - from
  {
    if from < i {
      FindSepAt(sep, s, from + 1, i, e);
    }
  }

  lemma FindSepNone(sep: Separator, s: string)
    requires forall j :: 0 <= j <= |s| ==> SepEnd(sep, s, j).None?
    ensures FindSep(sep, s, 0) == None
  {
  }

  /** Splitting clean fields joined by the separator gives the fields back. */
  lemma {:induction false} SplitJoin(sep: Separator, parts: seq<string>)
    requires sep.Literal? ==> |sep.text| == 1
    requires forall k :: 0 <= k < |parts| ==> Clean(sep, parts[k])
    ensures Split(sep, Join(parts, SepText(sep))) == parts
  {
    FieldsJoin(sep, parts);
    if parts != [] {
      assert parts[|parts| - 1] != [] by { assert Clean(sep, parts[|parts| - 1]); }
    } else {
      assert Fields(sep, []) == [[]];
    }
  }

  lemma {:induction false} FieldsJoin(sep: Separator, parts: seq<string>)
    requires sep.Literal? ==> |sep.text| == 1
    requires forall k :: 0 <= k < |parts| ==> Clean(sep, parts[k])
    ensures parts != [] ==> Fields(sep, Join(parts, SepText(sep))) == parts
  {
    if parts != [] {
      var t := SepText(sep);
      assert Clean(sep, parts[0]);
      if |parts| == 1 {
        FieldsOne(sep, parts[0]);
      } else {
        var rest := Join(parts[1..], t);
        assert Clean(sep, parts[1]);
        JoinHead(parts[1..], t);
        assert Join(parts, t) == parts[0] + t + rest;
        FieldsCons(sep, parts[0], parts[1], rest);
        FieldsJoin(sep, parts[1..]);
      }
    }
  }

  /** A clean field alone is one field. */
  lemma FieldsOne(sep: Separator, p: string)
    requires sep.Literal? ==> |sep.text| == 1
    requires Clean(sep, p)
    ensures Fields(sep, p) == [p]
  {
    NoSepIn(sep, p, []);
    assert p + [] == p;
    FindSepNone(sep, p);
  }

  /** A clean field followed by the separator splits off as the first field. */
  lemma FieldsCons(sep: Separator, p: string, q: string, rest: string)
    requires sep.Literal? ==> |sep.text| == 1
    requires Clean(sep, p) && Clean(sep, q) && rest != [] && rest[0] == q[0]
    ensures Fields(sep, p + SepText(sep) + rest) == [p] + Fields(sep, rest)
  {
    var t := SepText(sep);
    var s := p + t + rest;
    NoSepIn(sep, p, t + rest);
    assert s == p + (t + rest);
    SepAfter(sep, p, q, rest);
    var e := |p| + |t|;
    FindSepAt(sep, s, 0, |p|, e);
    assert s[..|p|] == p;
    assert s[e..] == rest;
  }

  /** A joined list starts with its first part. */
  lemma JoinHead(parts: seq<string>, t: string)
    requires parts != [] && parts[0] != []
    ensures Join(parts, t) != [] && Join(parts, t)[0] == parts[0][0]
  {
    if |parts| > 1 {
      assert Join(parts, t) == parts[0] + (t + Join(parts[1..], t));
    }
  }

  /** No separator match starts inside a clean field. */
  lemma NoSepIn(sep: Separator, p: string, u: string)
    requires sep.Literal? ==> |sep.text| == 1
    requires Clean(sep, p)
    ensures forall j :: 0 <= j < |p| ==> SepEnd(sep, p + u, j).None?
    ensures u == [] ==> SepEnd(sep, p + u, |p|).None?
  {
    var s := p + u;
    forall j | 0 <= j < |p|
      ensures SepEnd(sep, s, j).None?
    {
      assert s[j] == p[j];
      assert p[j] in p;
      if sep.Literal? {
        assert s[j..j + 1] == [p[j]];
      }
    }
  }

  /** A separator written between two clean fields matches there, to its end. */
  lemma SepAfter(sep: Separator, p: string, q: string, rest: string)
    requires sep.Literal? ==> |sep.text| == 1
    requires Clean(sep, q) && rest != [] && rest[0] == q[0]
    ensures SepEnd(sep, p + SepText(sep) + rest, |p|) == Some(|p| + |SepText(sep)|)
  {
    var t := SepText(sep);
    var s := p + t + rest;
    assert q[0] in q;
    if sep.Literal? {
      assert s[|p|..|p| + |t|] == t;
    } else if sep.NonDigit? {
      assert s[|p|] == ':';
    } else {
      assert s[|p|] == ',' && s[|p| + 1] == ' ';
      assert s[|p| + 1..] == [' '] + rest;
      assert LeadingSpace(s[|p| + 1..]) == 1 + LeadingSpace(rest);
    }
  }

  /** The fields of a split on `/\D/` are runs of digits. */
  lemma {:induction false} DigitFields(s: string)
    ensures forall k :: 0 <= k < |Fields(NonDigit, s)| ==> forall j :: 0 <= j < |Fields(NonDigit, s)[k]| ==> IsDigit(Fields(NonDigit, s)[k][j])
    decreases |s|
  {
    match FindSep(NonDigit, s, 0)
    case None =>
      forall j | 0 <= j < |s| ensures IsDigit(s[j]) {
        assert SepEnd(NonDigit, s, j).None?;
      }
    case Some((i, e)) =>
      forall j | 0 <= j < i ensures IsDigit(s[j]) {
        assert SepEnd(NonDigit, s, j).None?;
      }
      DigitFields(s[e..]);
  }

  /** `s.split(c, 2)` for a one-character pattern: the text before the first `c` and the
      text after it, or the whole text when there is no `c`; nothing for the empty text. */
  function SplitOnce(s: string, c: char): (r: seq<string>)
    ensures s != [] ==> 1 <= |r| <= 2 && c !in r[0]
    ensures |r| == 2 ==> s == r[0] + [c] + r[1]
    ensures |r| == 1 ==> s == r[0]
  {
    if s == [] then []
    else
      var i := FirstIndex(s, c);
      assert forall j :: 0 <= j < i ==> s[..i][j] == s[j];
      if i < |s| then
        assert s == s[..i] + [c] + s[i + 1..];
        [s[..i], s[i + 1..]]
      else
        assert s[..i] == s;
        [s]
  }

  /** Splitting at the first `c` of a text whose head has no `c` recovers the head. */
  lemma SplitOnceAt(a: string, c: char, b: string)
    requires c !in a
    ensures SplitOnce(a + [c] + b, c) == [a, b]
  {
    var s := a + [c] + b;
    assert forall j :: 0 <= j < |a| ==> s[j] == a[j] && a[j] in a;
    assert s[|a|] == c;
    assert FirstIndex(s, c) == |a|;
    assert s[..|a|] == a;
    assert s[|a| + 1..] == b;
  }

  /** What Ruby's `strip` removes at either end: white space and NUL. */
  predicate IsStripChar(c: char) {
    IsSpace(c) || c == '\0'
  }

  /** `String#rstrip`. */
  function RStrip(s: string): (r: string)
    ensures r <= s
    ensures r == [] || !IsStripChar(r[|r| - 1])
    ensures forall j :: |r| <= j < |s| ==> IsStripChar(s[j])
  {
    if s != [] && IsStripChar(s[|s| - 1]) then RStrip(s[..|s| - 1]) else s
  }

  /** `String#strip`. */
  function Strip(s: string): string {
    var t := RStrip(s);
    var k := LeadingStrip(t);
    t[k..]
  }

  function LeadingStrip(s: string): (k: nat)
    ensures k <= |s|
    ensures k < |s| ==> !IsStripChar(s[k])
  {
    if s != [] && IsStripChar(s[0]) then 1 + LeadingStrip(s[1..]) else 0
  }

  /** Trailing space is stripped from the tail, and only from there, while the tail
      keeps a character that is not stripped. */
  lemma {:induction false} RStripAppend(a: string, b: string)
    requires RStrip(b) != []
    ensures RStrip(a + b) == a + RStrip(b)
    decreases |b|
  {
    var s := a + b;
    assert s[|s| - 1] == b[|b| - 1];
    if IsStripChar(b[|b| - 1]) {
      assert s[..|s| - 1] == a + b[..|b| - 1];
      RStripAppend(a, b[..|b| - 1]);
    }
  }

  /** A text whose trailing part is stripped away down to a character that stays. */
  lemma {:induction false} RStripAll(a: string, b: string)
    requires a != [] && !IsStripChar(a[|a| - 1])
    requires forall j :: 0 <= j < |b| ==> IsStripChar(b[j])
    ensures RStrip(a + b) == a
    decreases |b|
  {
    if b == [] {
      assert a + b == a;
    } else {
      var s := a + b;
      assert s[..|s| - 1] == a + b[..|b| - 1];
      RStripAll(a, b[..|b| - 1]);
    }
  }

  /** `String#lines`: the lines of `s`, each keeping its line break. */
  function Lines(s: string): seq<string>
    decreases |s|
  {
    if s == [] then []
    else
      var i := FirstIndex(s, '\n');
      if i < |s| then [s[..i + 1]] + Lines(s[i + 1..]) else [s]
  }

  /** The lines of a text made of the given lines: each but the last with its break. */
  function Terminated(m: seq<string>): (r: seq<string>)
    requires m != []
    ensures |r| == |m| && r[|m| - 1] == m[|m| - 1]
    ensures forall k :: 0 <= k < |m| - 1 ==> r[k] == m[k] + "\n"
  {
    seq(|m|, k requires 0 <= k < |m| => if k < |m| - 1 then m[k] + "\n" else m[k])
  }

  /** Lines joined by line breaks come apart again, every line but the last keeping
      its break. */
  lemma {:induction false} LinesOfJoin(m: seq<string>)
    requires m != [] && m[|m| - 1] != []
    requires forall k :: 0 <= k < |m| ==> '\n' !in m[k]
    ensures Lines(Join(m, "\n")) == Terminated(m)
  {
    if |m| == 1 {
      LinesOfLine(m[0]);
    } else {
      var tail := m[1..];
      var rest := Join(tail, "\n");
      assert tail[|tail| - 1] == m[|m| - 1];
      assert Join(m, "\n") == m[0] + "\n" + rest;
      LinesOfJoin(tail);
      LinesCons(m[0], rest);
      TerminatedCons(m);
    }
  }

  lemma TerminatedCons(m: seq<string>)
    requires |m| > 1
    ensures Terminated(m) == [m[0] + "\n"] + Terminated(m[1..])
  {
    var t := Terminated(m);
    var r := [m[0] + "\n"] + Terminated(m[1..]);
    forall k | 0 <= k < |m| ensures r[k] == t[k] {
      if k > 0 {
        assert r[k] == Terminated(m[1..])[k - 1];
        assert m[1..][k - 1] == m[k];
      }
    }
  }

  lemma LinesOfLine(s: string)
    requires s != [] && '\n' !in s
    ensures Lines(s) == [s]
  {
    assert forall j :: 0 <= j < |s| ==> s[j] in s;
  }

  lemma LinesCons(a: string, rest: string)
    requires '\n' !in a
    ensures Lines(a + "\n" + rest) == [a + "\n"] + Lines(rest)
  {
    var s := a + "\n" + rest;
    assert forall j :: 0 <= j < |a| ==> s[j] == a[j] && a[j] in a;
    assert s[|a|] == '\n';
    assert FirstIndex(s, '\n') == |a|;
    assert s[..|a| + 1] == a + "\n";
    assert s[|a| + 1..] == rest;
  }

  /** `Array#join` with one more element at the end. */
  lemma {:induction false} JoinSnoc(parts: seq<string>, x: string, sep: string)
    requires parts != []
    ensures Join(parts + [x], sep) == Join(parts, sep) + sep + x
  {
    if |parts| == 1 {
      assert (parts + [x])[1..] == [x];
    } else {
      assert (parts + [x])[1..] == parts[1..] + [x];
      JoinSnoc(parts[1..], x, sep);
    }
  }

  // ---------------------------------------------------------------------------
  // Decimal numbers

  function DigitValue(c: char): (d: nat)
    requires IsDigit(c)
    ensures d < 10
  {
    (c as int - '0' as int) as nat
  }

  function DigitChar(d: nat): (c: char)
    requires d < 10
    ensures IsDigit(c) && DigitValue(c) == d
  {
    ('0' as int + d) as char
  }

  /** The value of a string of decimal digits (0 for the empty string). */
  function DigitsValue(s: string): nat
    requires forall j :: 0 <= j < |s| ==> IsDigit(s[j])
  {
    if s == [] then 0 else 10 * DigitsValue(s[..|s| - 1]) + DigitValue(s[|s| - 1])
  }

  /** `Integer#to_s` for a non-negative integer. */
  function NatToString(n: nat): (s: string)
    ensures s != []
    ensures forall j :: 0 <= j < |s| ==> IsDigit(s[j])
  {
    if n < 10 then [DigitChar(n)] else NatToString(n / 10) + [DigitChar(n % 10)]
  }

  lemma {:induction false} NatToStringValue(n: nat)
    ensures DigitsValue(NatToString(n)) == n
  {
    var s := NatToString(n);
    if n >= 10 {
      NatToStringValue(n / 10);
      assert s[..|s| - 1] == NatToString(n / 10);
    }
  }

  /** `String#to_i`: optional leading space, an optional sign, then the leading digits;
      anything unparsable reads as 0. */
  function RubyToI(s: string): int {
    var t := s[LeadingSpace(s)..];
    if t != [] && (t[0] == '-' || t[0] == '+') then
      var m: int := DigitsValue(t[1..][..LeadingDigits(t[1..])]);
      if t[0] == '-' then -m else m
    else
      DigitsValue(t[..LeadingDigits(t)])
  }

  /** `to_i` reads back what `to_s` wrote, for negative numbers too. */
  lemma ToIOfToS(n: int)
    ensures RubyToI(IntToString(n)) == n
  {
    var a := if n < 0 then -n else n;
    var d := NatToString(a);
    NatToStringValue(a);
    assert LeadingDigits(d) == |d| by { LeadingDigitsAll(d); }
    assert d[..|d|] == d;
    if n < 0 {
      var s := IntToString(n);
      assert s == "-" + d;
      assert LeadingSpace(s) == 0;
      assert s[0..] == s;
      assert s[1..] == d;
    } else {
      assert !IsSpace(d[0]);
      assert LeadingSpace(d) == 0;
      assert d[0..] == d;
    }
  }

  lemma {:induction false} LeadingDigitsAll(s: string)
    requires forall j :: 0 <= j < |s| ==> IsDigit(s[j])
    ensures LeadingDigits(s) == |s|
  {
    if s != [] {
      LeadingDigitsAll(s[1..]);
    }
  }

  /** The digits of a number followed by a character that is not a digit are its whole run. */
  lemma {:induction false} LeadingDigitsPrefix(d: string, t: string)
    requires forall j :: 0 <= j < |d| ==> IsDigit(d[j])
    requires t == [] || !IsDigit(t[0])
    ensures LeadingDigits(d + t) == |d|
    decreases |d|
  {
    if d == [] {
      assert d + t == t;
    } else {
      var s := d + t;
      assert s[0] == d[0] && IsDigit(s[0]);
      assert s[1..] == d[1..] + t;
      LeadingDigitsPrefix(d[1..], t);
    }
  }

  /** `Integer#to_s`, with a minus sign for negative numbers. */
  function IntToString(n: int): string {
    if n < 0 then "-" + NatToString(-n) else NatToString(n)
  }
}
