/**
 * The two regular expressions the typing hint provider runs over a document,
 * in multiline mode:
 *
 *   selective form:     ^[ \t]*from typing import +([a-zA-Z_][a-zA-Z0-9_-]+)
 *   whole-module form:  ^[ \t]*(import +typing +as +([a-zA-Z_][a-zA-Z0-9_-]+)|import +typing)
 *
 * Each is written as a matcher at one position. Every quantifier in them is
 * followed by a character outside its own class (or by the end of the
 * pattern), so the first match a backtracking engine finds is the one that
 * makes every run as long as possible; the matchers compute exactly that.
 * The declarative predicates FromLine, ImportLine and AliasLine describe the
 * same languages by decomposition, and the lemmas below prove that the
 * matchers succeed exactly on the positions those predicates accept.
 */
module TypingPatterns {
  import opened Js

  const FROM_TYPING_IMPORT: string := "from typing import"
  const IMPORT: string := "import"
  const TYPING: string := "typing"
  const AS: string := "as"

  /** The line terminators after which `^` matches in multiline mode. */
  predicate IsLineTerminator(c: char)
  {
    c == '\n' || c == '\r' || c == '\U{2028}' || c == '\U{2029}'
  }

  /** `^` with the `m` flag: the start of the input or just after a line terminator. */
  predicate IsLineStart(s: string, i: int)
  {
    i == 0 || (0 < i <= |s| && IsLineTerminator(s[i - 1]))
  }

  /** The character classes the patterns use: `[ \t]`, ` ` and `[a-zA-Z0-9_-]`. */
  datatype CharClass = Indent | Space | IdentChar

  /** `[a-zA-Z_]`, the first character of an identifier token. */
  predicate IsIdentStart(c: char)
  {
    ('a' <= c <= 'z') || ('A' <= c <= 'Z') || c == '_'
  }

  predicate InClass(k: CharClass, c: char)
  {
    match k
    case Indent => c == ' ' || c == '\t'
    case Space => c == ' '
    case IdentChar => IsIdentStart(c) || ('0' <= c <= '9') || c == '-'
  }

  predicate All(k: CharClass, w: string)
  {
    forall j :: 0 <= j < |w| ==> InClass(k, w[j])
  }

  /** What ` +` matches: one or more spaces. */
  predicate IsGap(w: string)
  {
    |w| > 0 && All(Space, w)
  }

  /** What `[a-zA-Z_][a-zA-Z0-9_-]+` matches: at least two characters. */
  predicate IsIdent(w: string)
  {
    |w| >= 2 && IsIdentStart(w[0]) && All(IdentChar, w[1..])
  }

  /** `lit` occurs in `s` at index `i`. */
  predicate HasAt(s: string, i: int, lit: string)
  {
    0 <= i && i + |lit| <= |s| && s[i..i + |lit|] == lit
  }

  /** The end of the longest run of class `k` starting at `i`. */
  function RunEnd(s: string, i: nat, k: CharClass): (j: nat)
    requires i <= |s|
    ensures i <= j <= |s|
    ensures All(k, s[i..j])
    ensures j == |s| || !InClass(k, s[j])
    decreases |s| - i
  {
    if i < |s| && InClass(k, s[i]) then
      var j := RunEnd(s, i + 1, k);
      assert s[i..j] == [s[i]] + s[i + 1..j];
      j
    else i
  }

  /** A run of class `k` from `i` to `j` that cannot be extended is the longest one. */
  lemma RunEndExact(s: string, i: nat, j: nat, k: CharClass)
    requires i <= j <= |s|
    requires All(k, s[i..j])
    requires j == |s| || !InClass(k, s[j])
    ensures RunEnd(s, i, k) == j
    decreases j - i
  {
    if i < j {
      assert s[i] == s[i..j][0];
      assert s[i + 1..j] == s[i..j][1..];
      RunEndExact(s, i + 1, j, k);
    }
  }

  /** Greedy ` +` from `b`: the end of the spaces, if there is at least one. */
  function AfterGap(s: string, b: nat): (r: Option<nat>)
    requires b <= |s|
    ensures r.Some? <==> b < |s| && s[b] == ' '
    ensures r.Some? ==> b < r.value <= |s| && IsGap(s[b..r.value])
    ensures r.Some? ==> r.value == |s| || s[r.value] != ' '
  {
    var c := RunEnd(s, b, Space);
    if c == b then None else Some(c)
  }

  /** Greedy `[a-zA-Z_][a-zA-Z0-9_-]+` from `c`: the end of the identifier,
      if one starts there. */
  function IdentAt(s: string, c: nat): (r: Option<nat>)
    requires c <= |s|
    ensures r.Some? <==> c + 2 <= |s| && IsIdentStart(s[c]) && InClass(IdentChar, s[c + 1])
    ensures r.Some? ==> c + 2 <= r.value <= |s| && IsIdent(s[c..r.value])
    ensures r.Some? ==> r.value == |s| || !InClass(IdentChar, s[r.value])
  {
    if c == |s| || !IsIdentStart(s[c]) then None
    else
      var e := RunEnd(s, c + 1, IdentChar);
      if e == c + 1 then None
      else
        assert s[c..e][1..] == s[c + 1..e];
        Some(e)
  }

  /** The result of `RegExp.prototype.exec`: the index of the match, the
      matched text (group 0) and the capture groups 1, 2, ... */
  datatype Match = Match(index: nat, text: string, captures: seq<JsString>)

  /** `m[k]`: group 0 is the matched text; an index past the last capture
      group is `undefined`, as JavaScript array indexing gives. */
  function Group(m: Match, k: nat): JsString
  {
    if k == 0 then Str(m.text)
    else if k - 1 < |m.captures| then m.captures[k - 1]
    else Undefined
  }

  /** The selective pattern tried at index `i`. */
  function FromAt(s: string, i: nat): (r: Option<Match>)
    requires i <= |s|
    ensures r.Some? ==> r.value.index == i && |r.value.captures| == 1 && r.value.captures[0].Str?
    ensures r.Some? ==> IsIdent(r.value.captures[0].s) && |r.value.text| > |FROM_TYPING_IMPORT|
  {
    var a := RunEnd(s, i, Indent);
    if !HasAt(s, a, FROM_TYPING_IMPORT) then None
    else
      match AfterGap(s, a + |FROM_TYPING_IMPORT|)
      case None => None
      case Some(c) =>
        match IdentAt(s, c)
        case None => None
        case Some(e) => Some(Match(i, s[i..e], [Str(s[c..e])]))
  }

  /** `import +typing` from `a`: the index just after `typing`. */
  function PlainImportEnd(s: string, a: nat): (r: Option<nat>)
    requires a <= |s|
    ensures r.Some? ==> a + |IMPORT| + 1 + |TYPING| <= r.value <= |s|
  {
    if !HasAt(s, a, IMPORT) then None
    else
      match AfterGap(s, a + |IMPORT|)
      case None => None
      case Some(c) => if HasAt(s, c, TYPING) then Some(c + |TYPING|) else None
  }

  /** ` +as +([a-zA-Z_][a-zA-Z0-9_-]+)` from `d`: where the alias starts and ends. */
  function AliasAt(s: string, d: nat): (r: Option<(nat, nat)>)
    requires d <= |s|
    ensures r.Some? ==> d < r.value.0 && r.value.0 + 2 <= r.value.1 <= |s|
  {
    match AfterGap(s, d)
    case None => None
    case Some(e) =>
      if !HasAt(s, e, AS) then None
      else
        match AfterGap(s, e + |AS|)
        case None => None
        case Some(g) =>
          match IdentAt(s, g)
          case None => None
          case Some(h) => Some((g, h))
  }

  /** The whole-module pattern tried at index `i`; the aliased alternative
      is tried first. Group 1 is the text after the indentation, group 2 the
      alias, which does not take part in a plain `import typing` match. */
  function ImportAt(s: string, i: nat): (r: Option<Match>)
    requires i <= |s|
    ensures r.Some? ==> r.value.index == i && |r.value.captures| == 2 && r.value.captures[0].Str?
    ensures r.Some? ==> |r.value.text| >= |IMPORT| + |TYPING|
    ensures r.Some? && r.value.captures[1].Str? ==> IsIdent(r.value.captures[1].s)
  {
    var a := RunEnd(s, i, Indent);
    match PlainImportEnd(s, a)
    case None => None
    case Some(d) =>
      match AliasAt(s, d)
      case Some((g, h)) => Some(Match(i, s[i..h], [Str(s[a..h]), Str(s[g..h])]))
      case None => Some(Match(i, s[i..d], [Str(s[a..d]), Undefined]))
  }

  /** The groups the provider reads off a whole-module match: `m[2]` is
      truthy exactly when the aliased alternative took part, since an alias
      is never empty, and `m[3]` does not exist, so it is `undefined`. */
  lemma ImportAtGroups(s: string, i: nat)
    requires i <= |s| && ImportAt(s, i).Some?
    ensures Truthy(Group(ImportAt(s, i).value, 2)) <==> ImportAt(s, i).value.captures[1].Str?
    ensures Group(ImportAt(s, i).value, 3) == Undefined
  {
  }

  /** The two regular expressions. */
  datatype Pattern = FromTypingImport | ImportTyping

  /** The groups each pattern's matches carry: the selective pattern one
      (the identifier), the whole-module pattern two (the text after the
      indentation, and the alias, which is `undefined` unless the aliased
      alternative matched). */
  predicate WellFormed(pat: Pattern, m: Match)
  {
    && m.text != "" && m.captures != [] && m.captures[0].Str?
    && match pat
       case FromTypingImport => |m.captures| == 1 && IsIdent(m.captures[0].s)
       case ImportTyping => |m.captures| == 2 && (m.captures[1].Str? ==> IsIdent(m.captures[1].s))
  }

  function MatchAt(pat: Pattern, s: string, i: nat): (r: Option<Match>)
    requires i <= |s|
    ensures r.Some? ==> r.value.index == i && WellFormed(pat, r.value)
  {
    match pat
    case FromTypingImport => FromAt(s, i)
    case ImportTyping => ImportAt(s, i)
  }

  /** Whether `pat` matches at index `j` of `s`. */
  function Hits(pat: Pattern, s: string): nat -> bool
  {
    (j: nat) => j <= |s| && MatchAt(pat, s, j).Some?
  }

  /** The first line start of `s`, at or after `i`, where `hit` holds. */
  function FirstLineStart(s: string, hit: nat -> bool, i: nat): (r: Option<nat>)
    requires i <= |s|
    ensures r.Some? ==> i <= r.value <= |s| && IsLineStart(s, r.value) && hit(r.value)
    decreases |s| - i
  {
    if IsLineStart(s, i) && hit(i) then Some(i)
    else if i == |s| then None
    else FirstLineStart(s, hit, i + 1)
  }

  /** No line start that FirstLineStart passes over satisfies `hit`. */
  lemma {:induction false} FirstLineStartLeast(s: string, hit: nat -> bool, i: nat)
    requires i <= |s|
    ensures FirstLineStart(s, hit, i).Some? ==>
              forall j :: i <= j < FirstLineStart(s, hit, i).value && IsLineStart(s, j) ==> !hit(j)
    ensures FirstLineStart(s, hit, i).None? ==>
              forall j :: i <= j <= |s| && IsLineStart(s, j) ==> !hit(j)
    decreases |s| - i
  {
    if !(IsLineStart(s, i) && hit(i)) && i < |s| {
      FirstLineStartLeast(s, hit, i + 1);
    }
  }

  /** The leftmost match at or after `i`: tried at every line start in turn. */
  function SearchFrom(pat: Pattern, s: string, i: nat): (r: Option<Match>)
    requires i <= |s|
    ensures r.Some? ==> i <= r.value.index <= |s| && IsLineStart(s, r.value.index)
                        && MatchAt(pat, s, r.value.index) == r
  {
    match FirstLineStart(s, Hits(pat, s), i)
    case None => None
    case Some(j) => MatchAt(pat, s, j)
  }

  /** The search finds the leftmost match: no line start it passes over
      has one, and when it finds nothing no line start from `i` on has one. */
  lemma SearchFromLeftmost(pat: Pattern, s: string, i: nat)
    requires i <= |s|
    ensures SearchFrom(pat, s, i).Some? ==>
              forall j :: i <= j < SearchFrom(pat, s, i).value.index && IsLineStart(s, j) ==> MatchAt(pat, s, j).None?
    ensures SearchFrom(pat, s, i).None? ==>
              forall j :: i <= j <= |s| && IsLineStart(s, j) ==> MatchAt(pat, s, j).None?
  {
    var first := FirstLineStart(s, Hits(pat, s), i);
    FirstLineStartLeast(s, Hits(pat, s), i);
    var end := if first.Some? then first.value else |s| + 1;
    forall j | i <= j < end && IsLineStart(s, j) ensures MatchAt(pat, s, j).None? {
      assert !Hits(pat, s)(j);
    }
  }

  /** `new RegExp(pattern, "m").exec(s)`. */
  function Exec(pat: Pattern, s: string): (r: Option<Match>)
    ensures r.Some? ==> WellFormed(pat, r.value)
  {
    SearchFrom(pat, s, 0)
  }

  // The languages of the two patterns, by decomposition.

  /** `[ \t]*from typing import +[a-zA-Z_][a-zA-Z0-9_-]+` */
  ghost predicate FromLine(w: string)
  {
    exists p, q, id :: All(Indent, p) && IsGap(q) && IsIdent(id) && w == p + (FROM_TYPING_IMPORT + (q + id))
  }

  /** `[ \t]*import +typing` */
  ghost predicate ImportLine(w: string)
  {
    exists p, q :: All(Indent, p) && IsGap(q) && w == p + (IMPORT + (q + TYPING))
  }

  /** `[ \t]*import +typing +as +[a-zA-Z_][a-zA-Z0-9_-]+` */
  ghost predicate AliasLine(w: string)
  {
    exists u, q, q', id :: ImportLine(u) && IsGap(q) && IsGap(q') && IsIdent(id) && w == u + (q + (AS + (q' + id)))
  }

  /** `w` is a word of the selective pattern whose identifier token is `id`. */
  ghost predicate FromLineOf(w: string, id: string)
  {
    exists p, q :: All(Indent, p) && IsGap(q) && IsIdent(id) && w == p + (FROM_TYPING_IMPORT + (q + id))
  }

  /** `w` is a word of the aliased pattern whose alias token is `id`. */
  ghost predicate AliasLineOf(w: string, id: string)
  {
    exists u, q, q' :: ImportLine(u) && IsGap(q) && IsGap(q') && IsIdent(id) && w == u + (q + (AS + (q' + id)))
  }

  /** The text from `i` on begins with a word of the given pattern. */
  ghost predicate FollowedBy(pat: Pattern, s: string, i: nat)
  {
    match pat
    case FromTypingImport => exists e :: i <= e <= |s| && FromLine(s[i..e])
    case ImportTyping => exists e :: i <= e <= |s| && ImportLine(s[i..e])
  }

  ghost predicate FollowedByAlias(s: string, i: nat)
  {
    exists e :: i <= e <= |s| && AliasLine(s[i..e])
  }

  /** What a successful selective match at `i` consists of: a word of the
      pattern that the next character cannot extend, whose one capture group
      is its whole identifier token. */
  ghost predicate FromShape(s: string, i: nat, m: Match)
  {
    var e := i + |m.text|;
    && e <= |s| && m.text == s[i..e]
    && (e == |s| || !InClass(IdentChar, s[e]))
    && |m.captures| == 1 && m.captures[0].Str?
    && FromLineOf(m.text, m.captures[0].s)
  }

  /** What a successful whole-module match at `i` consists of. When group 2
      took part, the match is the aliased form with the longest alias; when
      it did not, the match is the plain form and the aliased form does not
      match at `i` at all. */
  ghost predicate ImportShape(s: string, i: nat, m: Match)
  {
    var e := i + |m.text|;
    && e <= |s| && m.text == s[i..e]
    && |m.captures| == 2 && m.captures[0].Str?
    && (m.captures[1].Str? ==>
          && AliasLineOf(m.text, m.captures[1].s)
          && (e == |s| || !InClass(IdentChar, s[e])))
    && (m.captures[1].Undefined? ==> ImportLine(m.text) && !FollowedByAlias(s, i))
  }

  /** A selective word ends with its identifier right after a space. */
  lemma FromLineOfSuffix(w: string, id: string)
    requires FromLineOf(w, id)
    ensures |id| < |w| && w[|w| - |id|..] == id && w[|w| - |id| - 1] == ' '
  {
    var p, q :| All(Indent, p) && IsGap(q) && IsIdent(id) && w == p + (FROM_TYPING_IMPORT + (q + id));
    var v := p + FROM_TYPING_IMPORT + q;
    assert w == v + id;
    assert w[|w| - |id| - 1] == q[|q| - 1];
  }

  /** An aliased word ends with its alias right after a space. */
  lemma AliasLineOfSuffix(w: string, id: string)
    requires AliasLineOf(w, id)
    ensures |id| < |w| && w[|w| - |id|..] == id && w[|w| - |id| - 1] == ' '
  {
    var u, q, q' :| ImportLine(u) && IsGap(q) && IsGap(q') && IsIdent(id) && w == u + (q + (AS + (q' + id)));
    var v := u + q + AS + q';
    assert w == v + id;
    assert w[|w| - |id| - 1] == q'[|q'| - 1];
  }

  /** Two identifiers that each end `w` right after a space are the same:
      the space-free token after the last space of `w`. */
  lemma SuffixAfterSpaceUnique(w: string, x: string, y: string)
    requires IsIdent(x) && |x| < |w| && w[|w| - |x|..] == x && w[|w| - |x| - 1] == ' '
    requires IsIdent(y) && |y| < |w| && w[|w| - |y|..] == y && w[|w| - |y| - 1] == ' '
    ensures x == y
  {
    if |x| < |y| {
      IdentNoSpace(y, |y| - |x| - 1);
    } else if |y| < |x| {
      IdentNoSpace(x, |x| - |y| - 1);
    }
  }

  /** A selective word has one identifier: the whole token after its gap. */
  lemma FromLineOfUnique(w: string, x: string, y: string)
    requires FromLineOf(w, x) && FromLineOf(w, y)
    ensures x == y
  {
    FromLineOfSuffix(w, x);
    FromLineOfSuffix(w, y);
    SuffixAfterSpaceUnique(w, x, y);
  }

  /** An aliased word has one alias: the whole token after its last gap. */
  lemma AliasLineOfUnique(w: string, x: string, y: string)
    requires AliasLineOf(w, x) && AliasLineOf(w, y)
    ensures x == y
  {
    AliasLineOfSuffix(w, x);
    AliasLineOfSuffix(w, y);
    SuffixAfterSpaceUnique(w, x, y);
  }

  /** No character of an identifier is a space. */
  lemma IdentNoSpace(w: string, k: nat)
    requires IsIdent(w) && k < |w|
    ensures w[k] != ' '
  {
    if k > 0 {
      assert w[k] == w[1..][k - 1];
    }
  }

  /** Two adjacent slices make up the slice that spans them. */
  lemma Cut(s: string, i: nat, j: nat, k: nat)
    requires i <= j <= k <= |s|
    ensures s[i..k] == s[i..j] + s[j..k]
  {
  }

  /** A slice that is a concatenation splits at the length of its first part. */
  lemma Uncut(s: string, i: nat, k: nat, x: string, y: string)
    requires i <= k <= |s| && s[i..k] == x + y
    ensures i + |x| <= k && s[i..i + |x|] == x && s[i + |x|..k] == y
  {
    assert s[i..i + |x|] == (x + y)[..|x|];
    assert s[i + |x|..k] == (x + y)[|x|..];
  }

  /** What a selective match at `i` consists of: the word of the pattern
      that ends where the identifier ends, with the identifier captured. */
  lemma FromAtSound(s: string, i: nat)
    requires i <= |s| && FromAt(s, i).Some?
    ensures FromShape(s, i, FromAt(s, i).value)
  {
    var a := RunEnd(s, i, Indent);
    var b := a + |FROM_TYPING_IMPORT|;
    assert HasAt(s, a, FROM_TYPING_IMPORT);
    var c := AfterGap(s, b).value;
    var e := IdentAt(s, c).value;
    assert FromAt(s, i).value == Match(i, s[i..e], [Str(s[c..e])]);
    FromWord(s, i, a, c, e);
    FromShapeOf(s, i, c, e, FromAt(s, i).value);
  }

  /** The selective match built from a word whose identifier is `s[c..e]`. */
  lemma FromShapeOf(s: string, i: nat, c: nat, e: nat, m: Match)
    requires i <= c <= e <= |s| && m == Match(i, s[i..e], [Str(s[c..e])])
    requires FromLineOf(s[i..e], s[c..e]) && (e == |s| || !InClass(IdentChar, s[e]))
    ensures FromShape(s, i, m)
  {
    assert m.captures[0].s == s[c..e] && |m.text| == e - i;
  }

  /** A word whose parts are at the given positions is a selective word. */
  lemma FromWord(s: string, i: nat, a: nat, c: nat, e: nat)
    requires i <= a && a + |FROM_TYPING_IMPORT| < c <= e <= |s|
    requires All(Indent, s[i..a]) && s[a..a + |FROM_TYPING_IMPORT|] == FROM_TYPING_IMPORT
    requires IsGap(s[a + |FROM_TYPING_IMPORT|..c]) && IsIdent(s[c..e])
    ensures FromLineOf(s[i..e], s[c..e])
  {
    FromCut(s, i, a, c, e);
  }

  /** A selective word with a given identifier is a selective word. */
  lemma FromLineOfLine(w: string, id: string)
    requires FromLineOf(w, id)
    ensures FromLine(w)
  {
    var p, q :| All(Indent, p) && IsGap(q) && IsIdent(id) && w == p + (FROM_TYPING_IMPORT + (q + id));
  }

  /** The slice of a selective word, cut at its part boundaries. */
  lemma FromCut(s: string, i: nat, a: nat, c: nat, e: nat)
    requires i <= a && a + |FROM_TYPING_IMPORT| <= c <= e <= |s|
    requires s[a..a + |FROM_TYPING_IMPORT|] == FROM_TYPING_IMPORT
    ensures s[i..e] == s[i..a] + (FROM_TYPING_IMPORT + (s[a + |FROM_TYPING_IMPORT|..c] + s[c..e]))
  {
    var b := a + |FROM_TYPING_IMPORT|;
    Cut(s, b, c, e);
    Cut(s, a, b, e);
    Cut(s, i, a, e);
  }

  /** The selective matcher succeeds on a word given by its parts' positions. */
  lemma FromPieces(s: string, i: nat, a: nat, c: nat, e: nat)
    requires i <= a && a + |FROM_TYPING_IMPORT| < c <= e <= |s|
    requires All(Indent, s[i..a]) && s[a..a + |FROM_TYPING_IMPORT|] == FROM_TYPING_IMPORT
    requires IsGap(s[a + |FROM_TYPING_IMPORT|..c]) && IsIdent(s[c..e])
    ensures FromAt(s, i).Some?
  {
    assert s[a] == s[a..a + |FROM_TYPING_IMPORT|][0];
    assert s[c] == s[c..e][0] && s[c + 1] == s[c..e][1];
    RunEndExact(s, i, a, Indent);
    RunEndExact(s, a + |FROM_TYPING_IMPORT|, c, Space);
  }

  /** The positions of the parts of a selective word. */
  lemma FromParts(s: string, i: nat, e: nat) returns (a: nat, c: nat)
    requires i <= e <= |s| && FromLine(s[i..e])
    ensures i <= a && a + |FROM_TYPING_IMPORT| < c <= e
    ensures All(Indent, s[i..a]) && s[a..a + |FROM_TYPING_IMPORT|] == FROM_TYPING_IMPORT
    ensures IsGap(s[a + |FROM_TYPING_IMPORT|..c]) && IsIdent(s[c..e])
  {
    var p, q, id :| All(Indent, p) && IsGap(q) && IsIdent(id) && s[i..e] == p + (FROM_TYPING_IMPORT + (q + id));
    a := i + |p|;
    Uncut(s, i, e, p, FROM_TYPING_IMPORT + (q + id));
    var b := a + |FROM_TYPING_IMPORT|;
    Uncut(s, a, e, FROM_TYPING_IMPORT, q + id);
    Uncut(s, b, e, q, id);
    c := b + |q|;
  }

  lemma FromAtComplete(s: string, i: nat, e: nat)
    requires i <= e <= |s|
    ensures FromLine(s[i..e]) ==> FromAt(s, i).Some?
  {
    if FromLine(s[i..e]) {
      var a, c := FromParts(s, i, e);
      FromPieces(s, i, a, c, e);
    }
  }

  /** The selective matcher succeeds at `i` exactly when the text from `i`
      begins with a word of the selective pattern, and then yields that word. */
  lemma {:induction false} FromAtCharacterized(s: string, i: nat)
    requires i <= |s|
    ensures FromAt(s, i).Some? <==> FollowedBy(FromTypingImport, s, i)
    ensures FromAt(s, i).Some? ==> FromShape(s, i, FromAt(s, i).value)
  {
    if FromAt(s, i).Some? {
      FromAtSound(s, i);
      var m := FromAt(s, i).value;
      FromLineOfLine(m.text, m.captures[0].s);
      assert FromLine(s[i..i + |m.text|]);
    } else {
      forall e | i <= e <= |s| ensures !FromLine(s[i..e]) {
        FromAtComplete(s, i, e);
      }
    }
  }

  /** `import +typing` is found on a word given by its parts' positions. */
  lemma PlainImportPieces(s: string, i: nat, a: nat, c: nat, d: nat)
    requires i <= a && a + |IMPORT| < c && c + |TYPING| == d <= |s|
    requires All(Indent, s[i..a]) && s[a..a + |IMPORT|] == IMPORT
    requires IsGap(s[a + |IMPORT|..c]) && s[c..d] == TYPING
    ensures PlainImportEnd(s, RunEnd(s, i, Indent)) == Some(d)
  {
    assert s[a] == s[a..a + |IMPORT|][0];
    assert s[c] == s[c..d][0];
    RunEndExact(s, i, a, Indent);
    RunEndExact(s, a + |IMPORT|, c, Space);
  }

  /** A plain `import typing` word from `i` to `e` is found by the matcher. */
  lemma PlainImportExact(s: string, i: nat, e: nat)
    requires i <= e <= |s| && ImportLine(s[i..e])
    ensures PlainImportEnd(s, RunEnd(s, i, Indent)) == Some(e)
  {
    var p, q :| All(Indent, p) && IsGap(q) && s[i..e] == p + (IMPORT + (q + TYPING));
    var a := i + |p|;
    Uncut(s, i, e, p, IMPORT + (q + TYPING));
    var b := a + |IMPORT|;
    Uncut(s, a, e, IMPORT, q + TYPING);
    Uncut(s, b, e, q, TYPING);
    assert s[i..a] == p && s[a..b] == IMPORT;
    assert s[b..b + |q|] == q && s[b + |q|..e] == TYPING;
    PlainImportPieces(s, i, a, b + |q|, e);
  }

  /** ` +as +alias` is found on a word given by its parts' positions. */
  lemma AliasPieces(s: string, d: nat, f: nat, g: nat, h: nat)
    requires d < f && f + |AS| < g <= h <= |s|
    requires IsGap(s[d..f]) && s[f..f + |AS|] == AS
    requires IsGap(s[f + |AS|..g]) && IsIdent(s[g..h])
    ensures AliasAt(s, d).Some?
  {
    assert s[f] == s[f..f + |AS|][0];
    assert s[g] == s[g..h][0] && s[g + 1] == s[g..h][1];
    RunEndExact(s, d, f, Space);
    RunEndExact(s, f + |AS|, g, Space);
  }

  /** The positions of the parts of an aliased word. */
  lemma AliasParts(s: string, i: nat, e: nat) returns (d: nat, f: nat, g: nat)
    requires i <= e <= |s| && AliasLine(s[i..e])
    ensures i <= d < f && f + |AS| < g <= e
    ensures ImportLine(s[i..d]) && IsGap(s[d..f]) && s[f..f + |AS|] == AS
    ensures IsGap(s[f + |AS|..g]) && IsIdent(s[g..e])
  {
    var u, q, q', id :| ImportLine(u) && IsGap(q) && IsGap(q') && IsIdent(id) && s[i..e] == u + (q + (AS + (q' + id)));
    d := i + |u|;
    Uncut(s, i, e, u, q + (AS + (q' + id)));
    f := d + |q|;
    Uncut(s, d, e, q, AS + (q' + id));
    Uncut(s, f, e, AS, q' + id);
    Uncut(s, f + |AS|, e, q', id);
    g := f + |AS| + |q'|;
  }

  lemma AliasComplete(s: string, i: nat, e: nat)
    requires i <= e <= |s|
    ensures AliasLine(s[i..e]) ==> ImportAt(s, i).Some? && ImportAt(s, i).value.captures[1].Str?
  {
    if AliasLine(s[i..e]) {
      var d, f, g := AliasParts(s, i, e);
      PlainImportExact(s, i, d);
      AliasPieces(s, d, f, g, e);
    }
  }

  lemma ImportAtComplete(s: string, i: nat, e: nat)
    requires i <= e <= |s|
    ensures ImportLine(s[i..e]) ==> ImportAt(s, i).Some?
  {
    if ImportLine(s[i..e]) {
      PlainImportExact(s, i, e);
    }
  }

  /** A word whose parts are at the given positions is an `import typing` word. */
  lemma ImportWord(s: string, i: nat, a: nat, c: nat, d: nat)
    requires i <= a && a + |IMPORT| < c && c + |TYPING| == d <= |s|
    requires All(Indent, s[i..a]) && s[a..a + |IMPORT|] == IMPORT
    requires IsGap(s[a + |IMPORT|..c]) && s[c..d] == TYPING
    ensures ImportLine(s[i..d])
  {
    ImportCut(s, i, a, c, d);
  }

  /** The slice of an `import typing` word, cut at its part boundaries. */
  lemma ImportCut(s: string, i: nat, a: nat, c: nat, d: nat)
    requires i <= a && a + |IMPORT| < c && c + |TYPING| == d <= |s|
    requires s[a..a + |IMPORT|] == IMPORT && s[c..d] == TYPING
    ensures s[i..d] == s[i..a] + (IMPORT + (s[a + |IMPORT|..c] + TYPING))
  {
    var b := a + |IMPORT|;
    Cut(s, b, c, d);
    Cut(s, a, b, d);
    Cut(s, i, a, d);
  }

  /** The plain prefix of every whole-module match is an `import typing` word. */
  lemma PlainImportSound(s: string, i: nat)
    requires i <= |s| && PlainImportEnd(s, RunEnd(s, i, Indent)).Some?
    ensures ImportLine(s[i..PlainImportEnd(s, RunEnd(s, i, Indent)).value])
  {
    var a := RunEnd(s, i, Indent);
    var c := AfterGap(s, a + |IMPORT|).value;
    ImportWord(s, i, a, c, c + |TYPING|);
  }

  /** A word whose parts are at the given positions is an aliased word. */
  lemma AliasWord(s: string, i: nat, d: nat, f: nat, g: nat, h: nat)
    requires i <= d < f && f + |AS| < g <= h <= |s|
    requires ImportLine(s[i..d]) && IsGap(s[d..f]) && s[f..f + |AS|] == AS
    requires IsGap(s[f + |AS|..g]) && IsIdent(s[g..h])
    ensures AliasLine(s[i..h]) && AliasLineOf(s[i..h], s[g..h])
  {
    AliasCut(s, i, d, f, g, h);
  }

  /** The slice of an aliased word, cut at its four part boundaries. */
  lemma AliasCut(s: string, i: nat, d: nat, f: nat, g: nat, h: nat)
    requires i <= d < f && f + |AS| < g <= h <= |s| && s[f..f + |AS|] == AS
    ensures s[i..h] == s[i..d] + (s[d..f] + (AS + (s[f + |AS|..g] + s[g..h])))
  {
    var f' := f + |AS|;
    Cut(s, f', g, h);
    Cut(s, f, f', h);
    Cut(s, d, f, h);
    Cut(s, i, d, h);
  }

  /** Where the parts of the aliased continuation the matcher finds lie. */
  lemma AliasAtParts(s: string, d: nat) returns (f: nat, g: nat)
    requires d <= |s| && AliasAt(s, d).Some?
    ensures d < f && f + |AS| < g == AliasAt(s, d).value.0
    ensures IsGap(s[d..f]) && s[f..f + |AS|] == AS && IsGap(s[f + |AS|..g])
    ensures var h := AliasAt(s, d).value.1;
            && h <= |s| && IsIdent(s[g..h]) && (h == |s| || !InClass(IdentChar, s[h]))
  {
    f := AfterGap(s, d).value;
    assert HasAt(s, f, AS);
    g := AfterGap(s, f + |AS|).value;
    assert AliasAt(s, d).value == (g, IdentAt(s, g).value);
  }

  /** The aliased continuation the matcher finds is an aliased word. */
  lemma AliasSound(s: string, i: nat, d: nat)
    requires i <= d <= |s| && ImportLine(s[i..d]) && AliasAt(s, d).Some?
    ensures AliasLine(s[i..AliasAt(s, d).value.1])
    ensures AliasLineOf(s[i..AliasAt(s, d).value.1], s[AliasAt(s, d).value.0..AliasAt(s, d).value.1])
  {
    var f, g := AliasAtParts(s, d);
    AliasWord(s, i, d, f, g, AliasAt(s, d).value.1);
  }

  /** What a whole-module match at `i` consists of: the aliased word with
      its alias at the end, or the plain word where no aliased word starts. */
  lemma ImportAtSound(s: string, i: nat)
    requires i <= |s| && ImportAt(s, i).Some?
    ensures ImportShape(s, i, ImportAt(s, i).value)
  {
    var a := RunEnd(s, i, Indent);
    var d := PlainImportEnd(s, a).value;
    PlainImportSound(s, i);
    if AliasAt(s, d).Some? {
      AliasSound(s, i, d);
      AliasShape(s, i, a, d);
    } else {
      forall e | i <= e <= |s| ensures !AliasLine(s[i..e]) {
        AliasComplete(s, i, e);
      }
      assert ImportAt(s, i).value == Match(i, s[i..d], [Str(s[a..d]), Undefined]);
    }
  }

  /** The aliased match ends its text with the alias, right before a
      character that cannot continue it. */
  lemma AliasShape(s: string, i: nat, a: nat, d: nat)
    requires i <= a <= d <= |s| && a == RunEnd(s, i, Indent)
    requires PlainImportEnd(s, a) == Some(d) && AliasAt(s, d).Some?
    requires AliasLineOf(s[i..AliasAt(s, d).value.1], s[AliasAt(s, d).value.0..AliasAt(s, d).value.1])
    ensures ImportShape(s, i, ImportAt(s, i).value)
  {
    var f, g := AliasAtParts(s, d);
    var h := AliasAt(s, d).value.1;
    assert ImportAt(s, i).value == Match(i, s[i..h], [Str(s[a..h]), Str(s[g..h])]);
    AliasShapeOf(s, i, a, g, h, ImportAt(s, i).value);
  }

  /** The aliased match built from a word whose alias is `s[g..h]`. */
  lemma AliasShapeOf(s: string, i: nat, a: nat, g: nat, h: nat, m: Match)
    requires i <= a <= g <= h <= |s| && m == Match(i, s[i..h], [Str(s[a..h]), Str(s[g..h])])
    requires AliasLineOf(s[i..h], s[g..h]) && (h == |s| || !InClass(IdentChar, s[h]))
    ensures ImportShape(s, i, m)
  {
    assert m.captures[1].s == s[g..h] && |m.text| == h - i;
  }

  /** A successful whole-module match shows that `import typing` follows `i`,
      and that the aliased form does exactly when group 2 took part. */
  lemma ImportAtFollowed(s: string, i: nat)
    requires i <= |s| && ImportAt(s, i).Some?
    ensures FollowedBy(ImportTyping, s, i)
    ensures ImportAt(s, i).value.captures[1].Str? <==> FollowedByAlias(s, i)
  {
    var d := PlainImportEnd(s, RunEnd(s, i, Indent)).value;
    PlainImportSound(s, i);
    assert ImportLine(s[i..d]);
    if AliasAt(s, d).Some? {
      AliasSound(s, i, d);
      assert AliasLine(s[i..AliasAt(s, d).value.1]);
    } else {
      forall e | i <= e <= |s| ensures !AliasLine(s[i..e]) {
        AliasComplete(s, i, e);
      }
    }
  }

  /** The whole-module matcher succeeds at `i` exactly when the text from
      `i` begins with `[ \t]*import +typing`; it captures an alias exactly
      when the aliased form matches there too. */
  lemma {:induction false} ImportAtCharacterized(s: string, i: nat)
    requires i <= |s|
    ensures ImportAt(s, i).Some? <==> FollowedBy(ImportTyping, s, i)
    ensures ImportAt(s, i).Some? ==>
              && ImportShape(s, i, ImportAt(s, i).value)
              && (ImportAt(s, i).value.captures[1].Str? <==> FollowedByAlias(s, i))
  {
    if ImportAt(s, i).Some? {
      ImportAtSound(s, i);
      ImportAtFollowed(s, i);
    } else {
      forall e | i <= e <= |s| ensures !ImportLine(s[i..e]) {
        ImportAtComplete(s, i, e);
      }
    }
  }

  lemma MatchAtCharacterized(pat: Pattern, s: string, i: nat)
    requires i <= |s|
    ensures MatchAt(pat, s, i).Some? <==> FollowedBy(pat, s, i)
  {
    match pat
    case FromTypingImport => FromAtCharacterized(s, i);
    case ImportTyping => ImportAtCharacterized(s, i);
  }

  /** `s` holds no line terminator, so its only line start is index 0. */
  predicate SingleLine(s: string)
  {
    '\n' !in s && '\r' !in s && '\U{2028}' !in s && '\U{2029}' !in s
  }

  /** On a single line no search from a later index finds anything. */
  lemma {:induction false} SingleLineSearch(pat: Pattern, s: string, i: nat)
    requires 0 < i <= |s| && SingleLine(s)
    ensures SearchFrom(pat, s, i).None?
    decreases |s| - i
  {
    assert s[i - 1] in s;
    if i < |s| {
      SingleLineSearch(pat, s, i + 1);
    }
  }

  /** The search passes over indices that are not line starts: those
      whose preceding character, in `s[i - 1..j - 1]`, is no terminator. */
  lemma {:induction false} SearchSkips(pat: Pattern, s: string, i: nat, j: nat)
    requires 0 < i <= j <= |s| && SingleLine(s[i - 1..j - 1])
    ensures SearchFrom(pat, s, i) == SearchFrom(pat, s, j)
    decreases j - i
  {
    if i < j {
      assert s[i - 1] == s[i - 1..j - 1][0];
      assert s[i..j - 1] == s[i - 1..j - 1][1..];
      SearchSkips(pat, s, i + 1, j);
    }
  }

  /** On a single line `exec` is the matcher tried at index 0. */
  lemma SingleLineExec(pat: Pattern, s: string)
    requires SingleLine(s)
    ensures Exec(pat, s) == MatchAt(pat, s, 0)
  {
    if |s| > 0 && MatchAt(pat, s, 0).None? {
      SingleLineSearch(pat, s, 1);
    }
  }

  /** `exec` finds nothing exactly when no line start is followed by a word
      of the pattern; otherwise it finds the first line start that is. */
  lemma ExecCharacterized(pat: Pattern, s: string)
    ensures Exec(pat, s).None? <==> forall i :: 0 <= i <= |s| && IsLineStart(s, i) ==> !FollowedBy(pat, s, i)
    ensures Exec(pat, s).Some? ==>
              var i := Exec(pat, s).value.index;
              && i <= |s| && IsLineStart(s, i) && FollowedBy(pat, s, i)
              && Exec(pat, s) == MatchAt(pat, s, i)
              && forall j :: 0 <= j < i && IsLineStart(s, j) ==> !FollowedBy(pat, s, j)
  {
    SearchFromLeftmost(pat, s, 0);
    forall i | 0 <= i <= |s| ensures MatchAt(pat, s, i).Some? <==> FollowedBy(pat, s, i) {
      MatchAtCharacterized(pat, s, i);
    }
  }
}
