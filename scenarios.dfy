/**
 * What the scan detects on one- and two-line documents built from the
 * patterns' own words, for any identifiers put in them: the consequences of the
 * identifier token, of the missing word boundary and of the order of the
 * alternatives.
 */
module Scenarios {
  import opened Js
  import opened TypingPatterns
  import opened TypingHint

  /** Where `import typing` ends when it opens a document. */
  const PLAIN_END: nat := |IMPORT| + 1 + |TYPING|

  /** Where the alias starts in `import typing as w`. */
  const ALIAS_START: nat := PLAIN_END + 1 + |AS| + 1

  /** Two pieces without a line terminator make one. */
  lemma SingleLineConcat(x: string, y: string)
    requires SingleLine(x) && SingleLine(y)
    ensures SingleLine(x + y)
  {
  }

  /** The words of the whole-module pattern hold no line terminator. */
  lemma WordsSingleLine()
    ensures SingleLine(IMPORT + " " + TYPING)
    ensures SingleLine(IMPORT + " " + TYPING + " " + AS + " ")
  {
  }

  /** Identifiers hold no line terminator. */
  lemma IdentSingleLine(w: string)
    requires IsIdent(w)
    ensures SingleLine(w)
  {
    forall j | 0 <= j < |w| ensures !IsLineTerminator(w[j]) {
      if j > 0 {
        assert w[j] == w[1..][j - 1];
      }
    }
  }

  /** The pieces of `from typing import A` written at `i`. */
  lemma SelectiveSlices(s: string, i: nat, a: string, rest: string)
    requires i <= |s| && s[i..] == FROM_TYPING_IMPORT + (" " + (a + rest))
    ensures i + |FROM_TYPING_IMPORT| + 1 + |a| <= |s| && s[i..i + |FROM_TYPING_IMPORT|] == FROM_TYPING_IMPORT && s[i + |FROM_TYPING_IMPORT|] == ' '
    ensures s[i + |FROM_TYPING_IMPORT| + 1..i + |FROM_TYPING_IMPORT| + 1 + |a|] == a && s[i + |FROM_TYPING_IMPORT| + 1 + |a|..] == rest
    ensures s[i..i + |FROM_TYPING_IMPORT| + 1 + |a|] == FROM_TYPING_IMPORT + " " + a
  {
    var b := i + |FROM_TYPING_IMPORT|;
    var e := b + 1 + |a|;
    assert s[i..|s|] == s[i..];
    Uncut(s, i, |s|, FROM_TYPING_IMPORT, " " + (a + rest));
    Uncut(s, b, |s|, " ", a + rest);
    Uncut(s, b + 1, |s|, a, rest);
    Cut(s, b, b + 1, e);
    Cut(s, i, b, e);
  }

  /** The selective match at `i` on `from typing import A` followed by a
      character that cannot continue the identifier. */
  lemma SelectiveMatchAt(s: string, i: nat, a: string, rest: string)
    requires i <= |s| && s[i..] == FROM_TYPING_IMPORT + (" " + (a + rest)) && IsIdent(a)
    requires rest == [] || !InClass(IdentChar, rest[0])
    ensures FromAt(s, i) == Some(Match(i, FROM_TYPING_IMPORT + " " + a, [Str(a)]))
  {
    SelectiveSlices(s, i, a, rest);
    var b := i + |FROM_TYPING_IMPORT|;
    var e := b + 1 + |a|;
    assert s[i] == s[i..b][0];
    assert RunEnd(s, i, Indent) == i;
    assert s[b + 1] == a[0];
    RunEndExact(s, b, b + 1, Space);
    assert AfterGap(s, b) == Some(b + 1);
    assert e == |s| || s[e] == rest[0];
    assert s[b + 2..e] == a[1..];
    RunEndExact(s, b + 2, e, IdentChar);
    assert IdentAt(s, b + 1) == Some(e);
  }

  /** The search for the selective form stops at index 0 when the
      document starts with `from typing import A`. */
  lemma SelectiveFirstLine(s: string, a: string, rest: string)
    requires s == FROM_TYPING_IMPORT + (" " + (a + rest)) && IsIdent(a)
    requires rest == [] || !InClass(IdentChar, rest[0])
    ensures SearchFrom(FromTypingImport, s, 0) == Some(Match(0, FROM_TYPING_IMPORT + " " + a, [Str(a)]))
  {
    assert s[0..] == s;
    SelectiveMatchAt(s, 0, a, rest);
    assert Hits(FromTypingImport, s)(0);
  }

  /** `from typing import A, B` records `A` alone: the identifier token
      cannot contain the comma, so the match ends before it. */
  lemma SelectiveListFirstOnly(a: string, b: string)
    requires IsIdent(a) && IsIdent(b)
    ensures Detect(FROM_TYPING_IMPORT + (" " + (a + (", " + b)))) == Selective(FROM_TYPING_IMPORT + " " + a, a)
  {
    var s := FROM_TYPING_IMPORT + (" " + (a + (", " + b)));
    SelectiveFirstLine(s, a, ", " + b);
    DetectFound(s, 0, a);
  }

  /** The search for the selective form passes over a first line that
      starts with `import typing`. */
  lemma PlainLineSkipped(s: string, rest: string)
    requires s == IMPORT + (" " + (TYPING + rest)) && |s| >= PLAIN_END + 1
    ensures SearchFrom(FromTypingImport, s, 0) == SearchFrom(FromTypingImport, s, PLAIN_END + 1)
  {
    PlainPrefix(s, rest);
    WordsSingleLine();
    SearchSkips(FromTypingImport, s, 1, PLAIN_END + 1);
  }

  /** The second line of `import typing`, a terminator and `from typing
      import A`. */
  lemma SecondLineSlices(s: string, c: char, a: string)
    requires s == IMPORT + (" " + (TYPING + ([c] + (FROM_TYPING_IMPORT + (" " + a)))))
    ensures |s| >= PLAIN_END + 1 && s[PLAIN_END] == c && s[PLAIN_END + 1..] == FROM_TYPING_IMPORT + (" " + (a + []))
  {
    PlainSlices(s, [c] + (FROM_TYPING_IMPORT + (" " + a)));
    assert s[PLAIN_END..][1..] == s[PLAIN_END + 1..];
  }

  /** The search for the selective form at a line start where
      `from typing import A` is written up to the end. */
  lemma SelectiveLastLine(s: string, i: nat, a: string)
    requires 0 < i <= |s| && IsLineTerminator(s[i - 1]) && s[i..] == FROM_TYPING_IMPORT + (" " + (a + [])) && IsIdent(a)
    ensures SearchFrom(FromTypingImport, s, i) == Some(Match(i, FROM_TYPING_IMPORT + " " + a, [Str(a)]))
  {
    SelectiveMatchAt(s, i, a, []);
  }

  /** A selective match found by the search is what the scan detects. */
  lemma DetectFound(s: string, i: nat, a: string)
    requires SearchFrom(FromTypingImport, s, 0) == Some(Match(i, FROM_TYPING_IMPORT + " " + a, [Str(a)]))
    ensures Detect(s) == Selective(FROM_TYPING_IMPORT + " " + a, a)
  {
  }

  /** The selective form wins even when an `import typing` line comes
      first, on any line terminator between them. */
  lemma SelectiveAfterPlain(c: char, a: string)
    requires IsLineTerminator(c) && IsIdent(a)
    ensures Detect(IMPORT + (" " + (TYPING + ([c] + (FROM_TYPING_IMPORT + (" " + a))))))
         == Selective(FROM_TYPING_IMPORT + " " + a, a)
  {
    var s := IMPORT + (" " + (TYPING + ([c] + (FROM_TYPING_IMPORT + (" " + a)))));
    SecondLineSearch(s, c, a);
    DetectFound(s, PLAIN_END + 1, a);
  }

  /** The search for the selective form on `import typing`, a line
      terminator and `from typing import A` stops on the second line. */
  lemma SecondLineSearch(s: string, c: char, a: string)
    requires IsLineTerminator(c) && IsIdent(a)
    requires s == IMPORT + (" " + (TYPING + ([c] + (FROM_TYPING_IMPORT + (" " + a)))))
    ensures SearchFrom(FromTypingImport, s, 0) == Some(Match(PLAIN_END + 1, FROM_TYPING_IMPORT + " " + a, [Str(a)]))
  {
    SecondLineSlices(s, c, a);
    PlainLineSkipped(s, [c] + (FROM_TYPING_IMPORT + (" " + a)));
    SelectiveLastLine(s, PLAIN_END + 1, a);
  }

  /** The pieces of a document that starts with `import typing`. */
  lemma PlainSlices(s: string, rest: string)
    requires s == IMPORT + (" " + (TYPING + rest))
    ensures |s| >= PLAIN_END && s[0..PLAIN_END] == IMPORT + " " + TYPING && s[PLAIN_END..] == rest
    ensures s[0..|IMPORT|] == IMPORT && s[|IMPORT|] == ' ' && s[|IMPORT| + 1..PLAIN_END] == TYPING
  {
    Uncut(s, 0, |s|, IMPORT, " " + (TYPING + rest));
    Uncut(s, |IMPORT|, |s|, " ", TYPING + rest);
    Uncut(s, |IMPORT| + 1, |s|, TYPING, rest);
    Cut(s, 0, |IMPORT| + 1, PLAIN_END);
  }

  /** `import typing` is found at the start of `s`, ending at `PLAIN_END`,
      and the selective form is not. */
  lemma PlainPrefix(s: string, rest: string)
    requires s == IMPORT + (" " + (TYPING + rest))
    ensures |s| >= PLAIN_END && s[0..PLAIN_END] == IMPORT + " " + TYPING && s[PLAIN_END..] == rest
    ensures RunEnd(s, 0, Indent) == 0 && PlainImportEnd(s, 0) == Some(PLAIN_END)
    ensures FromAt(s, 0).None?
  {
    PlainSlices(s, rest);
    PlainPrefixImport(s);
    if |s| >= |FROM_TYPING_IMPORT| {
      assert s[0..|FROM_TYPING_IMPORT|][0] != FROM_TYPING_IMPORT[0];
    }
  }

  /** `import typing` read by the whole-module matcher at index 0. */
  lemma PlainPrefixImport(s: string)
    requires |s| >= PLAIN_END && s[0..|IMPORT|] == IMPORT && s[|IMPORT|] == ' ' && s[|IMPORT| + 1..PLAIN_END] == TYPING
    ensures RunEnd(s, 0, Indent) == 0 && PlainImportEnd(s, 0) == Some(PLAIN_END)
  {
    assert s[0] == s[0..|IMPORT|][0];
    assert RunEnd(s, 0, Indent) == 0;
    assert s[|IMPORT|..|IMPORT| + 1] == [' '];
    PlainImportPieces(s, 0, 0, |IMPORT| + 1, PLAIN_END);
  }

  /** ` as ` and an alias, read from `PLAIN_END` on. */
  lemma AliasRest(s: string, w: string)
    requires |s| >= PLAIN_END && s[PLAIN_END..] == " " + (AS + (" " + w)) && w != [] && w[0] != ' '
    ensures |s| == ALIAS_START + |w| && s[PLAIN_END] == ' ' && s[ALIAS_START - 1] == ' ' && s[ALIAS_START..] == w
    ensures AfterGap(s, PLAIN_END) == Some(PLAIN_END + 1) && HasAt(s, PLAIN_END + 1, AS) && AfterGap(s, ALIAS_START - 1) == Some(ALIAS_START)
  {
    Uncut(s, PLAIN_END, |s|, " ", AS + (" " + w));
    Uncut(s, PLAIN_END + 1, |s|, AS, " " + w);
    Uncut(s, ALIAS_START - 1, |s|, " ", w);
    assert s[PLAIN_END + 1] == AS[0];
    RunEndExact(s, PLAIN_END, PLAIN_END + 1, Space);
    RunEndExact(s, ALIAS_START - 1, ALIAS_START, Space);
  }

  /** On one line, a whole-module match at index 0 is what the scan
      detects, when the selective form does not match there. */
  lemma DetectOneLineWhole(s: string, m: Match)
    requires SingleLine(s) && FromAt(s, 0).None? && ImportAt(s, 0) == Some(m)
    ensures Detect(s) == WholeModule(m.text, Truthy(Group(m, 2)))
  {
    SingleLineExec(FromTypingImport, s);
    SingleLineExec(ImportTyping, s);
  }

  /** A document of `import typing` alone is a plain whole-module import. */
  lemma DetectPlain()
    ensures Detect(IMPORT + " " + TYPING) == WholeModule(IMPORT + " " + TYPING, false)
  {
    var s := IMPORT + " " + TYPING;
    assert s == IMPORT + (" " + (TYPING + []));
    PlainPrefix(s, []);
    WordsSingleLine();
    assert ImportAt(s, 0) == Some(Match(0, s[0..PLAIN_END], [Str(s[0..PLAIN_END]), Undefined]));
    DetectOneLineWhole(s, Match(0, s[0..PLAIN_END], [Str(s[0..PLAIN_END]), Undefined]));
  }

  /** `import typing as t`: a one-letter alias is too short for the
      identifier token, so the plain alternative matches and no alias is
      captured. */
  lemma DetectShortAlias(c: char)
    requires IsIdentStart(c)
    ensures Detect(IMPORT + " " + TYPING + " " + AS + " " + [c]) == WholeModule(IMPORT + " " + TYPING, false)
  {
    var s := IMPORT + " " + TYPING + " " + AS + " " + [c];
    assert s == IMPORT + (" " + (TYPING + (" " + (AS + (" " + [c])))));
    PlainPrefix(s, " " + (AS + (" " + [c])));
    AliasRest(s, [c]);
    assert IdentAt(s, ALIAS_START).None?;
    assert AliasAt(s, PLAIN_END).None?;
    assert ImportAt(s, 0) == Some(Match(0, s[0..PLAIN_END], [Str(s[0..PLAIN_END]), Undefined]));
    WordsSingleLine();
    assert SingleLine([c]);
    SingleLineConcat(IMPORT + " " + TYPING + " " + AS + " ", [c]);
    DetectOneLineWhole(s, Match(0, s[0..PLAIN_END], [Str(s[0..PLAIN_END]), Undefined]));
  }

  /** `import typing as tp`: an alias of two or more characters is captured
      as group 2, and the whole line is the match. */
  lemma DetectAlias(w: string)
    requires IsIdent(w)
    ensures Detect(IMPORT + " " + TYPING + " " + AS + " " + w) == WholeModule(IMPORT + " " + TYPING + " " + AS + " " + w, true)
  {
    var s := IMPORT + " " + TYPING + " " + AS + " " + w;
    AliasMatchAt(w);
    WordsSingleLine();
    IdentSingleLine(w);
    SingleLineConcat(IMPORT + " " + TYPING + " " + AS + " ", w);
    DetectOneLineWhole(s, Match(0, s, [Str(s), Str(w)]));
  }

  /** `import typing as w` is matched whole by the aliased alternative,
      capturing `w` as the alias. */
  lemma AliasMatchAt(w: string)
    requires IsIdent(w)
    ensures var s := IMPORT + " " + TYPING + " " + AS + " " + w;
            FromAt(s, 0).None? && ImportAt(s, 0) == Some(Match(0, s, [Str(s), Str(w)]))
  {
    var s := IMPORT + " " + TYPING + " " + AS + " " + w;
    assert s == IMPORT + (" " + (TYPING + (" " + (AS + (" " + w)))));
    PlainPrefix(s, " " + (AS + (" " + w)));
    AliasFound(s, w);
    assert s[0..|s|] == s;
    assert ImportAt(s, 0) == Some(Match(0, s[0..|s|], [Str(s[0..|s|]), Str(w)]));
  }

  /** ` as w` after `import typing`, with `w` an identifier, is taken whole
      by the aliased continuation. */
  lemma AliasFound(s: string, w: string)
    requires |s| >= PLAIN_END && s[PLAIN_END..] == " " + (AS + (" " + w)) && IsIdent(w)
    ensures AliasAt(s, PLAIN_END) == Some((ALIAS_START, |s|))
  {
    AliasRest(s, w);
    assert s[ALIAS_START + 1..] == w[1..] && s[ALIAS_START..|s|] == w;
    RunEndExact(s, ALIAS_START + 1, |s|, IdentChar);
    assert IdentAt(s, ALIAS_START) == Some(|s|);
  }


  /** `import typing_extensions`: nothing requires a word boundary after
      `typing`, so any continuation that does not start with a space leaves
      a plain whole-module match of `import typing`. */
  lemma DetectLongerModule(rest: string)
    requires rest != [] && rest[0] != ' ' && SingleLine(rest)
    ensures Detect(IMPORT + " " + TYPING + rest) == WholeModule(IMPORT + " " + TYPING, false)
  {
    var s := IMPORT + " " + TYPING + rest;
    assert s == IMPORT + (" " + (TYPING + rest));
    PlainPrefix(s, rest);
    assert s[PLAIN_END] == rest[0];
    WordsSingleLine();
    SingleLineConcat(IMPORT + " " + TYPING, rest);
    assert AliasAt(s, PLAIN_END).None?;
    assert ImportAt(s, 0) == Some(Match(0, s[0..PLAIN_END], [Str(s[0..PLAIN_END]), Undefined]));
    DetectOneLineWhole(s, Match(0, s[0..PLAIN_END], [Str(s[0..PLAIN_END]), Undefined]));
  }
}
