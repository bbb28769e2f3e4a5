/**
 * The typing hint provider: it scans one document for an import of the
 * `typing` module and then, on request, suggests how to write a collection
 * type annotation in the style of that import.
 */
module TypingHint {
  import opened Js
  import opened TypingPatterns
  import opened Python
  import opened TypeHints

  /** What one scan of a document finds: nothing, a selective import (the
      matched text and the one name it records), or a whole-module import
      (the matched text, and whether the aliased alternative matched). */
  datatype Detection =
    | NotFound
    | Selective(statement: string, name: string)
    | WholeModule(statement: string, aliased: bool)

  /** The scan: the selective pattern over the whole document first, the
      whole-module pattern only if it finds nothing. */
  function Detect(doc: string): (d: Detection)
    ensures d.Selective? ==> IsIdent(d.name) && d.statement != ""
    ensures d.WholeModule? ==> d.statement != ""
  {
    match Exec(FromTypingImport, doc)
    case Some(m) => Selective(m.text, Group(m, 1).s)
    case None =>
      match Exec(ImportTyping, doc)
      case Some(m) => WholeModule(m.text, Truthy(Group(m, 2)))
      case None => NotFound
  }

  /** `i` is the first line start of `s` that is followed by a word of `pat`. */
  ghost predicate FirstFollowedBy(pat: Pattern, s: string, i: nat)
  {
    && i <= |s| && IsLineStart(s, i) && FollowedBy(pat, s, i)
    && forall j :: 0 <= j < i && IsLineStart(s, j) ==> !FollowedBy(pat, s, j)
  }

  /** The scan finds nothing exactly when no line start is followed by
      either pattern. */
  lemma DetectNotFound(doc: string)
    ensures Detect(doc).NotFound? <==>
              forall i :: 0 <= i <= |doc| && IsLineStart(doc, i) ==>
                !FollowedBy(FromTypingImport, doc, i) && !FollowedBy(ImportTyping, doc, i)
  {
    ExecCharacterized(FromTypingImport, doc);
    ExecCharacterized(ImportTyping, doc);
  }

  /** The selective form wins whenever any line has it, wherever a
      whole-module import stands; the statement recorded is the match on
      the first such line, and the name is its identifier. */
  lemma DetectSelective(doc: string)
    ensures Detect(doc).Selective? <==>
              exists i :: 0 <= i <= |doc| && IsLineStart(doc, i) && FollowedBy(FromTypingImport, doc, i)
    ensures Detect(doc).Selective? ==>
              exists i :: FirstFollowedBy(FromTypingImport, doc, i)
                && FromShape(doc, i, Match(i, Detect(doc).statement, [Str(Detect(doc).name)]))
  {
    ExecCharacterized(FromTypingImport, doc);
    var m := Exec(FromTypingImport, doc);
    if m.Some? {
      var i := m.value.index;
      FromAtCharacterized(doc, i);
      assert FirstFollowedBy(FromTypingImport, doc, i);
    }
  }

  /** The whole-module form is recorded exactly when no line has the
      selective form and some line has `import typing`; the statement is
      the match on the first such line, and it counts as aliased exactly
      when that line continues with ` as ` and an alias of two or more
      characters. */
  lemma DetectWholeModule(doc: string)
    ensures Detect(doc).WholeModule? <==>
              && (forall i :: 0 <= i <= |doc| && IsLineStart(doc, i) ==> !FollowedBy(FromTypingImport, doc, i))
              && (exists i :: 0 <= i <= |doc| && IsLineStart(doc, i) && FollowedBy(ImportTyping, doc, i))
    ensures Detect(doc).WholeModule? ==>
              exists i :: FirstFollowedBy(ImportTyping, doc, i) && ImportAt(doc, i).Some?
                && Detect(doc).statement == ImportAt(doc, i).value.text
                && ImportShape(doc, i, ImportAt(doc, i).value)
                && (Detect(doc).aliased <==> FollowedByAlias(doc, i))
  {
    ExecCharacterized(FromTypingImport, doc);
    ExecCharacterized(ImportTyping, doc);
    var m := Exec(ImportTyping, doc);
    if Exec(FromTypingImport, doc).None? && m.Some? {
      var i := m.value.index;
      ImportAtCharacterized(doc, i);
      assert FirstFollowedBy(ImportTyping, doc, i);
    }
  }

  /** An identifier token holds no comma and nothing `trim` removes. */
  lemma IdentSplitTrim(w: string)
    requires IsIdent(w)
    ensures Split(w, ',') == [w] && Trim(w) == w
  {
    forall j | 0 <= j < |w| ensures InClass(IdentChar, w[j]) {
      if j > 0 {
        assert w[j] == w[1..][j - 1];
      }
    }
    assert ',' !in w;
    assert !IsTrimmable(w[0]) && !IsTrimmable(w[|w| - 1]);
    SplitPieces(w, ',');
    TrimSpec(w);
  }

  /** `pieces.map(p => p.trim())`: every piece trimmed, in order. */
  function TrimAll(pieces: seq<string>): (r: seq<string>)
    ensures |r| == |pieces|
    ensures forall i :: 0 <= i < |pieces| ==> r[i] == Trim(pieces[i])
  {
    if pieces == [] then [] else TrimAll(pieces[..|pieces| - 1]) + [Trim(pieces[|pieces| - 1])]
  }

  /** Splitting an identifier at commas and trimming the pieces gives back
      the identifier alone, so the selective branch records exactly it. */
  lemma TrimAllSplitIdent(w: string)
    requires IsIdent(w)
    ensures TrimAll(Split(w, ',')) == [w]
  {
    IdentSplitTrim(w);
    assert TrimAll([w]) == TrimAll([]) + [Trim(w)];
  }

  /** Every name in `names` is an identifier of the import pattern. */
  predicate AllIdents(names: seq<string>)
  {
    forall k :: 0 <= k < |names| ==> IsIdent(names[k])
  }

  /** Appending an identifier keeps every recorded name an identifier. */
  lemma AllIdentsAppend(names: seq<string>, w: string)
    requires AllIdents(names) && IsIdent(w)
    ensures AllIdents(names + [w])
  {
    forall k | 0 <= k < |names + [w]| ensures IsIdent((names + [w])[k]) {
      if k < |names| {
        assert (names + [w])[k] == names[k];
      }
    }
  }

  class TypingHintProvider {
    const docText: string
    var importStatement: Option<string>
    var fromTypingImport: bool
    var typingPrefix: JsString
    var typingImports: seq<string>

    /** What every provider keeps true: a recorded statement is non-empty,
        the selective flag and names only follow a recorded statement, every
        recorded name is an identifier, and the prefix is either the
        default or `undefined`. */
    ghost predicate Valid()
      reads this
    {
      && (importStatement.Some? ==> importStatement.value != "")
      && (fromTypingImport ==> importStatement.Some?)
      && (typingImports != [] ==> fromTypingImport)
      && AllIdents(typingImports)
      && (typingPrefix == Str("typing") || typingPrefix == Undefined)
    }

    /** Under the invariant the prefix renders as `typing` or as
        `undefined`, so a qualified hint starts with one of the two. */
    lemma PrefixRendering()
      requires Valid()
      ensures Render(typingPrefix) == "typing" || Render(typingPrefix) == "undefined"
    {
    }

    constructor (docText: string)
      ensures Valid()
      ensures this.docText == docText
      ensures importStatement == None && !fromTypingImport
      ensures typingPrefix == Str("typing") && typingImports == []
    {
      this.docText := docText;
      importStatement := None;
      fromTypingImport := false;
      typingPrefix := Str("typing");
      typingImports := [];
    }

    /** Appends each piece, trimmed, to the recorded names, in order. */
    method PushTrimmed(typings: seq<string>)
      modifies this`typingImports
      ensures typingImports == old(typingImports) + TrimAll(typings)
    {
      var k := 0;
      while k < |typings|
        invariant 0 <= k <= |typings|
        invariant typingImports == old(typingImports) + TrimAll(typings[..k])
      {
        assert typings[..k + 1][..k] == typings[..k];
        typingImports := typingImports + [Trim(typings[k])];
        k := k + 1;
      }
      assert typings[..k] == typings;
    }

    /** JavaScript truthiness of `importStatement`: `null` and the empty
        string are falsy. Under the invariant a recorded statement is never
        empty, so an import counts as found exactly when one is recorded. */
    predicate ImportFound()
      reads this
      ensures Valid() ==> (ImportFound() <==> importStatement.Some?)
    {
      importStatement.Some? && importStatement.value != ""
    }

    /** Scans the document. On a selective match it records the statement,
        sets the selective flag and appends the one captured name; on a
        whole-module match it records the statement and, for the aliased
        form, sets the prefix to `undefined`; otherwise nothing changes. */
    method ContainsTyping() returns (found: bool)
      requires Valid()
      modifies this
      ensures Valid()
      ensures found <==> !Detect(docText).NotFound?
      ensures match Detect(docText)
        case NotFound =>
          && importStatement == old(importStatement) && fromTypingImport == old(fromTypingImport)
          && typingPrefix == old(typingPrefix) && typingImports == old(typingImports)
        case Selective(statement, name) =>
          && importStatement == Some(statement) && fromTypingImport
          && typingPrefix == old(typingPrefix) && typingImports == old(typingImports) + [name]
        case WholeModule(statement, aliased) =>
          && importStatement == Some(statement) && fromTypingImport == old(fromTypingImport)
          && typingPrefix == (if aliased then Undefined else old(typingPrefix))
          && typingImports == old(typingImports)
    {
      var m := Exec(FromTypingImport, docText);
      if m.Some? {
        var name := Group(m.value, 1).s;
        assert Detect(docText) == Selective(m.value.text, name);
        AllIdentsAppend(typingImports, name);
        TrimAllSplitIdent(name);
        importStatement := Some(m.value.text);
        fromTypingImport := true;
        PushTrimmed(Split(name, ','));
        return true;
      } else {
        m := Exec(ImportTyping, docText);
        if m.Some? {
          importStatement := Some(m.value.text);
          assert Detect(docText) == WholeModule(m.value.text, Truthy(Group(m.value, 2)));
          if Truthy(Group(m.value, 2)) {
            assert |m.value.captures| == 2;
            typingPrefix := Group(m.value, 3);
          }
          return true;
        }
      }
      return false;
    }

    /** The completion hint for a data type. There is none unless the type
        is a collection and an import was found. The label is always the
        label of the inserted name; that name is bare when the selective
        import named it, and qualified by the rendered prefix otherwise. */
    function GetTypingHint(t: DataType, capitalized: string -> string, labelFor: string -> string): (r: Option<TypeHint>)
      reads this
      ensures r.None? <==> t.category != Collection || !ImportFound()
      ensures r.Some? ==>
                var ins := r.value.insertText;
                |ins| >= 2 && ins[0] == ' ' && ins[|ins| - 1] == '[' && r.value.labelText == labelFor(ins[1..|ins| - 1])
      ensures r.Some? && fromTypingImport && capitalized(t.name) in typingImports ==>
                r.value.insertText == " " + capitalized(t.name) + "["
      ensures r.Some? && !(fromTypingImport && capitalized(t.name) in typingImports) ==>
                r.value.insertText == " " + Render(typingPrefix) + "." + capitalized(t.name) + "["
    {
      var typingName := capitalized(t.name);
      if t.category == Collection && ImportFound() then
        if fromTypingImport && typingName in typingImports then
          Some(TypeHint(labelFor(typingName), " " + typingName + "["))
        else
          var qualified := Render(typingPrefix) + "." + typingName;
          Some(TypeHint(labelFor(qualified), " " + qualified + "["))
      else
        None
    }
  }
}
