/**
 * How the two phases combine as the extension uses them: a provider built
 * for a document, scanned, then asked for hints.
 */
module Usage {
  import opened Js
  import opened Python
  import opened TypeHints
  import opened TypingHint

  /** A fresh provider, scanned once, then asked for the hint of `t`: the
      hint follows from what the scan detects alone. A selective import
      gives the bare name when it named the type and the default `typing.`
      qualification otherwise; a whole-module import qualifies with
      `typing.`, or with `undefined.` when the aliased form matched. */
  method ScanThenHint(doc: string, t: DataType, capitalized: string -> string, labelFor: string -> string)
    returns (found: bool, hint: Option<TypeHint>)
    ensures found <==> !Detect(doc).NotFound?
    ensures t.category != Collection || Detect(doc).NotFound? ==> hint.None?
    ensures t.category == Collection && Detect(doc).Selective? && capitalized(t.name) == Detect(doc).name ==>
              hint == Some(TypeHint(labelFor(capitalized(t.name)), " " + capitalized(t.name) + "["))
    ensures t.category == Collection && Detect(doc).Selective? && capitalized(t.name) != Detect(doc).name ==>
              hint == Some(TypeHint(labelFor("typing" + "." + capitalized(t.name)), " " + "typing" + "." + capitalized(t.name) + "["))
    ensures t.category == Collection && Detect(doc).WholeModule? ==>
              var q := (if Detect(doc).aliased then "undefined" else "typing") + "." + capitalized(t.name);
              hint == Some(TypeHint(labelFor(q), " " + q + "["))
  {
    var p := new TypingHintProvider(doc);
    found := p.ContainsTyping();
    hint := p.GetTypingHint(t, capitalized, labelFor);
  }

  /** Scanning the same provider twice: the selective branch appends its
      name again, so the recorded names hold it twice; the other outcomes
      record no name. */
  method ScanTwice(doc: string) returns (names: seq<string>)
    ensures Detect(doc).Selective? ==> names == [Detect(doc).name, Detect(doc).name]
    ensures !Detect(doc).Selective? ==> names == []
  {
    var p := new TypingHintProvider(doc);
    var first := p.ContainsTyping();
    var second := p.ContainsTyping();
    names := p.typingImports;
  }
}
