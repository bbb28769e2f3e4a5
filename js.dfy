/**
 * The parts of the JavaScript runtime that the typing hint provider relies on:
 * nullable values, `undefined`, truthiness, template-literal rendering, and the
 * two string methods `split` and `trim`.
 */
module Js {

  /** A value that may be `null` (TypeScript `T | null`). */
  datatype Option<+T> = None | Some(value: T)

  /** A JavaScript value that is either a string or `undefined`. Reading a
      capture group that does not exist, or one that did not take part in
      the match, yields `undefined`. */
  datatype JsString = Str(s: string) | Undefined

  /** JavaScript truthiness of a string-or-undefined value: the empty string
      and `undefined` are falsy. */
  predicate Truthy(v: JsString)
  {
    v.Str? && v.s != ""
  }

  /** How a template literal `${v}` renders the value: a string as itself,
      `undefined` as the word `undefined`. */
  function Render(v: JsString): string
  {
    match v
    case Str(s) => s
    case Undefined => "undefined"
  }

  /** The characters `String.prototype.trim` removes: the ECMAScript
      WhiteSpace and LineTerminator productions. */
  predicate IsTrimmable(c: char)
  {
    || c == '\t' || c == '\U{B}' || c == '\U{C}' || c == ' ' || c == '\U{A0}' || c == '\U{FEFF}'
    || c == '\U{1680}' || ('\U{2000}' <= c <= '\U{200A}') || c == '\U{202F}' || c == '\U{205F}'
    || c == '\U{3000}'
    || c == '\n' || c == '\r' || c == '\U{2028}' || c == '\U{2029}'
  }

  /** `s` with its leading trimmable characters removed. */
  function TrimStart(s: string): string
    decreases |s|
  {
    if s != [] && IsTrimmable(s[0]) then TrimStart(s[1..]) else s
  }

  /** TrimStart removes a prefix of trimmable characters, and only that:
      what is left is empty or starts with a character it keeps. */
  lemma {:induction false} TrimStartSpec(s: string)
    ensures |TrimStart(s)| <= |s| && TrimStart(s) == s[|s| - |TrimStart(s)|..]
    ensures forall k :: 0 <= k < |s| - |TrimStart(s)| ==> IsTrimmable(s[k])
    ensures TrimStart(s) == [] || !IsTrimmable(TrimStart(s)[0])
    decreases |s|
  {
    if s != [] && IsTrimmable(s[0]) {
      TrimStartSpec(s[1..]);
    }
  }

  /** `s` with its trailing trimmable characters removed. */
  function TrimEnd(s: string): string
    decreases |s|
  {
    if s != [] && IsTrimmable(s[|s| - 1]) then TrimEnd(s[..|s| - 1]) else s
  }

  /** TrimEnd removes a suffix of trimmable characters, and only that:
      what is left is empty or ends with a character it keeps. */
  lemma {:induction false} TrimEndSpec(s: string)
    ensures |TrimEnd(s)| <= |s| && TrimEnd(s) == s[..|TrimEnd(s)|]
    ensures forall k :: |TrimEnd(s)| <= k < |s| ==> IsTrimmable(s[k])
    ensures TrimEnd(s) == [] || !IsTrimmable(TrimEnd(s)[|TrimEnd(s)| - 1])
    decreases |s|
  {
    if s != [] && IsTrimmable(s[|s| - 1]) {
      TrimEndSpec(s[..|s| - 1]);
    }
  }

  /** `r` occurs in `s` starting at index `a`. */
  predicate SliceAt(r: string, s: string, a: int)
  {
    0 <= a <= |s| - |r| && r == s[a..a + |r|]
  }

  /** `String.prototype.trim`: what it returns has no trimmable character
      at either end. */
  function Trim(s: string): (r: string)
    ensures r == [] || (!IsTrimmable(r[0]) && !IsTrimmable(r[|r| - 1]))
  {
    TrimStartSpec(s);
    TrimEndSpec(TrimStart(s));
    TrimEnd(TrimStart(s))
  }

  /** The result of trim is a slice of its argument with only trimmable
      characters before and after it, and a string that already has no
      trimmable character at either end is returned unchanged. */
  lemma TrimSpec(s: string)
    ensures exists a :: SliceAt(Trim(s), s, a)
                         && forall k :: 0 <= k < |s| && (k < a || a + |Trim(s)| <= k) ==> IsTrimmable(s[k])
    ensures (s == [] || (!IsTrimmable(s[0]) && !IsTrimmable(s[|s| - 1]))) ==> Trim(s) == s
  {
    var t := TrimStart(s);
    var r := TrimEnd(t);
    TrimStartSpec(s);
    TrimEndSpec(t);
    var a := |s| - |t|;
    assert r == s[a..a + |r|] by {
      assert t == s[a..] && r == t[..|r|];
    }
    assert r == Trim(s);
    assert SliceAt(r, s, a);
    forall k | 0 <= k < |s| && (k < a || a + |r| <= k)
      ensures IsTrimmable(s[k])
    {
      if a + |r| <= k {
        assert s[k] == t[k - a];
      }
    }
    if s == [] || (!IsTrimmable(s[0]) && !IsTrimmable(s[|s| - 1])) {
      assert t == s;
      assert r == s;
    }
  }


  /** The pieces of `s` joined back together with `c` between them. */
  function Join(pieces: seq<string>, c: char): string
    requires |pieces| >= 1
  {
    if |pieces| == 1 then pieces[0] else pieces[0] + [c] + Join(pieces[1..], c)
  }

  /** No piece contains `c`. */
  predicate NoneContains(pieces: seq<string>, c: char)
  {
    forall k :: 0 <= k < |pieces| ==> c !in pieces[k]
  }

  /** `s.split(c)` for a one-character separator; there is always at least
      one piece. */
  function Split(s: string, c: char): (r: seq<string>)
    ensures |r| >= 1
    decreases |s|
  {
    if s == [] then [""]
    else
      var rest := Split(s[1..], c);
      if s[0] == c then [""] + rest
      else [[s[0]] + rest[0]] + rest[1..]
  }

  /** No piece of a split contains the separator, and a string without the
      separator is a single piece. */
  lemma {:induction false} SplitPieces(s: string, c: char)
    ensures NoneContains(Split(s, c), c)
    ensures c !in s ==> Split(s, c) == [s]
    decreases |s|
  {
    if s != [] {
      SplitPieces(s[1..], c);
      assert s == [s[0]] + s[1..];
    }
  }

  /** Joining the pieces of a split with the separator gives the string back. */
  lemma {:induction false} SplitJoin(s: string, c: char)
    ensures Join(Split(s, c), c) == s
    decreases |s|
  {
    if s != [] {
      var rest := Split(s[1..], c);
      SplitJoin(s[1..], c);
      if s[0] != c {
        var r := [[s[0]] + rest[0]] + rest[1..];
        assert r[1..] == rest[1..];
        if |rest| > 1 {
          assert Join(r, c) == [s[0]] + rest[0] + [c] + Join(rest[1..], c);
        }
      }
      assert s == [s[0]] + s[1..];
    }
  }
}
