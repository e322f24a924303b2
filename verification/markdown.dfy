/** The markdown image string assembled on success, and a strict reader of
    that string used to show the escaped alt text cannot break out of its
    brackets. */
module Markdown {
  import opened Wrappers
  import opened Escape

  /** The text between the alt text's closing bracket and the payload. */
  const DataUrlPrefix: string := "(data:image/png;base64,"

  /** `![<escaped alt>](data:image/png;base64,<payload>)`; an absent prompt
      gives an empty alt text. Whatever the prompt contains, the result reads
      back as an image whose alt text is the prompt as a reader should see it
      and whose payload is the artifact's base64 data. */
  function ImageMarkdown(prompt: Option<string>, base64: string): (r: string)
    ensures IsBase64(base64) ==> ReadImage(r) == Some((AltText(PromptText(prompt)), base64))
  {
    var alt := EscapeAlt(prompt);
    var tail := DataUrlPrefix + base64 + ")";
    ImageMarkdownShape(alt, base64);
    ReadEscapeAlt(prompt, tail);
    ReadDataUrlOf(base64);
    ReadImageStart(alt + "]" + tail);
    "![" + alt + "]" + DataUrlPrefix + base64 + ")"
  }

  /** The prompt as text, with an absent prompt read as empty. */
  function PromptText(prompt: Option<string>): string
  {
    match prompt
    case None => []
    case Some(t) => t
  }

  predicate IsBase64Char(c: char)
  {
    ('A' <= c <= 'Z') || ('a' <= c <= 'z') || ('0' <= c <= '9') || c == '+' || c == '/' || c == '='
  }

  predicate IsBase64(s: string)
  {
    forall i :: 0 <= i < |s| ==> IsBase64Char(s[i])
  }

  // ---------------------------------------------------------------------
  // Reading the markdown back
  // ---------------------------------------------------------------------

  /** The alt text a reader sees after markdown escapes are resolved: the
      escaper's newline and angle-bracket rewriting, without its backslashes. */
  function AltChar(c: char): string
  {
    if c == '\n' then " " else if c == '<' then "&lt;" else if c == '>' then "&gt;" else [c]
  }

  function AltText(t: string): string
  {
    if |t| == 0 then [] else AltChar(t[0]) + AltText(t[1..])
  }

  function Prepend(p: string, o: Option<(string, string)>): Option<(string, string)>
  {
    match o
    case None => None
    case Some((text, rest)) => Some((p + text, rest))
  }

  /** A strict reader of link text, started just after the opening `[`: a
      backslash before `\`, `[` or `]` stands for that character, any other
      character stands for itself, an unescaped `]` ends the text and an
      unescaped `[` is rejected. Returns the text and what follows the `]`. */
  function ReadLinkText(s: string): (r: Option<(string, string)>)
    ensures r.Some? ==> |r.value.1| < |s|
  {
    if |s| == 0 then None
    else if s[0] == ']' then Some(([], s[1..]))
    else if s[0] == '[' then None
    else if s[0] == '\\' && |s| >= 2 && (s[1] == '\\' || s[1] == '[' || s[1] == ']') then
      Prepend([s[1]], ReadLinkText(s[2..]))
    else
      Prepend([s[0]], ReadLinkText(s[1..]))
  }

  /** Reads `![alt](data:image/png;base64,payload)` back into the alt text a
      reader sees and the payload; any other shape is rejected. */
  function ReadImage(md: string): Option<(string, string)>
  {
    if |md| < 2 || md[..2] != "![" then None
    else
      match ReadLinkText(md[2..])
      case None => None
      case Some((alt, rest)) =>
        match ReadDataUrl(rest)
        case None => None
        case Some(payload) => Some((alt, payload))
  }

  /** Reads `(data:image/png;base64,payload)` with no `)` inside the payload. */
  function ReadDataUrl(s: string): Option<string>
  {
    if |s| < |DataUrlPrefix| + 1 || s[..|DataUrlPrefix|] != DataUrlPrefix || s[|s| - 1] != ')' then None
    else
      var payload := s[|DataUrlPrefix|..|s| - 1];
      if ')' in payload then None else Some(payload)
  }

  // ---------------------------------------------------------------------
  // Round trip
  // ---------------------------------------------------------------------

  lemma {:induction false} ReadPlain(p: string, x: string)
    requires forall j :: 0 <= j < |p| ==> p[j] != '\\' && p[j] != '[' && p[j] != ']'
    ensures ReadLinkText(p + x) == Prepend(p, ReadLinkText(x))
  {
    if |p| == 0 {
      assert p + x == x;
      match ReadLinkText(x)
      case None =>
      case Some((text, rest)) => assert p + text == text;
    } else {
      assert (p + x)[1..] == p[1..] + x;
      ReadPlain(p[1..], x);
      assert p == [p[0]] + p[1..];
      match ReadLinkText(x)
      case None =>
      case Some((text, rest)) =>
        assert [p[0]] + (p[1..] + text) == p + text;
    }
  }

  lemma ReadEscapedChar(c: char, x: string)
    ensures ReadLinkText(EscapeChar(c) + x) == Prepend(AltChar(c), ReadLinkText(x))
  {
    if c == '\\' || c == '[' || c == ']' {
      ReadEscapePair(c, x);
    } else {
      ReadPlain(EscapeChar(c), x);
    }
  }

  lemma ReadEscapePair(c: char, x: string)
    requires c == '\\' || c == '[' || c == ']'
    ensures ReadLinkText(EscapeChar(c) + x) == Prepend(AltChar(c), ReadLinkText(x))
  {
    var s := EscapeChar(c) + x;
    assert s == ['\\', c] + x;
    assert s[0] == '\\' && s[1] == c && s[2..] == x;
  }

  /** Reading the escaped text followed by a closing bracket recovers exactly
      the alt text and stops at that bracket: no escaped character ends the
      link text early and none is lost. */
  lemma {:induction false} ReadEscapeEach(t: string, rest: string)
    ensures ReadLinkText(EscapeEach(t) + "]" + rest) == Some((AltText(t), rest))
  {
    if |t| == 0 {
      var s := "]" + rest;
      assert EscapeEach(t) + "]" + rest == s;
      assert s[0] == ']' && s[1..] == rest;
    } else {
      var tail := EscapeEach(t[1..]) + "]" + rest;
      ReadEscapeEach(t[1..], rest);
      ReadEscapedChar(t[0], tail);
      assert ReadLinkText(EscapeChar(t[0]) + tail)
        == Prepend(AltChar(t[0]), Some((AltText(t[1..]), rest)))
        == Some((AltChar(t[0]) + AltText(t[1..]), rest));
      assert EscapeEach(t) == EscapeChar(t[0]) + EscapeEach(t[1..]);
      assert EscapeEach(t) + "]" + rest == EscapeChar(t[0]) + tail;
      assert AltText(t) == AltChar(t[0]) + AltText(t[1..]);
    }
  }

  lemma ReadEscapeAlt(prompt: Option<string>, rest: string)
    ensures ReadLinkText(EscapeAlt(prompt) + "]" + rest) == Some((AltText(PromptText(prompt)), rest))
  {
    var t := PromptText(prompt);
    if |t| > 0 {
      PipelineIsEscapeEach(t);
    }
    ReadEscapeEach(t, rest);
  }

  lemma ImageMarkdownShape(alt: string, base64: string)
    ensures "![" + alt + "]" + DataUrlPrefix + base64 + ")" == "![" + (alt + "]" + (DataUrlPrefix + base64 + ")"))
  {
  }

  lemma ReadImageStart(body: string)
    ensures ReadImage("![" + body) ==
      match ReadLinkText(body)
      case None => None
      case Some((alt, rest)) =>
        match ReadDataUrl(rest)
        case None => None
        case Some(payload) => Some((alt, payload))
  {
    var md := "![" + body;
    assert md[..2] == "![" && md[2..] == body;
  }

  lemma ReadDataUrlOf(base64: string)
    ensures IsBase64(base64) ==> ReadDataUrl(DataUrlPrefix + base64 + ")") == Some(base64)
  {
    if IsBase64(base64) {
      var s := DataUrlPrefix + base64 + ")";
      assert s[..|DataUrlPrefix|] == DataUrlPrefix;
      assert s[|DataUrlPrefix|..|s| - 1] == base64;
      assert ')' !in base64;
    }
  }
}
