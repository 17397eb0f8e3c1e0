/**
  The `no-unnecessary-template-literal` rule: a template literal with no
  interpolation and no line break is reported and rewritten to a
  single-quoted string literal, with every `'` in its text escaped as `\'`.

  The parser's cooking of template escapes is not modelled: a template
  chunk arrives with its raw text and, when its escapes are valid, its
  cooked text.

  To judge the rewrite, the module also decodes single-quoted string
  literals the way section 12.9.4 of ECMA-262 (String Literals) reads them.
 */
module NoUnnecessaryTemplateLiteral {
  import opened Wrappers
  import opened Syntax

  datatype Message = UnnecessaryTemplate

  /** The text the rule works with: the cooked text when there is one, the raw
      text otherwise. */
  function QuasiText(q: TemplateElement): string {
    q.cooked.GetOr(q.raw)
  }

  predicate HasLineBreak(text: string) {
    '\n' in text || '\r' in text
  }

  /** `text.replaceAll("'", "\\'")`: every single quote gets a backslash in
      front of it; nothing else changes, backslashes included. */
  function Escape(text: string): (escaped: string)
    ensures |escaped| == |text| + Occurrences('\'', text)
    ensures forall i :: 0 <= i < |escaped| && escaped[i] == '\'' ==> i > 0 && escaped[i - 1] == '\\'
    ensures '\'' !in text ==> escaped == text
    ensures forall c :: c != '\\' && c != '\'' ==> (c in escaped <==> c in text)
  {
    if |text| == 0 then []
    else
      var head := if text[0] == '\'' then "\\'" else [text[0]];
      var tail := Escape(text[1..]);
      assert forall c :: c in text <==> c == text[0] || c in text[1..] by {
        assert text == [text[0]] + text[1..];
      }
      head + tail
  }

  /** The left-to-right decoder that turns every `\'` back into `'`. */
  function Unescape(s: string): string
    decreases |s|
  {
    if |s| == 0 then []
    else if |s| >= 2 && s[0] == '\\' && s[1] == '\'' then "'" + Unescape(s[2..])
    else [s[0]] + Unescape(s[1..])
  }

  /** Decoding undoes the escaping, whatever the text. */
  lemma {:induction false} UnescapeEscape(text: string)
    ensures Unescape(Escape(text)) == text
    decreases |text|
  {
    if |text| > 0 {
      var tail := Escape(text[1..]);
      UnescapeEscape(text[1..]);
      if text[0] == '\'' {
        assert Escape(text) == "\\'" + tail;
        assert (("\\'" + tail)[2..]) == tail;
      } else {
        assert Escape(text) == [text[0]] + tail;
        assert |tail| > 0 ==> tail[0] != '\'';
        assert ([text[0]] + tail)[1..] == tail;
      }
      assert text == [text[0]] + text[1..];
    }
  }

  /** The replacement text: the escaped text between single quotes. */
  function Replacement(text: string): (literal: string)
    ensures |literal| == |text| + Occurrences('\'', text) + 2
    ensures literal[0] == '\'' && literal[|literal| - 1] == '\''
    ensures Unescape(literal[1..|literal| - 1]) == text
    ensures '\'' !in text ==> literal == "'" + text + "'"
  {
    var literal := "'" + Escape(text) + "'";
    assert literal[1..|literal| - 1] == Escape(text);
    UnescapeEscape(text);
    literal
  }

  /** The empty template becomes the empty string literal. */
  lemma EmptyTemplateReplacement()
    ensures Replacement("") == "''"
  {
  }

  /** The `TemplateLiteral` handler. */
  function OnTemplateLiteral(node: Expr): (r: Option<Report<Message>>)
    requires node.TemplateLiteral?
    ensures r.Some? <==>
      |node.expressions| == 0 && |node.quasis| == 1 && !HasLineBreak(QuasiText(node.quasis[0]))
    ensures r.Some? ==>
      r.value == Report(UnnecessaryTemplate, Some(Patch(node.range, Replacement(QuasiText(node.quasis[0])))))
  {
    if |node.expressions| == 0 && |node.quasis| == 1 then
      var text := QuasiText(node.quasis[0]);
      if HasLineBreak(text) then None
      else Some(Report(UnnecessaryTemplate, Some(Patch(node.range, Replacement(text)))))
    else None
  }

  /** The character a single-character escape `\c` denotes in a JavaScript
      string literal, `c` itself for a non-escape character, and None for the
      forms this model does not decode: `\0`, other digits, `\x`, `\u`, and a
      backslash before a line terminator. */
  function EscapedChar(c: char): Option<char> {
    if c == '\'' || c == '"' || c == '\\' then Some(c)
    else if c == 'b' then Some('\U{0008}')
    else if c == 'f' then Some('\U{000C}')
    else if c == 'n' then Some('\n')
    else if c == 'r' then Some('\r')
    else if c == 't' then Some('\t')
    else if c == 'v' then Some('\U{000B}')
    else if '0' <= c <= '9' || c == 'x' || c == 'u' then None
    else if c == '\n' || c == '\r' || c == '\U{2028}' || c == '\U{2029}' then None
    else Some(c)
  }

  /** The value of the characters between the quotes of a single-quoted string
      literal, or None when they do not form one: an unescaped `'` would end
      the literal early, a raw line feed or carriage return is not allowed, and
      a trailing lone backslash escapes the closing quote. */
  function DecodeBody(s: string): Option<string>
    decreases |s|
  {
    if |s| == 0 then Some([])
    else if s[0] == '\'' || s[0] == '\n' || s[0] == '\r' then None
    else if s[0] == '\\' then
      if |s| == 1 then None
      else
        match (EscapedChar(s[1]), DecodeBody(s[2..]))
        case (Some(c), Some(rest)) => Some([c] + rest)
        case _ => None
    else
      match DecodeBody(s[1..])
      case Some(rest) => Some([s[0]] + rest)
      case None => None
  }

  /** The value of a single-quoted JavaScript string literal, or None. */
  function DecodeSingleQuoted(literal: string): Option<string> {
    if |literal| >= 2 && literal[0] == '\'' && literal[|literal| - 1] == '\'' then
      DecodeBody(literal[1..|literal| - 1])
    else None
  }

  /** Without backslashes and line breaks in the text, the rewrite is a string
      literal whose value is the template's text. */
  lemma {:induction false} ReplacementPreservesBackslashFreeText(text: string)
    requires '\\' !in text && !HasLineBreak(text)
    ensures DecodeSingleQuoted(Replacement(text)) == Some(text)
    decreases |text|
  {
    var literal := Replacement(text);
    assert literal[1..|literal| - 1] == Escape(text);
    EscapeDecodes(text);
  }

  lemma {:induction false} EscapeDecodes(text: string)
    requires '\\' !in text && !HasLineBreak(text)
    ensures DecodeBody(Escape(text)) == Some(text)
    decreases |text|
  {
    if |text| > 0 {
      var tail := text[1..];
      assert text == [text[0]] + tail;
      assert '\\' !in tail && !HasLineBreak(tail);
      EscapeDecodes(tail);
      if text[0] == '\'' {
        assert ("\\'" + Escape(tail))[2..] == Escape(tail);
      } else {
        assert ([text[0]] + Escape(tail))[1..] == Escape(tail);
      }
    }
  }

  /** The cooked text of the template `` `\\` `` is one backslash; the rewrite
      `'\'` is not a string literal, since the backslash escapes the closing
      quote. */
  lemma BackslashBreaksReplacement()
    ensures Replacement("\\") == "'\\'"
    ensures DecodeSingleQuoted(Replacement("\\")).None?
  {
  }

  /** Escaping that also doubles every backslash. */
  function EscapeQuotesAndBackslashes(text: string): (escaped: string)
    ensures |escaped| == |text| + Occurrences('\'', text) + Occurrences('\\', text)
    ensures '\'' !in text && '\\' !in text ==> escaped == text
  {
    if |text| == 0 then []
    else
      var head := if text[0] == '\'' then "\\'" else if text[0] == '\\' then "\\\\" else [text[0]];
      assert text == [text[0]] + text[1..];
      head + EscapeQuotesAndBackslashes(text[1..])
  }

  /** The rewrite with backslashes escaped too. */
  function CorrectedReplacement(text: string): (literal: string)
    ensures |literal| == |text| + Occurrences('\'', text) + Occurrences('\\', text) + 2
    ensures '\'' !in text && '\\' !in text ==> literal == Replacement(text)
  {
    "'" + EscapeQuotesAndBackslashes(text) + "'"
  }

  /** For every text without line breaks, the corrected rewrite is a string
      literal whose value is the text. */
  lemma {:induction false} CorrectedReplacementPreservesText(text: string)
    requires !HasLineBreak(text)
    ensures DecodeSingleQuoted(CorrectedReplacement(text)) == Some(text)
  {
    var literal := CorrectedReplacement(text);
    assert literal[1..|literal| - 1] == EscapeQuotesAndBackslashes(text);
    CorrectedEscapeDecodes(text);
  }

  lemma {:induction false} CorrectedEscapeDecodes(text: string)
    requires !HasLineBreak(text)
    ensures DecodeBody(EscapeQuotesAndBackslashes(text)) == Some(text)
    decreases |text|
  {
    if |text| > 0 {
      var tail := text[1..];
      var escapedTail := EscapeQuotesAndBackslashes(tail);
      assert text == [text[0]] + tail;
      assert !HasLineBreak(tail);
      CorrectedEscapeDecodes(tail);
      if text[0] == '\'' || text[0] == '\\' {
        var head := if text[0] == '\'' then "\\'" else "\\\\";
        assert EscapeQuotesAndBackslashes(text) == head + escapedTail;
        assert (head + escapedTail)[2..] == escapedTail;
      } else {
        assert EscapeQuotesAndBackslashes(text) == [text[0]] + escapedTail;
        assert ([text[0]] + escapedTail)[1..] == escapedTail;
      }
    }
  }

  /** The template is part of a tagged template such as `` String.raw`x` ``:
      there it is an argument list for the tag, not a string. */
  predicate InTaggedTemplate(parent: Option<Parent>) {
    parent.Some? && parent.value.kind == "TaggedTemplateExpression"
  }

  /** `` String.raw`x` ``: the template after the tag spans offsets 10..13. */
  const TaggedSource := "String.raw`x`"
  const TaggedQuasi := TemplateLiteral(Range(10, 13), [TemplateElement(Range(11, 12), "x", Some("x"))], [])

  /** As written, the handler never looks at the parent: the template of a
      tagged template is rewritten too, and `` String.raw`x` `` becomes
      `String.raw'x'`, a tag followed by a string literal, which is not an
      expression. */
  lemma TaggedTemplateRewritten()
    ensures OnTemplateLiteral(TaggedQuasi) == Some(Report(UnnecessaryTemplate, Some(Patch(Range(10, 13), "'x'"))))
    ensures ApplyPatch(TaggedSource, Patch(Range(10, 13), "'x'")) == "String.raw'x'"
  {
    assert QuasiText(TaggedQuasi.quasis[0]) == "x";
    assert "x"[0] == 'x' && '\'' !in "x" && !HasLineBreak("x");
    assert Replacement("x") == "'x'";
    var source := TaggedSource;
    assert source == "String.raw`x`";
    assert source[..10] == "String.raw";
  }

  /** The `TemplateLiteral` handler, corrected twice: it leaves tagged
      templates alone, and it escapes backslashes as well as quotes. It reports
      the same untagged templates as the code, and the string literal it
      writes has the template's text as its value. */
  function CorrectedOnTemplateLiteral(node: Expr, parent: Option<Parent>): (r: Option<Report<Message>>)
    requires node.TemplateLiteral?
    ensures r.Some? <==> OnTemplateLiteral(node).Some? && !InTaggedTemplate(parent)
    ensures r.Some? ==>
      && r.value.fix.Some?
      && r.value.fix.value.range == node.range
      && DecodeSingleQuoted(r.value.fix.value.text) == Some(QuasiText(node.quasis[0]))
  {
    if InTaggedTemplate(parent) then None
    else if |node.expressions| == 0 && |node.quasis| == 1 then
      var text := QuasiText(node.quasis[0]);
      if HasLineBreak(text) then None
      else
        CorrectedReplacementPreservesText(text);
        Some(Report(UnnecessaryTemplate, Some(Patch(node.range, CorrectedReplacement(text)))))
    else None
  }
}
