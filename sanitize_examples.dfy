/**
  Concrete inputs of `cleanText` (assets/patients.js): a lone `&amp;`, and
  the escaped text `&amp;lt;`, which the literal replacement chain decodes twice
  before the `innerHTML` fallback is reached.
*/
module SanitizeExamples {
  import opened JsText
  import opened Sanitize

  /** `cleanText('&amp;')` is `'&'`, in both versions. */
  lemma CleanTextAmpersandAlone(text: string)
    requires text == "&amp;"
    ensures CleanText(Str(text)) == "&"
    ensures CleanTextAsWritten(Str(text)) == "&"
  {
    EscapeCharIsEntity('&', []);
    assert EscapeChar('&') + [] == text;
    AmpersandAloneDecoded(text);
    AmpersandAloneFinished("&");
    CleanTextOfEntity(text);
  }

  lemma AmpersandAloneDecoded(text: string)
    requires text == "&amp;"
    ensures Decode(text) == "&"
    ensures DecodeAsWritten(text) == "&"
  {
    assert StripTags(text) == text by { assert '<' !in text; }
    DecodeOnceAmpFront([]);
    assert text + [] == text;
    ReplaceAllMatch(text, "&", []);
    assert ReplaceAll(text, text, "&") == "&";
    DecodeNamedChainNoSemicolon("&");
  }

  lemma AmpersandAloneFinished(amp: string)
    requires amp == "&"
    ensures Finish(amp) == amp
  {
    assert NoControl(amp);
    assert StripControls(amp) == amp;
    assert amp == [] + "&" + [];
    CollapseSingleAmp([], []);
    TrimUnchanged(amp);
  }

  /** The literal chain decodes `&amp;lt;`, the escaped form of the text
      `&lt;`, twice, to `<`; the one-pass decoder gives `&lt;` back, which
      still holds an `&` and so would reach the `innerHTML` fallback. */
  lemma CleanTextAsWrittenDecodesTwice(text: string)
    requires text == "&lt;"
    ensures Escape(text) == "&amp;lt;"
    ensures CleanTextAsWritten(Str(Escape(text))) == "<"
    ensures CleanText(Str(Escape(text))) == text
  {
    EscapeOfLt(text);
    var e := Escape(text);
    EscapeCharIsEntity('&', "lt;");
    assert EscapeChar('&') + "lt;" == e;
    EscapedLtDecodedAsWritten(e);
    EscapedLtDecodedOnce(text);
    CleanTextOfEntity(e);
    LessThanFinished("<");
    EscapedLtFinished(text);
  }

  lemma EscapeOfLt(text: string)
    requires text == "&lt;"
    ensures Escape(text) == "&amp;lt;"
  {
    assert Escape(text) == "&amp;" + Escape(text[1..]);
    assert Escape("lt;") == "lt;";
  }

  lemma EscapedLtDecodedAsWritten(e: string)
    requires e == "&amp;lt;"
    ensures DecodeAsWritten(e) == "<"
  {
    assert StripTags(e) == e by { assert '<' !in e; }
    ChainDecodesTwice(e);
    assert DecodeDecimal("<") == "<";
    assert DecodeHex("<") == "<";
  }

  lemma EscapedLtDecodedOnce(text: string)
    requires text == "&lt;"
    ensures Decode(Escape(text)) == text
  {
    EscapeOfLt(text);
    var e := Escape(text);
    assert StripTags(e) == e by { assert '<' !in e; }
    DecodeOnceEscape(text);
  }

  /** The literal chain on `&amp;lt;`: the first replacement produces `&lt;`, which the second turns into `<`. */
  lemma ChainDecodesTwice(e: string)
    requires e == "&amp;lt;"
    ensures DecodeNamedChain(e) == "<"
  {
    ReplaceAllFirstMatch([], "&amp;", "&", "lt;");
    assert [] + "&amp;" + "lt;" == e;
    ReplaceAllAbsent("lt;", "&amp;", "&", '&');
    var d := ReplaceAll(e, "&amp;", "&");
    assert d == "&lt;";
    ReplaceAllFirstMatch([], "&lt;", "<", []);
    assert [] + "&lt;" + [] == d;
    assert ReplaceAll(d, "&lt;", "<") == "<";
    ReplaceAllAbsent("<", "&gt;", ">", '&');
    ReplaceAllAbsent("<", "&quot;", "\"", '&');
    ReplaceAllAbsent("<", "&#39;", "'", '&');
    ReplaceAllAbsent("<", "&nbsp;", " ", '&');
    ReplaceAllAbsent("<", "&#160;", " ", '&');
  }

  lemma LessThanFinished(lt: string)
    requires lt == "<"
    ensures Finish(lt) == lt
  {
    assert '&' !in lt;
    assert Printable(lt);
    FinishUnchanged(lt);
  }

  lemma EscapedLtFinished(text: string)
    requires text == "&lt;"
    ensures Finish(text) == text
  {
    assert NoControl(text);
    assert StripControls(text) == text;
    var y := text[1..];
    assert text == [] + "&" + y;
    CollapseSingleAmp([], y);
    TrimUnchanged(text);
  }
}
