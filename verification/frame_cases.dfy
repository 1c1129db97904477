/**
 Concrete messages: the ones the module's comments give, and the ones that
 show how the parser treats escapes it does not honour.
 */
module FrameCases {
  import opened Wrappers
  import opened Text
  import opened Escaping
  import opened Frame

  lemma UmixEventText()
    ensures FrameText("UMIXEVENT", Some("1.2"), [("ON", "1")]) == "<UMIXEVENT:1.2|ON:1>"
    ensures Assign(PlainPairs([("ON", "1")])) == map["ON" := "1"]
  {
    OneParamText("UMIXEVENT", "1.2", ("ON", "1"));
    assert PlainPairs([("ON", "1")]) == [Some(("ON", Unescape("1")))];
  }

  lemma UmixEventFits()
    ensures Clean("UMIXEVENT") && ':' !in "UMIXEVENT" && '|' !in "UMIXEVENT"
    ensures Clean("1.2") && '|' !in "1.2"
    ensures PlainParam(("ON", "1"))
  {
  }

  /** `<UMIXEVENT:1.2|ON:1>`: utility mixer 1, input 2 turned on. */
  lemma UmixEventExample()
    ensures Parse("<UMIXEVENT:1.2|ON:1>") == Message("UMIXEVENT", Some("1.2"), map["ON" := "1"])
    ensures Classify(Parse("<UMIXEVENT:1.2|ON:1>")) == MixerUpdate("1.2")
  {
    UmixEventText();
    UmixEventFits();
    ParseFrameText("UMIXEVENT", Some("1.2"), [("ON", "1")]);
  }

  /** The text of a frame with a channel and one parameter. */
  lemma OneParamText(kind: string, channel: string, p: (string, string))
    ensures FrameText(kind, Some(channel), [p]) == "<" + kind + ":" + channel + "|" + p.0 + ":" + p.1 + ">"
  {
    assert PlainTokens([p]) == [TokenText(p)];
  }

  /**
   The token of `<SRC:00400002|NAME:mic/:Bob>`, in general: a token is cut at
   its first colon, so an escaped colon stays in the value and is unescaped there.
   */
  lemma EscapedColonInValue(key: string, a: string, b: string)
    requires Clean(key) && ':' !in key && ',' !in key && '|' !in key
    requires key == [] || !IsWhitespace(key[0])
    requires Clean(a) && ',' !in a && '|' !in a && '/' !in a
    requires Clean(b) && ',' !in b && '|' !in b && '/' !in b
    requires b == [] || !IsWhitespace(b[|b| - 1])
    ensures Param(key + ":" + (a + "/:" + b)) == Some((key, a + ":" + b))
  {
    EscapedColonPlain(key, a, b);
    ParamOfPlain((key, a + "/:" + b));
    UnescapeEscaped(a, ':', b);
  }

  lemma EscapedColonPlain(key: string, a: string, b: string)
    requires Clean(key) && ':' !in key && ',' !in key && '|' !in key
    requires key == [] || !IsWhitespace(key[0])
    requires Clean(a) && ',' !in a && '|' !in a
    requires Clean(b) && ',' !in b && '|' !in b
    requires b == [] || !IsWhitespace(b[|b| - 1])
    ensures PlainParam((key, a + "/:" + b))
  {
    var value := a + "/:" + b;
    assert value[|value| - 1] == (if b == [] then ':' else b[|b| - 1]);
  }

  /**
   The bars of a message are split before anything is unescaped, so an
   escaped bar ends the parameter string and what follows it is dropped.
   */
  lemma EscapedBarEndsParams(target: string, a: string, b: string)
    requires Clean(target) && '|' !in target
    requires Clean(a) && '|' !in a
    requires Clean(b) && '|' !in b
    ensures SplitFields("<" + target + "|" + a + "/|" + b + ">") == Fields(target, Some(a + "/"))
  {
    var body := target + ['|'] + ((a + "/") + ['|'] + b);
    SplitThree(target, a + "/", b, '|');
    EscapedBarClean(target, a, b);
    StripOuterBrackets(body);
    EscapedBarText(target, a, b);
  }

  lemma EscapedBarClean(target: string, a: string, b: string)
    requires Clean(target) && Clean(a) && Clean(b)
    ensures Clean(target + ['|'] + ((a + "/") + ['|'] + b))
  {
  }

  lemma EscapedBarText(target: string, a: string, b: string)
    ensures "<" + target + "|" + a + "/|" + b + ">" == "<" + (target + ['|'] + ((a + "/") + ['|'] + b)) + ">"
  {
  }

  /**
   A comma is not one of the escapable characters, so `/,` is no escape: the
   comma still ends the token, the value keeps the slash, and the rest is
   read as further tokens.
   */
  lemma EscapedCommaEndsToken(key: string, a: string, rest: string)
    requires ',' !in key && ',' !in a
    ensures Split(key + [':'] + a + ['/', ','] + rest, ',') == [key + [':'] + a + ['/']] + Split(rest, ',')
  {
    var head := key + [':'] + a + ['/'];
    assert key + [':'] + a + ['/', ','] + rest == head + [','] + rest;
    CutAtFirstUnique(head, ',', rest);
  }

  /** `<>`, the heartbeat the module sends, parses to an empty unrecognized message when echoed. */
  lemma EmptyFrameExample()
    ensures Parse("<>") == Message("", None, map[])
    ensures Classify(Parse("<>")) == Unrecognized
  {
    assert FrameText("", None, []) == "<>";
    ParseFrameText("", None, []);
  }
}
