/**
 The inbound side of the protocol: `handleMessage` turns one received message
 into a type, an optional channel and a parameter map, and a mixer event
 replaces that channel's entry in the module's `umix` state.
 */
module Frame {
  import opened Wrappers
  import opened Text
  import opened Escaping

  /** The characters deleted from a message before it is split. */
  const Brackets: set<char> := {'<', '>'}

  predicate Clean(s: string) {
    '<' !in s && '>' !in s
  }

  /** The target (`TYPE[:CHANNEL]`) and the parameter string of one message. */
  datatype Fields = Fields(target: string, paramString: Option<string>)

  /**
   Deletes every bracket, then keeps the first two `|`-separated fields:
   the target, and the parameter string when there is a `|` at all.
   */
  function SplitFields(msg: string): (f: Fields)
    ensures Clean(f.target) && '|' !in f.target
    ensures f.paramString.Some? ==> Clean(f.paramString.value) && '|' !in f.paramString.value
    ensures f.paramString.None? <==> '|' !in Without(msg, Brackets)
    ensures f.paramString.None? ==> f.target == Without(msg, Brackets)
    ensures f.paramString.Some? ==>
      var s := Without(msg, Brackets);
      var upTo := f.target + ['|'] + f.paramString.value;
      upTo <= s && (|upTo| == |s| || s[|upTo|] == '|')
  {
    var s := Without(msg, Brackets);
    var parts := Split(s, '|');
    SplitFirstPieces(s, '|');
    FirstTwoFields(s);
    Fields(parts[0], if |parts| > 1 then Some(parts[1]) else None)
  }

  /** The text up to the second `|` is the first cut's head, a `|`, and the second cut's head. */
  lemma FirstTwoFields(s: string)
    ensures '|' in s ==>
      var rest := CutAtFirst(s, '|').tail.value;
      var upTo := CutAtFirst(s, '|').head + ['|'] + CutAtFirst(rest, '|').head;
      upTo <= s && (|upTo| == |s| || s[|upTo|] == '|')
  {
    var first := CutAtFirst(s, '|');
    if first.tail.Some? {
      var second := CutAtFirst(first.tail.value, '|');
      UpToSecond(s, first.head, first.tail.value, second.head, second.tail);
    }
  }

  lemma UpToSecond(s: string, head: string, rest: string, head2: string, tail2: Option<string>)
    requires s == head + ['|'] + rest
    requires tail2.None? ==> rest == head2
    requires tail2.Some? ==> rest == head2 + ['|'] + tail2.value
    ensures var upTo := head + ['|'] + head2; upTo <= s && (|upTo| == |s| || s[|upTo|] == '|')
  {
    if tail2.Some? {
      assert s == (head + ['|'] + head2) + ['|'] + tail2.value;
    }
  }

  /** The parsed form of one message. */
  datatype Message = Message(kind: string, channel: Option<string>, params: map<string, string>)

  /**
   One comma-separated token, trimmed and split at its first `:`. The key is
   kept as written; the value is unescaped. A token without `:` gives nothing.
   */
  function Param(token: string): (p: Option<(string, string)>)
    ensures p.None? <==> ':' !in Trim(token)
    ensures p.Some? ==>
      var t := Trim(token);
      var key := p.value.0;
      && ':' !in key && |key| < |t| && t[..|key|] == key && t[|key|] == ':'
      && p.value.1 == Unescape(t[|key| + 1..])
    ensures p.Some? ==> CharsFrom(p.value.0, token) && CharsFrom(p.value.1, token)
  {
    var t := Trim(token);
    var cut := CutAtFirst(t, ':');
    match cut.tail
    case None => None
    case Some(raw) =>
      assert t[..|cut.head|] == cut.head && t[|cut.head| + 1..] == raw;
      Some((cut.head, Unescape(raw)))
  }

  /** Each token's parsed key and value, in token order. */
  function Pairs(tokens: seq<string>): (r: seq<Option<(string, string)>>)
    ensures |r| == |tokens|
    ensures forall i :: 0 <= i < |tokens| ==> r[i] == Param(tokens[i])
  {
    seq(|tokens|, i requires 0 <= i < |tokens| => Param(tokens[i]))
  }

  /** A later entry of `pairs` assigns the same key as entry `i`. */
  ghost predicate Overridden<K, V>(pairs: seq<Option<(K, V)>>, i: int)
    requires 0 <= i < |pairs| && pairs[i].Some?
  {
    exists j :: i < j < |pairs| && pairs[j].Some? && pairs[j].value.0 == pairs[i].value.0
  }

  /** The `forEach` over the tokens: each present pair assigns `paramObj[key] = value`, in order. */
  function Assign<K, V>(pairs: seq<Option<(K, V)>>): (m: map<K, V>)
    decreases |pairs|
  {
    if |pairs| == 0 then map[]
    else
      var m := Assign(pairs[..|pairs| - 1]);
      match pairs[|pairs| - 1]
      case None => m
      case Some(p) => m[p.0 := p.1]
  }

  /** A key is assigned exactly when some pair carries it. */
  lemma {:induction false} AssignKeys<K, V>(pairs: seq<Option<(K, V)>>)
    ensures forall k :: k in Assign(pairs) <==>
      exists i :: 0 <= i < |pairs| && pairs[i].Some? && pairs[i].value.0 == k
    decreases |pairs|
  {
    if |pairs| > 0 {
      var n := |pairs| - 1;
      var init := pairs[..n];
      AssignKeys(init);
      forall k
        ensures k in Assign(pairs) <==> exists i :: 0 <= i < |pairs| && pairs[i].Some? && pairs[i].value.0 == k
      {
        if k in Assign(pairs) && !(pairs[n].Some? && pairs[n].value.0 == k) {
          assert k in Assign(init);
          var i :| 0 <= i < n && init[i].Some? && init[i].value.0 == k;
          assert pairs[i] == init[i];
        }
        if exists i :: 0 <= i < |pairs| && pairs[i].Some? && pairs[i].value.0 == k {
          var i :| 0 <= i < |pairs| && pairs[i].Some? && pairs[i].value.0 == k;
          if i < n {
            assert pairs[i] == init[i];
          }
        }
      }
    }
  }

  /** A key's value comes from the last pair that carries it. */
  lemma {:induction false} AssignLastWins<K, V>(pairs: seq<Option<(K, V)>>, i: int)
    requires 0 <= i < |pairs| && pairs[i].Some? && !Overridden(pairs, i)
    ensures pairs[i].value.0 in Assign(pairs)
    ensures Assign(pairs)[pairs[i].value.0] == pairs[i].value.1
    decreases |pairs|
  {
    var n := |pairs| - 1;
    var init := pairs[..n];
    if i < n {
      assert !(pairs[n].Some? && pairs[n].value.0 == pairs[i].value.0);
      assert init[i] == pairs[i];
      AssignLastWins(init, i);
    }
  }

  /** Every assigned key and value comes from some pair. */
  lemma {:induction false} AssignFrom<K, V>(pairs: seq<Option<(K, V)>>, k: K)
    requires k in Assign(pairs)
    ensures exists i :: 0 <= i < |pairs| && pairs[i] == Some((k, Assign(pairs)[k]))
    decreases |pairs|
  {
    var n := |pairs| - 1;
    var init := pairs[..n];
    if !(pairs[n].Some? && pairs[n].value.0 == k) {
      AssignFrom(init, k);
      var i :| 0 <= i < n && init[i] == Some((k, Assign(init)[k]));
      assert pairs[i] == init[i];
    }
  }

  function ParamMap(tokens: seq<string>): map<string, string> {
    Assign(Pairs(tokens))
  }

  /** Keys and values of the parameter map are made of characters of the tokens. */
  lemma ParamMapClean(tokens: seq<string>)
    requires forall i :: 0 <= i < |tokens| ==> Clean(tokens[i])
    ensures forall k :: k in ParamMap(tokens) ==> Clean(k) && Clean(ParamMap(tokens)[k])
  {
    forall k | k in ParamMap(tokens)
      ensures Clean(k) && Clean(ParamMap(tokens)[k])
    {
      AssignFrom(Pairs(tokens), k);
    }
  }

  /** The parameter tokens: the parameter string split on every comma, or none without a `|`. */
  function Tokens(f: Fields): (r: seq<string>)
    ensures f.paramString.None? <==> r == []
    ensures f.paramString.Some? ==> Join(r, ',') == f.paramString.value
    ensures f.paramString.Some? ==> forall i :: 0 <= i < |r| ==> ',' !in r[i] && CharsFrom(r[i], f.paramString.value)
  {
    match f.paramString
    case None => []
    case Some(ps) => Split(ps, ',')
  }

  /** No part of a parsed message holds a bracket. */
  predicate CleanMessage(m: Message) {
    && Clean(m.kind)
    && (m.channel.Some? ==> Clean(m.channel.value))
    && forall k :: k in m.params ==> Clean(k) && Clean(m.params[k])
  }

  /**
   The parsing half of `handleMessage`: the target splits at its first `:`
   into a type and a channel, and the tokens build the parameter map.
   */
  function Parse(msg: string): (m: Message)
    ensures ':' !in m.kind
    ensures m.channel.None? <==> ':' !in SplitFields(msg).target
    ensures m.channel.None? ==> m.kind == SplitFields(msg).target
    ensures m.channel.Some? ==> SplitFields(msg).target == m.kind + [':'] + m.channel.value
    ensures m.params == ParamMap(Tokens(SplitFields(msg)))
  {
    var f := SplitFields(msg);
    var cut := CutAtFirst(f.target, ':');
    Message(cut.head, cut.tail, ParamMap(Tokens(f)))
  }

  /** Since every bracket is deleted first, no part of a parsed message holds one. */
  lemma ParseIsClean(msg: string)
    ensures CleanMessage(Parse(msg))
  {
    var f := SplitFields(msg);
    var tokens := Tokens(f);
    if f.paramString.Some? {
      forall i | 0 <= i < |tokens|
        ensures Clean(tokens[i])
      {
        assert CharsFrom(tokens[i], f.paramString.value);
      }
    }
    ParamMapClean(tokens);
    var cut := CutAtFirst(f.target, ':');
    assert CharsFrom(cut.head, f.target);
  }

  /** How `handleMessage` classifies a parsed message. */
  datatype Kind = MixerUpdate(channel: string) | SystemInfo | Unrecognized

  function Classify(m: Message): (k: Kind)
    ensures k.MixerUpdate? <==>
      (m.kind == "UMIXEVENT" || m.kind == "UMIX") && m.channel.Some? && m.channel.value != ""
    ensures k.MixerUpdate? ==> m.channel == Some(k.channel)
    ensures k.SystemInfo? <==> m.kind == "SYS"
  {
    if (m.kind == "UMIXEVENT" || m.kind == "UMIX") && m.channel.Some? && m.channel.value != "" then
      MixerUpdate(m.channel.value)
    else if m.kind == "SYS" then
      SystemInfo
    else
      Unrecognized
  }

  /** The module's per-channel mixer state, `state.umix`. */
  type Umix = map<string, map<string, string>>

  /**
   The classifying half of `handleMessage`: a mixer event replaces its
   channel's entry wholesale, and anything else leaves the state alone.
   */
  function Apply(umix: Umix, m: Message): (r: Umix)
    ensures Classify(m).MixerUpdate? ==>
      && r.Keys == umix.Keys + {m.channel.value}
      && r[m.channel.value] == m.params
      && forall c :: c in umix && c != m.channel.value ==> r[c] == umix[c]
    ensures !Classify(m).MixerUpdate? ==> r == umix
  {
    match Classify(m)
    case MixerUpdate(ch) => umix[ch := m.params]
    case SystemInfo => umix
    case Unrecognized => umix
  }

  /**
   `handleMessage`: parse one received message and apply it to the mixer
   state. A mixer event installs its parameters as its channel's entry, and
   any other message leaves the state as it is; no channel is ever removed.
   */
  function HandleMessage(umix: Umix, msg: string): (r: Umix)
    ensures umix.Keys <= r.Keys
    ensures forall c :: c in r && (c !in umix || r[c] != umix[c]) ==>
      Classify(Parse(msg)) == MixerUpdate(c) && r[c] == Parse(msg).params
    ensures Classify(Parse(msg)).MixerUpdate? ==>
      r == umix[Parse(msg).channel.value := Parse(msg).params]
    ensures !Classify(Parse(msg)).MixerUpdate? ==> r == umix
  {
    Apply(umix, Parse(msg))
  }

  /** Handling the same mixer message twice is the same as handling it once. */
  lemma ApplyIdempotent(umix: Umix, m: Message)
    ensures Apply(Apply(umix, m), m) == Apply(umix, m)
  {
  }

  /** Messages that do not both update the same channel can be handled in either order. */
  lemma ApplyCommutes(umix: Umix, m1: Message, m2: Message)
    requires Classify(m1).MixerUpdate? && Classify(m2).MixerUpdate? ==> m1.channel != m2.channel
    ensures Apply(Apply(umix, m1), m2) == Apply(Apply(umix, m2), m1)
  {
    if Classify(m1).MixerUpdate? && Classify(m2).MixerUpdate? {
      var a := Apply(Apply(umix, m1), m2);
      var b := Apply(Apply(umix, m2), m1);
      assert a.Keys == b.Keys;
      assert forall c :: c in a ==> a[c] == b[c];
    }
  }

  /** A later update of a channel replaces an earlier one entirely: nothing of the earlier parameters survives. */
  lemma ApplyLastWins(umix: Umix, m1: Message, m2: Message)
    requires Classify(m1).MixerUpdate? && Classify(m2).MixerUpdate? && m1.channel == m2.channel
    ensures Apply(Apply(umix, m1), m2) == Apply(umix, m2)
  {
    var a := Apply(Apply(umix, m1), m2);
    var b := Apply(umix, m2);
    assert a.Keys == b.Keys;
  }

  /**
   A parameter as the module's commands write one: a key with no `:`, `,`,
   `|` or bracket, and a value with no `,`, `|` or bracket, with no space at
   the outer ends of the token.
   */
  predicate PlainParam(p: (string, string)) {
    && Clean(p.0) && Clean(p.1)
    && ':' !in p.0 && ',' !in p.0 && '|' !in p.0
    && ',' !in p.1 && '|' !in p.1
    && (p.0 == [] || !IsWhitespace(p.0[0]))
    && (p.1 == [] || !IsWhitespace(p.1[|p.1| - 1]))
  }

  function TokenText(p: (string, string)): string {
    p.0 + [':'] + p.1
  }

  function TargetText(kind: string, channel: Option<string>): string {
    if channel.Some? then kind + [':'] + channel.value else kind
  }

  function FrameBody(target: string, params: seq<(string, string)>): string {
    target + (if |params| == 0 then [] else ['|'] + Join(PlainTokens(params), ','))
  }

  /** The text of a frame `<TYPE[:CHANNEL][|KEY:VALUE,...]>`. */
  function FrameText(kind: string, channel: Option<string>, params: seq<(string, string)>): string {
    "<" + FrameBody(TargetText(kind, channel), params) + ">"
  }

  /** A plain token parses to its key and its unescaped value. */
  lemma ParamOfPlain(p: (string, string))
    requires PlainParam(p)
    ensures Param(TokenText(p)) == Some((p.0, Unescape(p.1)))
  {
    var t := TokenText(p);
    assert t[0] == (if p.0 == [] then ':' else p.0[0]);
    assert t[|t| - 1] == (if p.1 == [] then ':' else p.1[|p.1| - 1]);
    assert Trim(t) == t;
    CutAtFirstUnique(p.0, ':', p.1);
  }

  lemma StripOuterBrackets(body: string)
    requires Clean(body)
    ensures Without("<" + body + ">", Brackets) == body
  {
    WithoutConcat("<" + body, ">", Brackets);
    WithoutConcat("<", body, Brackets);
    WithoutNothingToDrop(body, Brackets);
  }

  function PlainTokens(params: seq<(string, string)>): seq<string> {
    seq(|params|, i requires 0 <= i < |params| => TokenText(params[i]))
  }

  function PlainPairs(params: seq<(string, string)>): seq<Option<(string, string)>> {
    seq(|params|, i requires 0 <= i < |params| => Some((params[i].0, Unescape(params[i].1))))
  }

  /** The fields of `<TARGET|TOKENS>` are the target and the joined tokens; without tokens there is no parameter string. */
  lemma FieldsOfFrameText(target: string, params: seq<(string, string)>)
    requires Clean(target) && '|' !in target
    requires forall i :: 0 <= i < |params| ==> PlainParam(params[i])
    ensures var f := SplitFields("<" + FrameBody(target, params) + ">");
      && f.target == target
      && (|params| == 0 ==> f.paramString.None?)
      && (|params| > 0 ==> f.paramString == Some(Join(PlainTokens(params), ',')))
  {
    var tokens := PlainTokens(params);
    var body := FrameBody(target, params);
    if |params| > 0 {
      JoinAvoids(tokens, ',', '<');
      JoinAvoids(tokens, ',', '>');
      JoinAvoids(tokens, ',', '|');
      var joined := Join(tokens, ',');
      assert Join([target, joined], '|') == body;
      SplitJoin([target, joined], '|');
    }
    StripOuterBrackets(body);
  }

  /** The plain tokens, joined by commas, split back into themselves and parse to their pairs. */
  lemma PairsOfPlainTokens(params: seq<(string, string)>)
    requires |params| > 0
    requires forall i :: 0 <= i < |params| ==> PlainParam(params[i])
    ensures Pairs(Split(Join(PlainTokens(params), ','), ',')) == PlainPairs(params)
  {
    SplitJoin(PlainTokens(params), ',');
    forall i | 0 <= i < |params|
      ensures Param(PlainTokens(params)[i]) == PlainPairs(params)[i]
    {
      ParamOfPlain(params[i]);
    }
  }

  lemma ParamsOfFrameText(target: string, params: seq<(string, string)>)
    requires Clean(target) && '|' !in target
    requires forall i :: 0 <= i < |params| ==> PlainParam(params[i])
    ensures ParamMap(Tokens(SplitFields("<" + FrameBody(target, params) + ">"))) == Assign(PlainPairs(params))
  {
    FieldsOfFrameText(target, params);
    if |params| > 0 {
      PairsOfPlainTokens(params);
    }
  }

  /**
   Parsing a frame written from a type, an optional channel and plain
   parameters gives back the type and the channel, and assigns each key its
   unescaped value in order, so the last of equal keys wins.
   */
  lemma ParseFrameText(kind: string, channel: Option<string>, params: seq<(string, string)>)
    requires Clean(kind) && ':' !in kind && '|' !in kind
    requires channel.Some? ==> Clean(channel.value) && '|' !in channel.value
    requires forall i :: 0 <= i < |params| ==> PlainParam(params[i])
    ensures Parse(FrameText(kind, channel, params)) == Message(kind, channel, Assign(PlainPairs(params)))
  {
    var target := TargetText(kind, channel);
    FieldsOfFrameText(target, params);
    ParamsOfFrameText(target, params);
    if channel.Some? {
      CutAtFirstUnique(kind, ':', channel.value);
    }
    assert CutAtFirst(target, ':') == Cut(kind, channel);
  }
}
