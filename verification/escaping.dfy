/**
 The device's value escaping: each of `|`, `:`, `?`, `<` and `>` inside a
 value is written with a leading `/`. Only the unescaping direction exists in
 the module; it is five global replacements applied one after another.
 */
module Escaping {
  import opened Text

  /** The characters the device writes with a leading slash. */
  const Escapable: set<char> := {'|', ':', '?', '<', '>'}

  /**
   One `s.replace(/\/c/g, c)`: scanning left to right, every non-overlapping
   occurrence of `/c` becomes `c`.
   */
  function ReplaceSlashed(s: string, c: char): (r: string)
    ensures |r| <= |s|
    ensures CharsFrom(r, s)
    ensures ('/' !in s || c !in s) ==> r == s
    decreases |s|
  {
    if |s| < 2 then s
    else if s[0] == '/' && s[1] == c then [c] + ReplaceSlashed(s[2..], c)
    else [s[0]] + ReplaceSlashed(s[1..], c)
  }

  /** `unescapeValue`: the five replacements in the order the module applies them. */
  function Unescape(v: string): (r: string)
    ensures |r| <= |v|
    ensures CharsFrom(r, v)
    ensures '/' !in v ==> r == v
  {
    ReplaceSlashed(ReplaceSlashed(ReplaceSlashed(ReplaceSlashed(ReplaceSlashed(v, '|'), ':'), '?'), '<'), '>')
  }

  /**
   A single left-to-right scan: a `/` followed by a character of `escapable`
   stands for that character, and every other character stands for itself.
   */
  function ScanUnescape(s: string, escapable: set<char>): (r: string)
    ensures |s| > 0 ==> |r| > 0 && (r[0] == s[0] || r[0] in escapable)
    decreases |s|
  {
    if |s| < 2 then s
    else if s[0] == '/' && s[1] in escapable then [s[1]] + ScanUnescape(s[2..], escapable)
    else [s[0]] + ScanUnescape(s[1..], escapable)
  }

  lemma ReplaceSlashedCons(x: char, t: string, c: char)
    requires x != '/'
    ensures ReplaceSlashed([x] + t, c) == [x] + ReplaceSlashed(t, c)
  {
    assert ([x] + t)[1..] == t;
  }

  lemma ReplaceSlashedPair(t: string, c: char)
    ensures ReplaceSlashed(['/', c] + t, c) == [c] + ReplaceSlashed(t, c)
  {
    assert (['/', c] + t)[2..] == t;
  }

  lemma ReplaceSlashedLoneSlash(t: string, c: char)
    requires t == [] || t[0] != c
    ensures ReplaceSlashed(['/'] + t, c) == ['/'] + ReplaceSlashed(t, c)
  {
    assert (['/'] + t)[1..] == t;
  }

  lemma ScanUnescapeCons(x: char, t: string, escapable: set<char>)
    requires x != '/'
    ensures ScanUnescape([x] + t, escapable) == [x] + ScanUnescape(t, escapable)
  {
    assert ([x] + t)[1..] == t;
  }

  /** With nothing escapable the scan is the identity. */
  lemma {:induction false} ScanUnescapeNothing(s: string)
    ensures ScanUnescape(s, {}) == s
    decreases |s|
  {
    if |s| >= 2 {
      ScanUnescapeNothing(s[1..]);
    }
  }

  /**
   Replacing `/c` after a scan over `escapable` is the same as one scan over
   `escapable + {c}`: the replacement only ever meets slashes the scan kept.
   */
  lemma {:induction false} ReplaceAfterScan(s: string, escapable: set<char>, c: char)
    requires '/' !in escapable && c != '/' && c !in escapable
    ensures ReplaceSlashed(ScanUnescape(s, escapable), c) == ScanUnescape(s, escapable + {c})
    decreases |s|
  {
    var wider := escapable + {c};
    if |s| < 2 {
      assert ScanUnescape(s, escapable) == s;
    } else if s[0] == '/' && s[1] in escapable {
      ReplaceSlashedCons(s[1], ScanUnescape(s[2..], escapable), c);
      ReplaceAfterScan(s[2..], escapable, c);
    } else if s[0] == '/' && s[1] == c {
      ScanUnescapeCons(c, s[2..], escapable);
      assert s[1..] == [c] + s[2..];
      assert ScanUnescape(s, escapable) == ['/', c] + ScanUnescape(s[2..], escapable);
      ReplaceSlashedPair(ScanUnescape(s[2..], escapable), c);
      ReplaceAfterScan(s[2..], escapable, c);
    } else if s[0] == '/' {
      var t := ScanUnescape(s[1..], escapable);
      assert t[0] != c;
      ReplaceSlashedLoneSlash(t, c);
      ReplaceAfterScan(s[1..], escapable, c);
    } else {
      ReplaceSlashedCons(s[0], ScanUnescape(s[1..], escapable), c);
      ReplaceAfterScan(s[1..], escapable, c);
    }
  }

  /**
   The five sequential replacements give the same result as one left-to-right
   scan, so no value is unescaped twice or half-way.
   */
  lemma UnescapeIsSingleScan(v: string)
    ensures Unescape(v) == ScanUnescape(v, Escapable)
  {
    ScanUnescapeNothing(v);
    ReplaceAfterScan(v, {}, '|');
    ReplaceAfterScan(v, {'|'}, ':');
    ReplaceAfterScan(v, {'|', ':'}, '?');
    ReplaceAfterScan(v, {'|', ':', '?'}, '<');
    ReplaceAfterScan(v, {'|', ':', '?', '<'}, '>');
    assert {} + {'|'} == {'|'};
    assert {'|'} + {':'} == {'|', ':'};
    assert {'|', ':'} + {'?'} == {'|', ':', '?'};
    assert {'|', ':', '?'} + {'<'} == {'|', ':', '?', '<'};
    assert {'|', ':', '?', '<'} + {'>'} == Escapable;
  }

  /** Each escape sequence on its own becomes the bare character. */
  lemma UnescapeEachEscape(c: char)
    requires c in Escapable
    ensures Unescape(['/', c]) == [c]
  {
    UnescapeIsSingleScan(['/', c]);
    assert ['/', c][2..] == [];
  }

  /** Characters before the first slash pass through the scan unchanged. */
  lemma {:induction false} ScanUnescapePlain(a: string, t: string, escapable: set<char>)
    requires '/' !in a
    ensures ScanUnescape(a + t, escapable) == a + ScanUnescape(t, escapable)
    decreases |a|
  {
    if |a| == 0 {
      assert a + t == t;
    } else {
      assert a + t == [a[0]] + (a[1..] + t);
      ScanUnescapeCons(a[0], a[1..] + t, escapable);
      ScanUnescapePlain(a[1..], t, escapable);
      assert a == [a[0]] + a[1..];
    }
  }

  lemma ScanUnescapeEscaped(a: string, c: char, b: string)
    requires '/' !in a && '/' !in b && c in Escapable
    ensures ScanUnescape(a + ['/', c] + b, Escapable) == a + [c] + b
  {
    var t := ['/', c] + b;
    assert a + ['/', c] + b == a + t;
    ScanUnescapePlain(a, t, Escapable);
    assert t[2..] == b;
    ScanUnescapePlain(b, [], Escapable);
    assert b + [] == b;
  }

  /** One escape between slash-free text: `a/cb` reads `acb`. */
  lemma UnescapeEscaped(a: string, c: char, b: string)
    requires '/' !in a && '/' !in b && c in Escapable
    ensures Unescape(a + ['/', c] + b) == a + [c] + b
  {
    UnescapeIsSingleScan(a + ['/', c] + b);
    ScanUnescapeEscaped(a, c, b);
  }

  /** The escaped colon of a source name: `mic/:Bob` reads `mic:Bob`. */
  lemma UnescapeEscapedColon()
    ensures Unescape("mic/:Bob") == "mic:Bob"
  {
    assert "/:Bob"[2..] == "Bob";
    assert ScanUnescape("/:Bob", Escapable) == ":Bob";
    assert "c/:Bob"[1..] == "/:Bob";
    assert "ic/:Bob"[1..] == "c/:Bob";
    assert "mic/:Bob"[1..] == "ic/:Bob";
    assert ScanUnescape("mic/:Bob", Escapable) == "mic:Bob";
    UnescapeIsSingleScan("mic/:Bob");
  }

  /** A slash before any other character is kept: `a/b` is left as it is, `//:` reads `/:`. */
  lemma UnescapeKeepsOtherSlashes()
    ensures Unescape("a/b") == "a/b"
    ensures Unescape("//:") == "/:"
  {
    assert "a/b"[1..] == "/b";
    assert ScanUnescape("/b", Escapable) == "/b";
    assert ScanUnescape("a/b", Escapable) == "a/b";
    UnescapeIsSingleScan("a/b");
    assert "//:"[1..] == "/:";
    assert "/:"[2..] == "";
    assert ScanUnescape("/:", Escapable) == ":";
    assert ScanUnescape("//:", Escapable) == "/:";
    UnescapeIsSingleScan("//:");
  }
}
