/**
 The JavaScript string primitives the frame parser is built from:
 `String.prototype.trim`, `indexOf`, `substring`, `split` with a one-character
 separator, and a global `replace` that deletes a set of characters.
 */
module Text {
  import opened Wrappers

  /** The ECMAScript WhiteSpace and LineTerminator code points, which `trim` removes. */
  predicate IsWhitespace(c: char) {
    || c == '\t' || c == '\n' || c == '\U{B}' || c == '\U{C}' || c == '\r' || c == ' '
    || c == '\U{A0}' || c == '\U{1680}' || ('\U{2000}' <= c <= '\U{200A}')
    || c == '\U{2028}' || c == '\U{2029}' || c == '\U{202F}' || c == '\U{205F}'
    || c == '\U{3000}' || c == '\U{FEFF}'
  }

  /** Every character of `r` occurs in `s`. */
  predicate CharsFrom(r: string, s: string) {
    forall c :: c in r ==> c in s
  }

  /** `r` is a contiguous piece of `s`. */
  ghost predicate IsInfix(r: string, s: string) {
    exists i, j :: 0 <= i <= j <= |s| && s[i..j] == r
  }

  /** Drops the leading whitespace. */
  function TrimStart(s: string): (r: string)
    ensures |r| <= |s| && r == s[|s| - |r|..]
    ensures forall i :: 0 <= i < |s| - |r| ==> IsWhitespace(s[i])
    ensures r == [] || !IsWhitespace(r[0])
    decreases |s|
  {
    if |s| > 0 && IsWhitespace(s[0]) then TrimStart(s[1..]) else s
  }

  /** Drops the trailing whitespace. */
  function TrimEnd(s: string): (r: string)
    ensures |r| <= |s| && r == s[..|r|]
    ensures forall i :: |r| <= i < |s| ==> IsWhitespace(s[i])
    ensures r == [] || !IsWhitespace(r[|r| - 1])
    decreases |s|
  {
    if |s| > 0 && IsWhitespace(s[|s| - 1]) then TrimEnd(s[..|s| - 1]) else s
  }

  /** `String.prototype.trim`: the longest infix with no whitespace at either end. */
  function Trim(s: string): (r: string)
    ensures IsInfix(r, s) && CharsFrom(r, s)
    ensures r == [] || (!IsWhitespace(r[0]) && !IsWhitespace(r[|r| - 1]))
    ensures (s == [] || (!IsWhitespace(s[0]) && !IsWhitespace(s[|s| - 1]))) ==> r == s
  {
    var t := TrimStart(s);
    var r := TrimEnd(t);
    InfixOfSuffix(s, t, r);
    r
  }

  /** `trim` removes only leading and trailing whitespace, and nothing from inside. */
  lemma TrimRemovesOnlyWhitespace(s: string)
    ensures var r := Trim(s); exists i :: 0 <= i <= |s| - |r| && TrimmedAt(s, r, i)
  {
    var t := TrimStart(s);
    var r := TrimEnd(t);
    assert Trim(s) == r;
    TrimmedAtStart(s, t, r);
  }

  /**
   `r` sits at position `i` of `s`, and everything before and after it is
   whitespace: only leading and trailing whitespace was removed.
   */
  predicate TrimmedAt(s: string, r: string, i: int)
    requires 0 <= i <= |s| - |r|
  {
    && s[i..i + |r|] == r
    && (forall k :: 0 <= k < i ==> IsWhitespace(s[k]))
    && (forall k :: i + |r| <= k < |s| ==> IsWhitespace(s[k]))
  }

  lemma TrimmedAtStart(s: string, t: string, r: string)
    requires |t| <= |s| && t == s[|s| - |t|..]
    requires forall k :: 0 <= k < |s| - |t| ==> IsWhitespace(s[k])
    requires |r| <= |t| && r == t[..|r|]
    requires forall k :: |r| <= k < |t| ==> IsWhitespace(t[k])
    ensures TrimmedAt(s, r, |s| - |t|)
  {
    var i := |s| - |t|;
    assert s[i..i + |r|] == r;
    forall k | i + |r| <= k < |s|
      ensures IsWhitespace(s[k])
    {
      assert s[k] == t[k - i];
    }
  }

  /**
   `trim` is the only such piece: any infix of `s` with only whitespace
   around it and none at either of its ends is `Trim(s)`.
   */
  lemma TrimUnique(s: string, r: string, i: int)
    requires 0 <= i <= |s| - |r| && TrimmedAt(s, r, i)
    requires r == [] || (!IsWhitespace(r[0]) && !IsWhitespace(r[|r| - 1]))
    ensures r == Trim(s)
  {
    var t := Trim(s);
    TrimRemovesOnlyWhitespace(s);
    var j :| 0 <= j <= |s| - |t| && TrimmedAt(s, t, j);
    if r == [] {
      assert forall k :: 0 <= k < |s| ==> IsWhitespace(s[k]);
      WhitespaceTrimsToEmpty(s, t, j);
    } else {
      SliceAt(s, r, i);
      assert !IsWhitespace(s[i]);
      assert t != [];
      SamePiece(s, r, i, t, j);
    }
  }

  lemma SliceAt(s: string, r: string, i: int)
    requires 0 <= i <= |s| - |r| && s[i..i + |r|] == r
    ensures forall k :: 0 <= k < |r| ==> r[k] == s[i + k]
  {
  }

  lemma WhitespaceTrimsToEmpty(s: string, t: string, j: int)
    requires forall k :: 0 <= k < |s| ==> IsWhitespace(s[k])
    requires 0 <= j <= |s| - |t| && s[j..j + |t|] == t
    requires t == [] || !IsWhitespace(t[0])
    ensures t == []
  {
    SliceAt(s, t, j);
  }

  lemma SamePiece(s: string, r: string, i: int, t: string, j: int)
    requires 0 <= i <= |s| - |r| && TrimmedAt(s, r, i) && r != []
    requires 0 <= j <= |s| - |t| && TrimmedAt(s, t, j) && t != []
    requires !IsWhitespace(r[0]) && !IsWhitespace(r[|r| - 1])
    requires !IsWhitespace(t[0]) && !IsWhitespace(t[|t| - 1])
    ensures r == t
  {
    SliceAt(s, r, i);
    SliceAt(s, t, j);
    assert i == j;
    assert |r| == |t|;
  }

  lemma InfixOfSuffix(s: string, t: string, r: string)
    requires |t| <= |s| && t == s[|s| - |t|..]
    requires |r| <= |t| && r == t[..|r|]
    ensures IsInfix(r, s) && CharsFrom(r, s)
  {
    assert s[|s| - |t|..|s| - |t| + |r|] == r;
  }

  /** `s.indexOf(c)`: the first position of `c`, or -1 when there is none. */
  function IndexOf(s: string, c: char): (r: int)
    ensures -1 <= r < |s|
    ensures r == -1 <==> c !in s
    ensures r >= 0 ==> s[r] == c && c !in s[..r]
    decreases |s|
  {
    if |s| == 0 then -1
    else if s[0] == c then 0
    else
      var k := IndexOf(s[1..], c);
      if k < 0 then -1 else k + 1
  }

  /** The text before the first `c`, and the text after it when there is one. */
  datatype Cut = Cut(head: string, tail: Option<string>)

  /** Splits `s` at the first `c`, as `substring(0, i)` and `substring(i + 1)` with `i = indexOf(c)`. */
  function CutAtFirst(s: string, c: char): (r: Cut)
    ensures c !in r.head
    ensures r.tail.None? <==> c !in s
    ensures r.tail.None? ==> r.head == s
    ensures r.tail.Some? ==> s == r.head + [c] + r.tail.value
    ensures CharsFrom(r.head, s)
    ensures r.tail.Some? ==> CharsFrom(r.tail.value, s)
  {
    var k := IndexOf(s, c);
    if k < 0 then Cut(s, None)
    else
      assert s == s[..k] + [c] + s[k + 1..];
      Cut(s[..k], Some(s[k + 1..]))
  }

  /** A cut at the first `c` is the only way to write `s` as `head + c + tail` with no `c` in `head`. */
  lemma CutAtFirstUnique(head: string, c: char, tail: string)
    requires c !in head
    ensures CutAtFirst(head + [c] + tail, c) == Cut(head, Some(tail))
  {
    var s := head + [c] + tail;
    assert s[|head|] == c;
  }

  /** `s.split(sep)` for a one-character separator: the pieces between the separators. */
  function Split(s: string, sep: char): (r: seq<string>)
    ensures |r| > 0
    ensures forall i :: 0 <= i < |r| ==> sep !in r[i] && CharsFrom(r[i], s)
    ensures Join(r, sep) == s
    decreases |s|
  {
    var cut := CutAtFirst(s, sep);
    match cut.tail
    case None => [s]
    case Some(rest) =>
      var r := [cut.head] + Split(rest, sep);
      assert r[1..] == Split(rest, sep);
      r
  }

  /** `parts.join(sep)`. */
  function Join(parts: seq<string>, sep: char): string
    requires |parts| > 0
    decreases |parts|
  {
    if |parts| == 1 then parts[0] else parts[0] + [sep] + Join(parts[1..], sep)
  }

  /** Splitting undoes joining pieces that hold no separator. */
  lemma {:induction false} SplitJoin(parts: seq<string>, sep: char)
    requires |parts| > 0
    requires forall i :: 0 <= i < |parts| ==> sep !in parts[i]
    ensures Split(Join(parts, sep), sep) == parts
    decreases |parts|
  {
    if |parts| == 1 {
      assert CutAtFirst(parts[0], sep).tail.None?;
    } else {
      SplitCons(parts[0], Join(parts[1..], sep), sep);
      SplitJoin(parts[1..], sep);
      assert [parts[0]] + parts[1..] == parts;
    }
  }

  /** A separator-free head is split off as the first piece. */
  lemma SplitCons(head: string, rest: string, sep: char)
    requires sep !in head
    ensures Split(head + [sep] + rest, sep) == [head] + Split(rest, sep)
  {
    CutAtFirstUnique(head, sep, rest);
  }

  /** Three pieces without the separator split back into exactly those pieces. */
  lemma SplitThree(p: string, q: string, r: string, sep: char)
    requires sep !in p && sep !in q && sep !in r
    ensures Split(p + [sep] + (q + [sep] + r), sep) == [p, q, r]
  {
    CutAtFirstUnique(p, sep, q + [sep] + r);
    CutAtFirstUnique(q, sep, r);
    assert CutAtFirst(r, sep).tail.None?;
  }

  /** The first piece of a split is the text before the first separator, the second piece the text up to the next one. */
  lemma SplitFirstPieces(s: string, sep: char)
    ensures Split(s, sep)[0] == CutAtFirst(s, sep).head
    ensures |Split(s, sep)| > 1 <==> sep in s
    ensures sep in s ==> Split(s, sep)[1] == CutAtFirst(CutAtFirst(s, sep).tail.value, sep).head
  {
  }

  /** `s.replace(/[...]/g, '')`: deletes every character of `drop`, keeping the rest in order. */
  function Without(s: string, drop: set<char>): (r: string)
    ensures forall c :: c in r <==> c in s && c !in drop
    ensures |r| <= |s|
    decreases |s|
  {
    if |s| == 0 then []
    else (if s[0] in drop then [] else [s[0]]) + Without(s[1..], drop)
  }

  lemma AppendAssoc(x: string, y: string, z: string)
    ensures x + (y + z) == (x + y) + z
  {
  }

  lemma WithoutCons(x: char, t: string, drop: set<char>)
    ensures Without([x] + t, drop) == (if x in drop then [] else [x]) + Without(t, drop)
  {
    assert ([x] + t)[1..] == t;
  }

  /** Deleting characters distributes over concatenation, so the kept characters stay in order. */
  lemma {:induction false} WithoutConcat(a: string, b: string, drop: set<char>)
    ensures Without(a + b, drop) == Without(a, drop) + Without(b, drop)
    decreases |a|
  {
    if |a| > 0 {
      var x, t := a[0], a[1..];
      var head := if x in drop then [] else [x];
      assert a == [x] + t;
      assert a + b == [x] + (t + b);
      WithoutCons(x, t + b, drop);
      WithoutCons(x, t, drop);
      WithoutConcat(t, b, drop);
      AppendAssoc(head, Without(t, drop), Without(b, drop));
    } else {
      assert a + b == b;
    }
  }

  /** A string with none of the dropped characters is left as it is. */
  lemma {:induction false} WithoutNothingToDrop(s: string, drop: set<char>)
    requires forall c :: c in s ==> c !in drop
    ensures Without(s, drop) == s
    decreases |s|
  {
    if |s| > 0 {
      assert s[0] in s;
      WithoutNothingToDrop(s[1..], drop);
    }
  }

  /** A character other than the separator that no part holds is not in the joined text. */
  lemma {:induction false} JoinAvoids(parts: seq<string>, sep: char, c: char)
    requires |parts| > 0 && c != sep
    requires forall i :: 0 <= i < |parts| ==> c !in parts[i]
    ensures c !in Join(parts, sep)
    decreases |parts|
  {
    if |parts| > 1 {
      JoinAvoids(parts[1..], sep, c);
    }
  }
}
