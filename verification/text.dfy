/**
 The string vocabulary shared by the summariser's text preparation: whitespace,
 the Arabic block, Python's `str.split()` (as `Words`), `" ".join` (as `Join`),
 `str.strip()` (as `Strip`), and the round trips that connect them.
 */
module Text {

  /** The number of ranges in CPython's whitespace table. */
  const WhitespaceRangeCount := 11

  /** The `i`-th inclusive range of code points that CPython's `str.isspace`
      accepts; the same table backs the regex class `\s`, `str.split()` and
      `str.strip()` on `str` values. */
  function WhitespaceRange(i: nat): (char, char) {
    match i
    case 0 => (' ', ' ')
    case 1 => ('\t', '\r')
    case 2 => ('\U{1C}', '\U{1F}')
    case 3 => ('\U{85}', '\U{85}')
    case 4 => ('\U{A0}', '\U{A0}')
    case 5 => ('\U{1680}', '\U{1680}')
    case 6 => ('\U{2000}', '\U{200A}')
    case 7 => ('\U{2028}', '\U{2029}')
    case 8 => ('\U{202F}', '\U{202F}')
    case 9 => ('\U{205F}', '\U{205F}')
    case _ => ('\U{3000}', '\U{3000}')
  }

  /** `c` lies in one of the whitespace ranges from the `i`-th on. */
  predicate WhitespaceFrom(c: char, i: nat)
    decreases WhitespaceRangeCount - i
  {
    i < WhitespaceRangeCount
    && ((WhitespaceRange(i).0 <= c <= WhitespaceRange(i).1) || WhitespaceFrom(c, i + 1))
  }

  /** Whitespace as CPython's `str.isspace` sees it. */
  predicate IsWs(c: char) {
    WhitespaceFrom(c, 0)
  }

  /** The Unicode Arabic block U+0600..U+06FF. */
  predicate InArabicBlock(c: char) {
    '\U{0600}' <= c <= '\U{06FF}'
  }

  /** A character below U+1680 and above U+00A0 lies in none of the
      whitespace ranges from the `i`-th on. */
  lemma {:induction false} NotWhitespaceFrom(c: char, i: nat)
    requires '\U{A0}' < c < '\U{1680}'
    ensures !WhitespaceFrom(c, i)
    decreases WhitespaceRangeCount - i
  {
    if i < WhitespaceRangeCount {
      NotWhitespaceFrom(c, i + 1);
    }
  }

  /** No character of the Arabic block is whitespace. */
  lemma ArabicIsNotWs(c: char)
    requires InArabicBlock(c)
    ensures !IsWs(c)
  {
    NotWhitespaceFrom(c, 0);
  }

  /** A maximal run of non-whitespace characters, as `str.split()` yields it. */
  predicate IsWord(w: string) {
    |w| > 0 && forall i :: 0 <= i < |w| ==> !IsWs(w[i])
  }

  predicate AllWords(parts: seq<string>) {
    forall i :: 0 <= i < |parts| ==> IsWord(parts[i])
  }

  /** Empty or whitespace only. */
  predicate Blank(s: string) {
    forall i :: 0 <= i < |s| ==> IsWs(s[i])
  }

  /** Every whitespace character is a plain space and no two of them touch. */
  predicate Collapsed(s: string) {
    && (forall i :: 0 <= i < |s| && IsWs(s[i]) ==> s[i] == ' ')
    && (forall i :: 0 <= i < |s| - 1 && IsWs(s[i]) ==> !IsWs(s[i + 1]))
  }

  /** The shape of `" ".join(words)` for proper words: collapsed, and no
      whitespace at either end. */
  predicate NormalForm(s: string) {
    && Collapsed(s)
    && (|s| > 0 ==> !IsWs(s[0]) && !IsWs(s[|s| - 1]))
  }

  /** `[f(x) for x in s]`. */
  function Map<A, B>(f: A -> B, s: seq<A>): seq<B> {
    seq(|s|, i requires 0 <= i < |s| => f(s[i]))
  }

  lemma MapTail<A, B>(f: A -> B, s: seq<A>)
    requires |s| > 0
    ensures Map(f, s)[0] == f(s[0]) && Map(f, s)[1..] == Map(f, s[1..])
  {
  }

  lemma MapIdentity<A>(f: A -> A, s: seq<A>)
    requires forall x :: f(x) == x
    ensures Map(f, s) == s
  {
  }

  lemma AppendAssoc<T>(x: seq<T>, y: seq<T>, z: seq<T>)
    ensures x + (y + z) == (x + y) + z
  {
  }

  /** The concatenation of a list of lists, in order. */
  function Flatten<T>(parts: seq<seq<T>>): seq<T> {
    if |parts| == 0 then [] else parts[0] + Flatten(parts[1..])
  }

  /** The longest whitespace-free prefix of `s`. */
  function TakeWord(s: string): (w: string)
    ensures w <= s
    ensures forall i :: 0 <= i < |w| ==> !IsWs(w[i])
    ensures |w| < |s| ==> IsWs(s[|w|])
  {
    if s == [] || IsWs(s[0]) then [] else [s[0]] + TakeWord(s[1..])
  }

  /** `s.split()`: the maximal whitespace-free runs of `s`, left to right. */
  function Words(s: string): (words: seq<string>)
    ensures AllWords(words)
    ensures words == [] <==> Blank(s)
    decreases |s|
  {
    if s == [] then []
    else if IsWs(s[0]) then
      assert Blank(s[1..]) ==> Blank(s) by {
        if Blank(s[1..]) {
          forall i | 0 <= i < |s| ensures IsWs(s[i]) {
            if i > 0 { assert s[i] == s[1..][i - 1]; }
          }
        }
      }
      Words(s[1..])
    else
      var w := TakeWord(s);
      [w] + Words(s[|w|..])
  }

  /** `" ".join(parts)`: the parts in order, one space between neighbours. */
  function Join(parts: seq<string>): (r: string)
    ensures parts == [] ==> r == ""
    ensures |parts| > 0 ==> parts[0] <= r && |r| == |Flatten(parts)| + |parts| - 1
  {
    if |parts| == 0 then ""
    else if |parts| == 1 then
      assert Flatten(parts) == parts[0] + Flatten(parts[1..]);
      assert Flatten(parts) == parts[0];
      parts[0]
    else
      var rest := Join(parts[1..]);
      assert Flatten(parts) == parts[0] + Flatten(parts[1..]);
      parts[0] + " " + rest
  }

  /** A whitespace character in front of a blank stretch keeps it blank. */
  lemma BlankCons(s: string, r: string)
    requires |r| < |s| && IsWs(s[0]) && Blank(s[1..][..|s[1..]| - |r|])
    ensures Blank(s[..|s| - |r|])
  {
    assert s[..|s| - |r|] == [s[0]] + s[1..][..|s[1..]| - |r|];
  }

  /** A whitespace character after a blank stretch keeps it blank. */
  lemma BlankSnoc(s: string, k: nat)
    requires 0 < |s| && k < |s| && IsWs(s[|s| - 1]) && Blank(s[..|s| - 1][k..])
    ensures Blank(s[k..])
  {
    assert s[k..] == s[..|s| - 1][k..] + [s[|s| - 1]];
  }

  /** `s.lstrip()`: `s` without its leading whitespace. */
  function DropWs(s: string): (r: string)
    ensures |r| <= |s| && r == s[|s| - |r|..]
    ensures Blank(s[..|s| - |r|])
    ensures r == [] || !IsWs(r[0])
  {
    if s == [] || !IsWs(s[0]) then s
    else
      var r := DropWs(s[1..]);
      BlankCons(s, r);
      r
  }

  /** Dropping leading whitespace keeps the last character unless nothing
      but whitespace was there. */
  lemma DropWsEnd(s: string)
    ensures s != [] && DropWs(s) == [] ==> IsWs(s[|s| - 1])
    ensures DropWs(s) != [] ==> DropWs(s)[|DropWs(s)| - 1] == s[|s| - 1]
  {
    var d := DropWs(s);
    if s != [] && d == [] {
      var b := s[..|s| - |d|];
      assert b[|s| - 1] == s[|s| - 1];
    }
  }

  /** `s.rstrip()`: `s` without its trailing whitespace. */
  function StripRight(s: string): (r: string)
    ensures r <= s
    ensures Blank(s[|r|..])
    ensures r == [] || !IsWs(r[|r| - 1])
  {
    if s == [] || !IsWs(s[|s| - 1]) then s
    else
      var r := StripRight(s[..|s| - 1]);
      BlankSnoc(s, |r|);
      r
  }

  /** `r` is what is left of `s` after cutting the whitespace prefix
      `s[..i]` and a whitespace suffix. */
  predicate StrippedAt(s: string, i: nat, r: string) {
    && i + |r| <= |s|
    && r == s[i..i + |r|]
    && Blank(s[..i])
    && Blank(s[i + |r|..])
  }

  /** Cutting a whitespace prefix `s[..i]` and then a whitespace suffix off
      the rest `d == s[i..]` leaves a slice of `s` stripped at `i`. */
  lemma PrefixOfSuffix(s: string, d: string, r: string, i: nat)
    requires i <= |s| && d == s[i..] && Blank(s[..i])
    requires r <= d && Blank(d[|r|..])
    ensures StrippedAt(s, i, r)
  {
    assert r == d[..|r|];
    assert s[i + |r|..] == d[|r|..];
  }

  /** `s.strip()`: the slice of `s` left once the whitespace at both ends is
      removed. */
  function Strip(s: string): (r: string)
    ensures r == [] || (!IsWs(r[0]) && !IsWs(r[|r| - 1]))
    ensures exists i: nat :: StrippedAt(s, i, r)
  {
    var d := DropWs(s);
    var r := StripRight(d);
    PrefixOfSuffix(s, d, r, |s| - |d|);
    r
  }

  // ---------------------------------------------------------------------
  // Words and concatenation
  // ---------------------------------------------------------------------

  lemma {:induction false} TakeWordAppend(a: string, b: string)
    requires b == [] || IsWs(b[0])
    ensures TakeWord(a + b) == TakeWord(a)
  {
    if a == [] {
      assert a + b == b;
    } else if IsWs(a[0]) {
      assert (a + b)[0] == a[0];
    } else {
      assert (a + b)[1..] == a[1..] + b;
      TakeWordAppend(a[1..], b);
    }
  }

  /** Splitting distributes over a concatenation whose right part begins at
      a word boundary. */
  lemma {:induction false} WordsAppend(a: string, b: string)
    requires b == [] || IsWs(b[0])
    ensures Words(a + b) == Words(a) + Words(b)
    decreases |a|
  {
    if a == [] {
      assert a + b == b;
    } else if IsWs(a[0]) {
      assert (a + b)[1..] == a[1..] + b;
      WordsAppend(a[1..], b);
    } else {
      var w := TakeWord(a);
      TakeWordAppend(a, b);
      assert (a + b)[|w|..] == a[|w|..] + b;
      WordsAppend(a[|w|..], b);
      AppendAssoc([w], Words(a[|w|..]), Words(b));
    }
  }

  lemma WordsOfWord(w: string)
    requires IsWord(w)
    ensures Words(w) == [w]
  {
    assert TakeWord(w) == w;
    assert w[|w|..] == [];
  }

  lemma WordsAfterSpace(s: string)
    ensures Words(" " + s) == Words(s)
  {
    assert (" " + s)[1..] == s;
  }

  /** Splitting `" ".join(parts)` gives back the words of every part, in
      order; no word is lost, duplicated or moved across a part boundary. */
  lemma {:induction false} WordsOfJoin(parts: seq<string>)
    ensures Words(Join(parts)) == Flatten(Map(Words, parts))
  {
    if |parts| == 0 {
    } else if |parts| == 1 {
      assert Words(parts[0]) + [] == Words(parts[0]);
    } else {
      var rest := Join(parts[1..]);
      AppendAssoc(parts[0], " ", rest);
      WordsAppend(parts[0], " " + rest);
      WordsAfterSpace(rest);
      WordsOfJoin(parts[1..]);
      MapTail(Words, parts);
    }
  }

  lemma {:induction false} FlattenSingletons(parts: seq<string>)
    ensures Flatten(Map((w: string) => [w], parts)) == parts
  {
    if |parts| > 0 {
      MapTail((w: string) => [w], parts);
      FlattenSingletons(parts[1..]);
    }
  }

  /** Round trip one way: `" ".join(ws).split() == ws` for proper words. */
  lemma SplitJoin(parts: seq<string>)
    requires AllWords(parts)
    ensures Words(Join(parts)) == parts
  {
    WordsOfJoin(parts);
    WordsOfWords(parts);
    FlattenSingletons(parts);
  }

  /** Splitting each of a list of proper words gives the singleton lists. */
  lemma WordsOfWords(parts: seq<string>)
    requires AllWords(parts)
    ensures Map(Words, parts) == Map((w: string) => [w], parts)
  {
    forall i | 0 <= i < |parts| ensures Words(parts[i]) == [parts[i]] {
      WordsOfWord(parts[i]);
    }
  }

  lemma CollapsedSuffix(s: string, k: nat)
    requires Collapsed(s) && k <= |s|
    ensures Collapsed(s[k..])
  {
    var t := s[k..];
    forall i | 0 <= i < |t| - 1 && IsWs(t[i]) ensures !IsWs(t[i + 1]) {
      assert t[i] == s[k + i] && t[i + 1] == s[k + i + 1];
    }
  }

  /** In a normal-form string the first word is followed either by nothing
      or by one space and a non-empty normal-form rest. */
  lemma NormalFormTail(s: string)
    requires NormalForm(s) && s != []
    ensures var w := TakeWord(s);
      |w| == |s| || (|w| + 2 <= |s| && s[|w|] == ' ' && !IsWs(s[|w| + 1]) && NormalForm(s[|w| + 1..]))
  {
    var w := TakeWord(s);
    if |w| < |s| {
      assert IsWs(s[|w|]);
      assert |w| + 1 < |s|;
      CollapsedSuffix(s, |w| + 1);
      var t := s[|w| + 1..];
      assert t[0] == s[|w| + 1] && t[|t| - 1] == s[|s| - 1];
    }
  }

  /** The words of a word, a space and a string that starts with a word. */
  lemma WordsOfCons(w: string, t: string)
    requires IsWord(w) && t != [] && !IsWs(t[0])
    ensures Words(w + " " + t) == [w] + Words(t)
    ensures Words(t) != []
  {
    AppendAssoc(w, " ", t);
    WordsAppend(w, " " + t);
    WordsOfWord(w);
    WordsAfterSpace(t);
  }

  lemma JoinCons(w: string, rest: seq<string>)
    requires rest != []
    ensures Join([w] + rest) == w + " " + Join(rest)
  {
    assert ([w] + rest)[1..] == rest;
  }

  /** Round trip the other way: `" ".join(s.split()) == s` when `s` is
      already in normal form. */
  lemma {:induction false} JoinSplit(s: string)
    requires NormalForm(s)
    ensures Join(Words(s)) == s
    decreases |s|
  {
    if s != [] {
      var w := TakeWord(s);
      NormalFormTail(s);
      if |w| == |s| {
        assert w == s;
        WordsOfWord(s);
      } else {
        var t := s[|w| + 1..];
        assert s == w + " " + t;
        WordsOfCons(w, t);
        JoinSplit(t);
        JoinCons(w, Words(t));
      }
    }
  }

  lemma WordIsNormal(w: string)
    requires IsWord(w)
    ensures NormalForm(w)
  {
  }

  /** A word, a space and a non-empty normal-form string make a normal-form
      string. */
  lemma NormalFormCons(a: string, b: string)
    requires IsWord(a) && NormalForm(b) && b != []
    ensures NormalForm(a + " " + b)
  {
    var s := a + " " + b;
    assert forall i :: 0 <= i < |a| ==> s[i] == a[i];
    assert forall i :: |a| < i < |s| ==> s[i] == b[i - |a| - 1];
    forall i | 0 <= i < |s| - 1 && IsWs(s[i]) ensures !IsWs(s[i + 1]) {
      if i == |a| {
        assert s[i + 1] == b[0];
      } else if i > |a| {
        assert s[i + 1] == b[i - |a|];
      }
    }
  }

  /** Joining proper words always yields a string in normal form. */
  lemma {:induction false} JoinIsNormal(parts: seq<string>)
    requires AllWords(parts)
    ensures NormalForm(Join(parts))
  {
    if |parts| == 1 {
      WordIsNormal(parts[0]);
    } else if |parts| >= 2 {
      JoinIsNormal(parts[1..]);
      assert |Join(parts[1..])| > 0 by { SplitJoin(parts[1..]); }
      NormalFormCons(parts[0], Join(parts[1..]));
    }
  }

  /** `" ".join` of a concatenation of two non-empty lists. */
  lemma {:induction false} JoinAppend(a: seq<string>, b: seq<string>)
    requires |a| > 0 && |b| > 0
    ensures Join(a + b) == Join(a) + " " + Join(b)
  {
    if |a| == 1 {
      assert (a + b)[1..] == b;
    } else {
      assert (a + b)[0] == a[0];
      assert (a + b)[1..] == a[1..] + b;
      JoinAppend(a[1..], b);
      AppendAssoc(a[0] + " ", Join(a[1..]) + " ", Join(b));
      AppendAssoc(a[0] + " ", Join(a[1..]), " ");
    }
  }

  /** Joining each group and then joining the groups equals joining the
      concatenated groups: regrouping never reorders. */
  lemma {:induction false} JoinFlatten(groups: seq<seq<string>>)
    requires forall i :: 0 <= i < |groups| ==> |groups[i]| > 0
    ensures Join(Map(Join, groups)) == Join(Flatten(groups))
  {
    if |groups| == 1 {
      assert Map(Join, groups) == [Join(groups[0])];
      assert Join([Join(groups[0])]) == Join(groups[0]);
      assert Flatten(groups) == groups[0] + Flatten([]);
      assert groups[0] + Flatten([]) == groups[0];
    } else if |groups| > 1 {
      var rest := groups[1..];
      var joined := Map(Join, groups);
      assert joined[0] == Join(groups[0]);
      assert joined[1..] == Map(Join, rest);
      assert Join(joined) == Join(groups[0]) + " " + Join(Map(Join, rest));
      JoinFlatten(rest);
      assert |Flatten(rest)| > 0 by { assert Flatten(rest) == rest[0] + Flatten(rest[1..]); }
      JoinAppend(groups[0], Flatten(rest));
      assert Flatten(groups) == groups[0] + Flatten(rest);
      assert Join(joined) == Join(Flatten(groups));
    } else {
      assert Map(Join, groups) == [];
    }
  }

  // ---------------------------------------------------------------------
  // Stripping keeps the words
  // ---------------------------------------------------------------------

  lemma {:induction false} WordsOfDropWs(s: string)
    ensures Words(DropWs(s)) == Words(s)
  {
    if s != [] && IsWs(s[0]) {
      WordsOfDropWs(s[1..]);
    }
  }

  lemma WordsOfStripRight(s: string)
    ensures Words(StripRight(s)) == Words(s)
  {
    var r := StripRight(s);
    var tail := s[|r|..];
    assert s == r + tail;
    assert Words(tail) == [];
    WordsAppend(r, tail);
  }

  lemma StripKeepsWords(s: string)
    ensures Words(Strip(s)) == Words(s)
  {
    WordsOfDropWs(s);
    WordsOfStripRight(DropWs(s));
  }

  lemma DropWsChars(s: string)
    ensures forall c :: c in DropWs(s) ==> c in s
    ensures forall c :: c in s && !IsWs(c) ==> c in DropWs(s)
  {
    var d := DropWs(s);
    var k := |s| - |d|;
    assert forall i :: 0 <= i < k ==> s[..k][i] == s[i];
    forall c | c in s && !IsWs(c) ensures c in d {
      var i :| 0 <= i < |s| && s[i] == c;
      if i >= k {
        assert d[i - k] == c;
      }
    }
  }

  lemma DropWsOfCollapsed(s: string)
    requires Collapsed(s)
    ensures Collapsed(DropWs(s))
    ensures forall c :: c in DropWs(s) ==> c in s
    ensures forall c :: c in s && !IsWs(c) ==> c in DropWs(s)
  {
    CollapsedSuffix(s, |s| - |DropWs(s)|);
    DropWsChars(s);
  }

  lemma StripRightOfCollapsed(s: string)
    requires Collapsed(s)
    ensures Collapsed(StripRight(s))
    ensures forall c :: c in StripRight(s) ==> c in s
    ensures forall c :: c in s && !IsWs(c) ==> c in StripRight(s)
  {
    var r := StripRight(s);
    assert s[..|r|] == r;
    forall i | 0 <= i < |r| - 1 && IsWs(r[i]) ensures !IsWs(r[i + 1]) {
      assert r[i] == s[i] && r[i + 1] == s[i + 1];
    }
    assert forall i :: |r| <= i < |s| ==> s[|r|..][i - |r|] == s[i];
    forall c | c in s && !IsWs(c) ensures c in r {
      var i :| 0 <= i < |s| && s[i] == c;
      if i < |r| {
        assert r[i] == c;
      }
    }
  }

  /** `strip()` of a collapsed string is in normal form, keeps every
      non-whitespace character and adds none. */
  lemma StripOfCollapsed(s: string)
    requires Collapsed(s)
    ensures NormalForm(Strip(s))
    ensures forall c :: c in Strip(s) ==> c in s
    ensures forall c :: c in s && !IsWs(c) ==> c in Strip(s)
  {
    DropWsOfCollapsed(s);
    StripRightOfCollapsed(DropWs(s));
    var r := Strip(s);
    if r != [] {
      assert DropWs(s)[0] == r[0];
    }
  }
}
