/**
 The Arabic cleaner `clean_arabic_text`: blank out every character outside an
 allow-list, collapse each whitespace run to one space, and strip both ends.
 */
module Cleaner {
  import opened Text

  predicate IsAsciiLetter(c: char) {
    ('a' <= c <= 'z') || ('A' <= c <= 'Z')
  }

  predicate IsAsciiDigit(c: char) {
    '0' <= c <= '9'
  }

  /** The punctuation the cleaner keeps: `. , ! ? ؛ ، -`. The Arabic
      semicolon U+061B and comma U+060C also lie in the Arabic block. */
  predicate IsKeptPunctuation(c: char) {
    c == '.' || c == ',' || c == '!' || c == '?' || c == '\U{061B}' || c == '\U{060C}' || c == '-'
  }

  /** The allow-list of the first substitution: the Arabic block, ASCII
      letters and digits, whitespace and the kept punctuation. */
  predicate Allowed(c: char) {
    InArabicBlock(c) || IsAsciiLetter(c) || IsAsciiDigit(c) || IsWs(c) || IsKeptPunctuation(c)
  }

  /** What may appear in a cleaned text: the allow-list with the plain space
      as its only whitespace. */
  predicate OutputChar(c: char) {
    InArabicBlock(c) || IsAsciiLetter(c) || IsAsciiDigit(c) || c == ' ' || IsKeptPunctuation(c)
  }

  /** First substitution: each character outside the allow-list becomes one
      space; every other character is kept in place. */
  function Filter(text: string): (r: string)
    ensures |r| == |text|
    ensures forall i :: 0 <= i < |r| ==> Allowed(r[i])
    ensures forall i :: 0 <= i < |r| ==> r[i] == text[i] || (r[i] == ' ' && !Allowed(text[i]))
    ensures forall i :: 0 <= i < |r| && Allowed(text[i]) ==> r[i] == text[i]
  {
    if text == [] then []
    else [if Allowed(text[0]) then text[0] else ' '] + Filter(text[1..])
  }

  lemma CollapsedCons(c: char, r: string)
    requires Collapsed(r)
    requires IsWs(c) ==> c == ' ' && (r == [] || !IsWs(r[0]))
    ensures Collapsed([c] + r)
  {
    var s := [c] + r;
    assert forall i :: 1 <= i < |s| ==> s[i] == r[i - 1];
  }

  lemma LastOfCons(c: char, r: string)
    ensures r != [] ==> ([c] + r)[|[c] + r| - 1] == r[|r| - 1]
    ensures r == [] ==> ([c] + r)[|[c] + r| - 1] == c
  {
  }

  /** Second substitution: every maximal whitespace run becomes a single
      plain space. */
  function Collapse(s: string): (r: string)
    ensures Collapsed(r)
    ensures r == [] <==> s == []
    ensures r != [] ==> (IsWs(r[0]) <==> IsWs(s[0]))
    ensures r != [] ==> (IsWs(r[|r| - 1]) <==> IsWs(s[|s| - 1]))
    ensures |r| <= |s|
    decreases |s|
  {
    if s == [] then []
    else if IsWs(s[0]) then
      var d := DropWs(s[1..]);
      var r := Collapse(d);
      CollapsedCons(' ', r);
      DropWsEnd(s[1..]);
      LastOfCons(' ', r);
      [' '] + r
    else
      var r := Collapse(s[1..]);
      CollapsedCons(s[0], r);
      LastOfCons(s[0], r);
      [s[0]] + r
  }

  /** Collapsing adds no character but the space. */
  lemma {:induction false} CollapseAddsOnlySpaces(s: string)
    ensures forall c :: c in Collapse(s) ==> c == ' ' || c in s
    decreases |s|
  {
    if s == [] {
    } else if IsWs(s[0]) {
      var rest := DropWs(s[1..]);
      CollapseAddsOnlySpaces(rest);
      DropWsChars(s[1..]);
      assert forall c :: c in s[1..] ==> c in s;
    } else {
      CollapseAddsOnlySpaces(s[1..]);
      assert forall c :: c in s[1..] ==> c in s;
    }
  }

  /** Collapsing keeps every non-whitespace character. */
  lemma {:induction false} CollapseKeepsNonWs(s: string)
    ensures forall c :: c in s && !IsWs(c) ==> c in Collapse(s)
    decreases |s|
  {
    if s == [] {
    } else if IsWs(s[0]) {
      var rest := DropWs(s[1..]);
      CollapseKeepsNonWs(rest);
      DropWsChars(s[1..]);
      assert forall c :: c in s && c != s[0] ==> c in s[1..];
    } else {
      CollapseKeepsNonWs(s[1..]);
      assert forall c :: c in s && c != s[0] ==> c in s[1..];
    }
  }

  /** `clean_arabic_text(text)`. */
  function CleanArabicText(text: string): (r: string)
    ensures NormalForm(r)
    ensures forall i :: 0 <= i < |r| ==> OutputChar(r[i])
  {
    var collapsed := Collapse(Filter(text));
    CollapseAddsOnlySpaces(Filter(text));
    StripOfCollapsed(collapsed);
    Strip(collapsed)
  }

  // ---------------------------------------------------------------------
  // The cleaner as "filter, split, join"
  // ---------------------------------------------------------------------

  lemma {:induction false} CollapseWordPrefix(w: string, rest: string)
    requires forall i :: 0 <= i < |w| ==> !IsWs(w[i])
    ensures Collapse(w + rest) == w + Collapse(rest)
  {
    if w != [] {
      assert (w + rest)[0] == w[0];
      assert (w + rest)[1..] == w[1..] + rest;
      CollapseWordPrefix(w[1..], rest);
      assert w == [w[0]] + w[1..];
      AppendAssoc([w[0]], w[1..], Collapse(rest));
    } else {
      assert w + rest == rest;
    }
  }

  /** Collapsing whitespace changes no word. */
  lemma {:induction false} CollapseKeepsWords(s: string)
    ensures Words(Collapse(s)) == Words(s)
    decreases |s|
  {
    if s == [] {
    } else if IsWs(s[0]) {
      var rest := DropWs(s[1..]);
      CollapseKeepsWords(rest);
      WordsOfDropWs(s[1..]);
      WordsAfterSpace(Collapse(rest));
    } else {
      var w := TakeWord(s);
      var rest := s[|w|..];
      assert s == w + rest;
      CollapseWordPrefix(w, rest);
      WordsAppend(w, Collapse(rest));
      WordsOfWord(w);
      CollapseKeepsWords(rest);
    }
  }

  /** Reference definition: cleaning is the allow-list filter followed by
      `" ".join(...split())`. */
  lemma CleanIsJoinOfWords(text: string)
    ensures CleanArabicText(text) == Join(Words(Filter(text)))
  {
    var collapsed := Collapse(Filter(text));
    var r := CleanArabicText(text);
    StripKeepsWords(collapsed);
    CollapseKeepsWords(Filter(text));
    JoinSplit(r);
  }

  /** The words of the cleaned text are those of the filtered text. */
  lemma CleanWords(text: string)
    ensures Words(CleanArabicText(text)) == Words(Filter(text))
  {
    CleanIsJoinOfWords(text);
    SplitJoin(Words(Filter(text)));
  }

  lemma FilterIdentity(s: string)
    ensures Filter(s) == s <==> forall i :: 0 <= i < |s| ==> Allowed(s[i])
  {
  }

  /** The fixed points of the cleaner are exactly the normal-form strings
      over the allow-list. */
  lemma CleanFixedPoint(s: string)
    ensures CleanArabicText(s) == s <==> NormalForm(s) && forall i :: 0 <= i < |s| ==> Allowed(s[i])
  {
    if NormalForm(s) && forall i :: 0 <= i < |s| ==> Allowed(s[i]) {
      assert Filter(s) == s by { FilterIdentity(s); }
      CleanIsJoinOfWords(s);
      JoinSplit(s);
    }
    if CleanArabicText(s) == s {
      assert forall i :: 0 <= i < |s| ==> OutputChar(s[i]);
    }
  }

  /** Cleaning twice is cleaning once. */
  lemma CleanIdempotent(text: string)
    ensures CleanArabicText(CleanArabicText(text)) == CleanArabicText(text)
  {
    var r := CleanArabicText(text);
    CleanFixedPoint(r);
  }

  /** Cleaning keeps every non-whitespace character of the allow-list and
      introduces no character besides the space. */
  lemma CleanKeepsAllowed(text: string)
    ensures forall c :: c in text && Allowed(c) && !IsWs(c) ==> c in CleanArabicText(text)
    ensures forall c :: c in CleanArabicText(text) ==> c == ' ' || c in text
  {
    var filtered := Filter(text);
    var collapsed := Collapse(filtered);
    CollapseAddsOnlySpaces(filtered);
    CollapseKeepsNonWs(filtered);
    StripOfCollapsed(collapsed);
    forall c | c in text && Allowed(c) && !IsWs(c) ensures c in filtered {
      var i :| 0 <= i < |text| && text[i] == c;
      assert filtered[i] == c;
    }
    forall c | c in filtered && c != ' ' ensures c in text {
      var i :| 0 <= i < |filtered| && filtered[i] == c;
      assert text[i] == c;
    }
  }
}
