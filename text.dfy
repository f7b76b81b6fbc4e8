/** The string operations the text extractors are built from: Python's whitespace test,
    `str.strip()`, the substitution `re.sub(r'\s+', ' ', s)` and `str.join`. */
module Text {

  /** The characters for which Python's `str.isspace()` holds: `str.strip()` with no
      argument removes exactly these, and the `\s` class of `re` matches exactly these
      in a `str`. */
  const Whitespace: set<char> := {
    '\U{09}', '\U{0A}', '\U{0B}', '\U{0C}', '\U{0D}', '\U{1C}', '\U{1D}', '\U{1E}', '\U{1F}', ' ',
    '\U{85}', '\U{A0}', '\U{1680}',
    '\U{2000}', '\U{2001}', '\U{2002}', '\U{2003}', '\U{2004}', '\U{2005}', '\U{2006}',
    '\U{2007}', '\U{2008}', '\U{2009}', '\U{200A}',
    '\U{2028}', '\U{2029}', '\U{202F}', '\U{205F}', '\U{3000}'}

  predicate IsSpace(c: char) {
    c in Whitespace
  }

  predicate AllSpace(s: string) {
    forall i :: 0 <= i < |s| ==> IsSpace(s[i])
  }

  /** No whitespace at either end, as `strip()` leaves a string. */
  predicate Stripped(s: string) {
    s == [] || (!IsSpace(s[0]) && !IsSpace(s[|s| - 1]))
  }

  /** The only whitespace character in `s` is the plain space. */
  predicate OnlyPlainSpaces(s: string) {
    forall i :: 0 <= i < |s| && IsSpace(s[i]) ==> s[i] == ' '
  }

  /** No two plain spaces stand next to each other in `s`. */
  predicate NoDoubleSpace(s: string) {
    forall i :: 0 < i < |s| && s[i] == ' ' ==> s[i - 1] != ' '
  }

  /** A non-empty string of words separated by single plain spaces: what collapsing the
      whitespace of a stripped string with a word in it gives. */
  predicate IsWordRun(s: string) {
    s != [] && Stripped(s) && OnlyPlainSpaces(s) && NoDoubleSpace(s)
  }

  /** `r` is `s` with whitespace, and only whitespace, taken off its two ends. */
  ghost predicate TrimmedOf(s: string, r: string) {
    exists i, j :: 0 <= i <= j <= |s| && r == s[i..j] && AllSpace(s[..i]) && AllSpace(s[j..])
  }

  /** Python's `s.lstrip()`. */
  function TrimStart(s: string): string
    decreases |s|
  {
    if s != [] && IsSpace(s[0]) then TrimStart(s[1..]) else s
  }

  /** `lstrip()` removes a leading run of whitespace, up to a non-whitespace character or
      the end. */
  lemma {:induction false} TrimStartSpec(s: string)
    ensures var r := TrimStart(s);
      |r| <= |s| && r == s[|s| - |r|..] && (r == [] || !IsSpace(r[0])) &&
      forall i :: 0 <= i < |s| - |r| ==> IsSpace(s[i])
    decreases |s|
  {
    if s != [] && IsSpace(s[0]) {
      TrimStartSpec(s[1..]);
    }
  }

  /** Python's `s.rstrip()`. */
  function TrimEnd(s: string): string
    decreases |s|
  {
    if s != [] && IsSpace(s[|s| - 1]) then TrimEnd(s[..|s| - 1]) else s
  }

  /** `rstrip()` removes a trailing run of whitespace, back to a non-whitespace character
      or the start. */
  lemma {:induction false} TrimEndSpec(s: string)
    ensures var r := TrimEnd(s);
      |r| <= |s| && r == s[..|r|] && (r == [] || !IsSpace(r[|r| - 1])) &&
      forall i :: |r| <= i < |s| ==> IsSpace(s[i])
    decreases |s|
  {
    if s != [] && IsSpace(s[|s| - 1]) {
      TrimEndSpec(s[..|s| - 1]);
    }
  }

  /** Python's `s.strip()`. */
  function Strip(s: string): (r: string)
    ensures Stripped(r) && |r| <= |s|
  {
    TrimStartSpec(s);
    TrimEndSpec(TrimStart(s));
    TrimEnd(TrimStart(s))
  }

  /** `strip()` removes whitespace from the two ends and nothing else. */
  lemma StripTrims(s: string)
    ensures TrimmedOf(s, Strip(s))
  {
    var t := TrimStart(s);
    var r := TrimEnd(t);
    TrimStartSpec(s);
    TrimEndSpec(t);
    var i := |s| - |t|;
    var j := i + |r|;
    assert r == Strip(s);
    assert r == s[i..j];
    assert s[j..] == t[|r|..];
    assert AllSpace(s[..i]);
    assert AllSpace(s[j..]);
  }

  /** Removing the leading whitespace run that ends at `i` is what `TrimStart` does. */
  lemma {:induction false} TrimStartAt(s: string, i: nat)
    requires i <= |s| && AllSpace(s[..i])
    requires i == |s| || !IsSpace(s[i])
    ensures TrimStart(s) == s[i..]
    decreases i
  {
    if i > 0 {
      assert s[..i][0] == s[0];
      var t := s[1..];
      assert t[..i - 1] == s[1..i];
      TrimStartAt(t, i - 1);
      assert t[i - 1..] == s[i..];
    }
  }

  /** Removing the trailing whitespace run that starts at `j` is what `TrimEnd` does. */
  lemma {:induction false} TrimEndAt(s: string, j: nat)
    requires j <= |s| && AllSpace(s[j..])
    requires j == 0 || !IsSpace(s[j - 1])
    ensures TrimEnd(s) == s[..j]
    decreases |s| - j
  {
    if j < |s| {
      assert s[j..][|s| - 1 - j] == s[|s| - 1];
      var t := s[..|s| - 1];
      assert forall k :: 0 <= k < |t| - j ==> t[j..][k] == s[j..][k];
      TrimEndAt(t, j);
      assert t[..j] == s[..j];
    }
  }

  /** `strip()` is characterised by its two properties: whatever has no whitespace at
      its ends and is `s` with whitespace taken off its ends is `Strip(s)`. */
  lemma StripUnique(s: string, r: string)
    requires Stripped(r) && TrimmedOf(s, r)
    ensures Strip(s) == r
  {
    var i, j :| 0 <= i <= j <= |s| && r == s[i..j] && AllSpace(s[..i]) && AllSpace(s[j..]);
    StripUniqueAt(s, i, j);
  }

  lemma StripUniqueAt(s: string, i: nat, j: nat)
    requires i <= j <= |s| && Stripped(s[i..j])
    requires AllSpace(s[..i]) && AllSpace(s[j..])
    ensures Strip(s) == s[i..j]
  {
    if i == j {
      SlicesConcat(s, i, j);
      AllSpaceAppend(s[..i], s[j..]);
      assert s[..i] + s[j..] == s;
      TrimStartAt(s, |s|);
    } else {
      TrimStartAt(s, i);
      TrimEndOfSuffix(s, i, j);
    }
  }

  lemma TrimEndOfSuffix(s: string, i: nat, j: nat)
    requires i < j <= |s| && !IsSpace(s[j - 1]) && AllSpace(s[j..])
    ensures TrimEnd(s[i..]) == s[i..j]
  {
    var t := s[i..];
    assert t[j - i..] == s[j..];
    assert t[j - i - 1] == s[j - 1];
    TrimEndAt(t, j - i);
  }

  lemma ConcatAssoc(a: string, b: string, c: string)
    ensures (a + b) + c == a + (b + c)
  {
  }

  lemma SlicesConcat(s: string, i: nat, j: nat)
    requires i <= j <= |s|
    ensures s == s[..i] + s[i..j] + s[j..]
  {
  }

  lemma AllSpaceAppend(a: string, b: string)
    requires AllSpace(a) && AllSpace(b)
    ensures AllSpace(a + b)
  {
    forall k | 0 <= k < |a + b| ensures IsSpace((a + b)[k]) {
      if k >= |a| {
        assert (a + b)[k] == b[k - |a|];
      }
    }
  }

  /** The whitespace `strip()` removes from the front and from the back. */
  lemma StripParts(s: string) returns (front: string, back: string)
    ensures AllSpace(front) && AllSpace(back) && s == front + Strip(s) + back
  {
    StripTrims(s);
    var r := Strip(s);
    var i, j :| 0 <= i <= j <= |s| && r == s[i..j] && AllSpace(s[..i]) && AllSpace(s[j..]);
    front, back := s[..i], s[j..];
    SlicesConcat(s, i, j);
  }

  /** Surrounding a stripped string with whitespace is undone by `strip()`. */
  lemma StripOfParts(front: string, r: string, back: string)
    requires AllSpace(front) && AllSpace(back) && Stripped(r)
    ensures Strip(front + r + back) == r
  {
    var s := front + r + back;
    var i, j := |front|, |front| + |r|;
    assert s[..i] == front && s[i..j] == r && s[j..] == back;
    StripUniqueAt(s, i, j);
  }

  /** A string with no whitespace at its ends is left alone by `strip()`. */
  lemma StripOfStripped(s: string)
    requires Stripped(s)
    ensures Strip(s) == s
  {
    assert [] + s + [] == s;
    StripOfParts([], s, []);
  }

  /** `strip()` is idempotent. */
  lemma StripIdempotent(s: string)
    ensures Strip(Strip(s)) == Strip(s)
  {
    var r := Strip(s);
    assert [] + r + [] == r;
    StripOfParts([], r, []);
  }

  /** Whitespace appended at the end is removed again by `strip()`. */
  lemma StripIgnoresTrailingSpace(s: string, tail: string)
    requires AllSpace(tail)
    ensures Strip(s + tail) == Strip(s)
  {
    var front, back := StripParts(s);
    AllSpaceAppend(back, tail);
    assert s + tail == front + Strip(s) + (back + tail);
    StripOfParts(front, Strip(s), back + tail);
  }

  /** A string with no whitespace at its ends is returned by `strip()` once whitespace is
      appended to it. */
  lemma StripOfPadded(s: string, tail: string)
    requires Stripped(s) && AllSpace(tail)
    ensures Strip(s + tail) == s
  {
    assert [] + s + tail == s + tail;
    StripOfParts([], s, tail);
  }

  /** `strip()` leaves nothing exactly when the string is all whitespace. */
  lemma StripEmpty(s: string)
    ensures Strip(s) == [] <==> AllSpace(s)
  {
    var front, back := StripParts(s);
    var r := Strip(s);
    if r == [] {
      assert s == front + back;
      AllSpaceAppend(front, back);
    } else {
      assert s[|front|] == r[0];
    }
  }

  /** `strip()` removes whitespace only: every other character is kept, in order. */
  lemma StripKeepsText(s: string)
    ensures NonSpace(Strip(s)) == NonSpace(s)
  {
    var front, back := StripParts(s);
    NonSpaceOfPadded(front, Strip(s), back);
  }

  lemma NonSpaceOfPadded(a: string, r: string, b: string)
    requires AllSpace(a) && AllSpace(b)
    ensures NonSpace(a + r + b) == NonSpace(r)
  {
    NonSpaceAppend(a + r, b);
    NonSpaceAppend(a, r);
    NonSpaceOfSpace(a);
    NonSpaceOfSpace(b);
  }

  /** `strip()` keeps a string free of whitespace other than plain spaces. */
  lemma StripKeepsPlain(s: string)
    requires OnlyPlainSpaces(s)
    ensures OnlyPlainSpaces(Strip(s))
  {
    var front, back := StripParts(s);
    var r := Strip(s);
    forall p | 0 <= p < |r| && IsSpace(r[p]) ensures r[p] == ' ' {
      assert r[p] == s[|front| + p];
    }
  }

  lemma PlainAppend(a: string, b: string)
    requires OnlyPlainSpaces(a) && OnlyPlainSpaces(b)
    ensures OnlyPlainSpaces(a + b)
  {
    forall p | 0 <= p < |a + b| && IsSpace((a + b)[p]) ensures (a + b)[p] == ' ' {
      if p >= |a| {
        assert (a + b)[p] == b[p - |a|];
      }
    }
  }

  /** Python's `re.sub(r'\s+', ' ', s)`: every maximal run of whitespace becomes one
      plain space. */
  function Collapse(s: string): string
    decreases |s|
  {
    if s == [] then []
    else if IsSpace(s[0]) then
      TrimStartSpec(s[1..]);
      [' '] + Collapse(TrimStart(s))
    else [s[0]] + Collapse(s[1..])
  }

  /** Collapsing leaves a string empty only when it was empty, and keeps its first and
      last characters, a whitespace one turned into a plain space. */
  lemma {:induction false} CollapseEnds(s: string)
    ensures var r := Collapse(s);
      |r| <= |s| && (r == [] <==> s == []) &&
      (s != [] ==> r[0] == (if IsSpace(s[0]) then ' ' else s[0])) &&
      (s != [] ==> r[|r| - 1] == (if IsSpace(s[|s| - 1]) then ' ' else s[|s| - 1]))
    decreases |s|
  {
    if s == [] {
    } else if IsSpace(s[0]) {
      var t := TrimStart(s);
      TrimStartSpec(s);
      CollapseEnds(t);
      assert Collapse(s) == [' '] + Collapse(t);
      if t != [] {
        assert s[|s| - 1] == t[|t| - 1];
      } else {
        assert IsSpace(s[|s| - 1]);
      }
    } else {
      var u := s[1..];
      CollapseEnds(u);
      assert Collapse(s) == [s[0]] + Collapse(u);
      if u != [] {
        assert s[|s| - 1] == u[|u| - 1];
      }
    }
  }

  /** After collapsing, the only whitespace is the plain space, and never two in a row. */
  lemma {:induction false} CollapseShape(s: string)
    ensures OnlyPlainSpaces(Collapse(s)) && NoDoubleSpace(Collapse(s))
    decreases |s|
  {
    if s == [] {
    } else if IsSpace(s[0]) {
      var t := TrimStart(s);
      TrimStartSpec(s);
      CollapseShape(t);
      CollapseEnds(t);
      ConsPlain(' ', Collapse(t));
    } else {
      CollapseShape(s[1..]);
      CollapseEnds(s[1..]);
      ConsPlain(s[0], Collapse(s[1..]));
    }
  }

  /** Collapsing the whitespace of a stripped string joins its words with single spaces:
      it stays stripped, is empty only when it was, and holds no whitespace other than
      single plain spaces. */
  lemma CollapseOfStripped(s: string)
    requires Stripped(s)
    ensures var r := Collapse(s);
      r == Join(" ", Words(s)) &&
      Stripped(r) && OnlyPlainSpaces(r) && NoDoubleSpace(r) && (r == [] <==> s == []) &&
      NonSpace(r) == NonSpace(s)
  {
    CollapseIsJoinedWords(s);
    CollapseEnds(s);
    CollapseShape(s);
    CollapseKeepsText(s);
  }

  lemma ConsPlain(c: char, r: string)
    requires OnlyPlainSpaces(r) && NoDoubleSpace(r)
    requires IsSpace(c) ==> c == ' '
    requires r != [] && c == ' ' ==> r[0] != ' '
    ensures OnlyPlainSpaces([c] + r) && NoDoubleSpace([c] + r)
  {
    var cr := [c] + r;
    forall p | 0 < p < |cr| ensures cr[p] == r[p - 1] {
    }
  }

  /** The characters of `s` that are not whitespace, in order. */
  function NonSpace(s: string): string
    decreases |s|
  {
    if s == [] then [] else (if IsSpace(s[0]) then [] else [s[0]]) + NonSpace(s[1..])
  }

  lemma {:induction false} NonSpaceOfSpace(s: string)
    requires AllSpace(s)
    ensures NonSpace(s) == []
    decreases |s|
  {
    if s != [] {
      NonSpaceOfSpace(s[1..]);
    }
  }

  lemma {:induction false} NonSpaceAppend(a: string, b: string)
    ensures NonSpace(a + b) == NonSpace(a) + NonSpace(b)
    decreases |a|
  {
    if a != [] {
      assert (a + b)[0] == a[0] && (a + b)[1..] == a[1..] + b;
      NonSpaceAppend(a[1..], b);
      var h := if IsSpace(a[0]) then [] else [a[0]];
      calc {
        NonSpace(a + b);
        h + NonSpace(a[1..] + b);
        h + (NonSpace(a[1..]) + NonSpace(b));
        (h + NonSpace(a[1..])) + NonSpace(b);
        NonSpace(a) + NonSpace(b);
      }
    } else {
      assert a + b == b;
    }
  }

  /** Collapsing whitespace keeps every other character, in order. */
  lemma {:induction false} CollapseKeepsText(s: string)
    ensures NonSpace(Collapse(s)) == NonSpace(s)
    decreases |s|
  {
    if s == [] {
    } else if IsSpace(s[0]) {
      var t := TrimStart(s);
      TrimStartSpec(s);
      var k := |s| - |t|;
      assert s == s[..k] + t;
      assert AllSpace(s[..k]);
      NonSpaceAppend(s[..k], t);
      NonSpaceOfSpace(s[..k]);
      CollapseKeepsText(t);
      NonSpaceAppend([' '], Collapse(t));
    } else {
      CollapseKeepsText(s[1..]);
      NonSpaceAppend([s[0]], Collapse(s[1..]));
    }
  }

  /** Python's `sep.join(parts)`. */
  function Join(sep: string, parts: seq<string>): string
    decreases |parts|
  {
    if |parts| == 0 then ""
    else if |parts| == 1 then parts[0]
    else Join(sep, parts[..|parts| - 1]) + sep + parts[|parts| - 1]
  }

  /** Joining with a single space keeps the shape that whitespace collapsing gives each
      part: no whitespace at the ends, only plain spaces, never two in a row. */
  lemma {:induction false} JoinWithSpace(parts: seq<string>)
    requires forall k :: 0 <= k < |parts| ==> IsWordRun(parts[k])
    ensures parts == [] ==> Join(" ", parts) == []
    ensures parts != [] ==> IsWordRun(Join(" ", parts))
    decreases |parts|
  {
    if |parts| >= 2 {
      var init := parts[..|parts| - 1];
      var last := parts[|parts| - 1];
      JoinWithSpace(init);
      GlueWithSpace(Join(" ", init), last);
    }
  }

  /** Two stripped, collapsed strings glued by one space form a stripped, collapsed string. */
  lemma GlueWithSpace(a: string, b: string)
    requires IsWordRun(a) && IsWordRun(b)
    ensures IsWordRun(a + " " + b)
  {
    var r := a + " " + b;
    forall p | 0 < p < |r| && r[p] == ' ' ensures r[p - 1] != ' ' {
      if p > |a| + 1 {
        assert r[p] == b[p - |a| - 1] && r[p - 1] == b[p - |a| - 2];
      }
    }
    forall p | 0 <= p < |r| && IsSpace(r[p]) ensures r[p] == ' ' {
      if p > |a| {
        assert r[p] == b[p - |a| - 1];
      }
    }
  }

  /** A join of non-empty parts begins with the first part's first character and ends
      with the last part's last character. */
  lemma {:induction false} JoinEnds(sep: string, parts: seq<string>)
    requires parts != [] && parts[0] != [] && parts[|parts| - 1] != []
    ensures var r := Join(sep, parts);
      r != [] && r[0] == parts[0][0] && r[|r| - 1] == parts[|parts| - 1][|parts[|parts| - 1]| - 1]
    decreases |parts|
  {
    if |parts| >= 2 {
      var init := parts[..|parts| - 1];
      if init[|init| - 1] != [] {
        JoinEnds(sep, init);
      } else {
        JoinFirst(sep, init);
      }
    }
  }

  lemma {:induction false} JoinFirst(sep: string, parts: seq<string>)
    requires parts != [] && parts[0] != []
    ensures var r := Join(sep, parts); r != [] && r[0] == parts[0][0]
    decreases |parts|
  {
    if |parts| >= 2 {
      JoinFirst(sep, parts[..|parts| - 1]);
    }
  }

  // ---------------------------------------------------------------------------
  // Words: Python's `s.split()`, and collapsing as joining the words with spaces

  /** A non-empty run of characters none of which is whitespace. */
  predicate IsWord(w: string) {
    w != [] && forall i :: 0 <= i < |w| ==> !IsSpace(w[i])
  }

  /** The longest prefix of `s` that holds no whitespace. */
  function WordAt(s: string): (w: string)
    ensures |w| <= |s| && w == s[..|w|]
    ensures forall i :: 0 <= i < |w| ==> !IsSpace(w[i])
    ensures |w| == |s| || IsSpace(s[|w|])
    ensures s != [] && !IsSpace(s[0]) ==> w != []
    decreases |s|
  {
    if s == [] || IsSpace(s[0]) then [] else [s[0]] + WordAt(s[1..])
  }

  /** Python's `s.split()` with no argument: the maximal runs of non-whitespace
      characters of `s`, in order. */
  function Words(s: string): seq<string>
    decreases |s|
  {
    TrimStartSpec(s);
    var t := TrimStart(s);
    if t == [] then []
    else
      var w := WordAt(t);
      [w] + Words(t[|w|..])
  }

  /** Every part `split()` returns is a word. */
  lemma {:induction false} WordsAreWords(s: string)
    ensures forall k :: 0 <= k < |Words(s)| ==> IsWord(Words(s)[k])
    decreases |s|
  {
    TrimStartSpec(s);
    var t := TrimStart(s);
    if t != [] {
      var w := WordAt(t);
      WordsAreWords(t[|w|..]);
      var ws := Words(s);
      assert ws == [w] + Words(t[|w|..]);
      forall k | 0 <= k < |ws| ensures IsWord(ws[k]) {
        if k > 0 {
          assert ws[k] == Words(t[|w|..])[k - 1];
        }
      }
    }
  }

  /** Collapsing passes a leading word through unchanged. */
  lemma {:induction false} CollapseWord(w: string, r: string)
    requires forall i :: 0 <= i < |w| ==> !IsSpace(w[i])
    ensures Collapse(w + r) == w + Collapse(r)
    decreases |w|
  {
    if w == [] {
      assert w + r == r;
    } else {
      assert (w + r)[0] == w[0] && (w + r)[1..] == w[1..] + r;
      CollapseWord(w[1..], r);
      ConcatAssoc([w[0]], w[1..], Collapse(r));
      assert [w[0]] + w[1..] == w;
    }
  }

  /** `sep.join` of a part followed by a non-empty sequence of parts. */
  lemma {:induction false} JoinCons(sep: string, w: string, ws: seq<string>)
    requires ws != []
    ensures Join(sep, [w] + ws) == w + sep + Join(sep, ws)
    decreases |ws|
  {
    var all := [w] + ws;
    assert all[..|all| - 1] == [w] + ws[..|ws| - 1];
    assert all[|all| - 1] == ws[|ws| - 1];
    if |ws| == 1 {
      assert [w] + ws[..0] == [w];
    } else {
      JoinCons(sep, w, ws[..|ws| - 1]);
      var front := Join(sep, ws[..|ws| - 1]);
      ConcatAssoc(w + sep, front, sep + ws[|ws| - 1]);
      ConcatAssoc(w + sep + front, sep, ws[|ws| - 1]);
      ConcatAssoc(front, sep, ws[|ws| - 1]);
    }
  }

  /** A stripped string starting with a word: `split()` yields that word, then the words
      of what follows it. */
  lemma WordsOfWordStart(s: string)
    requires s != [] && !IsSpace(s[0])
    ensures Words(s) == [WordAt(s)] + Words(s[|WordAt(s)|..])
  {
    TrimStartAt(s, 0);
    assert s[0..] == s;
  }

  /** Leading whitespace does not change `split()`. */
  lemma WordsSkipsLeading(s: string)
    ensures Words(TrimStart(s)) == Words(s)
  {
    TrimStartSpec(s);
    var t := TrimStart(s);
    if t != [] {
      WordsOfWordStart(t);
    } else {
      TrimStartAt(t, 0);
    }
  }

  /** On a stripped string, collapsing the whitespace is joining the words with single
      spaces: `re.sub(r'\s+', ' ', s)` is `' '.join(s.split())`. */
  lemma {:induction false} CollapseIsJoinedWords(s: string)
    requires Stripped(s)
    ensures Collapse(s) == Join(" ", Words(s))
    decreases |s|
  {
    if s != [] {
      var w := WordAt(s);
      var rest := s[|w|..];
      assert s == w + rest;
      WordsOfWordStart(s);
      CollapseWord(w, rest);
      if rest == [] {
        assert w + [] == w;
      } else {
        TrimStartSpec(rest);
        var t := TrimStart(rest);
        assert rest[|rest| - 1] == s[|s| - 1];
        assert t != [] && t[|t| - 1] == s[|s| - 1];
        assert Collapse(rest) == [' '] + Collapse(t);
        WordsSkipsLeading(rest);
        CollapseIsJoinedWords(t);
        WordsOfWordStart(t);
        JoinCons(" ", w, Words(t));
        ConcatAssoc(w, " ", Join(" ", Words(t)));
      }
    }
  }

  /** The first word of `x` is unaffected by what follows `x` when that begins with
      whitespace. */
  lemma {:induction false} WordAtAppend(x: string, y: string)
    requires y == [] || IsSpace(y[0])
    ensures WordAt(x + y) == WordAt(x)
    decreases |x|
  {
    if x == [] {
      assert x + y == y;
    } else {
      assert (x + y)[0] == x[0] && (x + y)[1..] == x[1..] + y;
      WordAtAppend(x[1..], y);
    }
  }

  /** Trailing whitespace does not change `split()`. */
  lemma {:induction false} WordsIgnoresTrailing(r: string, back: string)
    requires AllSpace(back)
    ensures Words(r + back) == Words(r)
    decreases |r|
  {
    TrimStartSpec(r);
    var t := TrimStart(r);
    var i := |r| - |t|;
    assert (r + back)[..i] == r[..i];
    if t == [] {
      AllSpaceAppend(r, back);
      TrimStartAt(r + back, |r + back|);
    } else {
      assert (r + back)[i] == t[0];
      TrimStartAt(r + back, i);
      assert (r + back)[i..] == t + back;
      var w := WordAt(t);
      WordAtAppend(t, back);
      assert (t + back)[|w|..] == t[|w|..] + back;
      WordsIgnoresTrailing(t[|w|..], back);
    }
  }

  /** `strip()` does not change `split()`. */
  lemma WordsOfStrip(s: string)
    ensures Words(Strip(s)) == Words(s)
  {
    var u := TrimStart(s);
    WordsSkipsLeading(s);
    TrimEndSpec(u);
    var r := TrimEnd(u);
    assert u == r + u[|r|..];
    WordsIgnoresTrailing(r, u[|r|..]);
  }
}
