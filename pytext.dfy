/**
 * The parts of Python's `str` type and of its `re` module that the pipeline
 * uses, restricted to ASCII: `lower`, `strip`, `split`, `split(maxsplit=1)`,
 * and `re.sub` with the three patterns `\d+`, `[^\w\s]` and `\s+`. Joining
 * words with single spaces (JoinSpace) is not called by the pipeline; it is a
 * reference definition that characterises collapsing whitespace and stripping.
 *
 * Character classes: a digit is '0'..'9', a letter is 'A'..'Z' or 'a'..'z',
 * a word character is a letter, a digit or '_', and whitespace is the ASCII
 * part of what Python's `str.isspace` accepts (space, the controls 9..13 and
 * the separators 28..31). Every other character, including all non-ASCII
 * ones, is in none of these classes.
 */
module PyText {

  predicate IsSpace(c: char) { c == ' ' || 9 <= c as int <= 13 || 28 <= c as int <= 31 }
  predicate IsDigit(c: char) { '0' <= c <= '9' }
  predicate IsUpper(c: char) { 'A' <= c <= 'Z' }
  predicate IsLower(c: char) { 'a' <= c <= 'z' }
  predicate IsLetter(c: char) { IsUpper(c) || IsLower(c) }
  predicate IsWordChar(c: char) { IsLetter(c) || IsDigit(c) || c == '_' }

  predicate AllSpace(s: string) { forall i :: 0 <= i < |s| ==> IsSpace(s[i]) }
  predicate NoSpace(s: string) { forall i :: 0 <= i < |s| ==> !IsSpace(s[i]) }
  predicate AllDigits(s: string) { forall i :: 0 <= i < |s| ==> IsDigit(s[i]) }
  predicate NoUpper(s: string) { forall i :: 0 <= i < |s| ==> !IsUpper(s[i]) }

  // ---------------------------------------------------------------------
  // str.lower

  function LowerChar(c: char): (d: char)
    ensures !IsUpper(d)
    ensures IsUpper(c) ==> IsLower(d) && d as int - 'a' as int == c as int - 'A' as int
    ensures !IsUpper(c) ==> d == c
  {
    if IsUpper(c) then (c as int + 32) as char else c
  }

  /** `s.lower()`: every upper-case letter replaced by its lower-case form. */
  function Lower(s: string): (r: string)
    ensures |r| == |s|
    ensures forall i :: 0 <= i < |s| ==> r[i] == LowerChar(s[i])
    ensures NoUpper(r)
  {
    seq(|s|, i requires 0 <= i < |s| => LowerChar(s[i]))
  }

  lemma LowerConcat(a: string, b: string)
    ensures Lower(a + b) == Lower(a) + Lower(b)
  {
    assert forall i :: 0 <= i < |a + b| ==> Lower(a + b)[i] == (Lower(a) + Lower(b))[i];
  }

  lemma LowerNoUpper(s: string)
    requires NoUpper(s)
    ensures Lower(s) == s
  {
    assert forall i :: 0 <= i < |s| ==> Lower(s)[i] == s[i];
  }

  // ---------------------------------------------------------------------
  // Filtering characters, which is what `re.sub(<class>, '', s)` does

  /** The characters of `s` that satisfy `p`, in their original order. */
  function Keep(s: string, p: char -> bool): (r: string)
    ensures |r| <= |s|
  {
    if s == [] then [] else (if p(s[0]) then [s[0]] else []) + Keep(s[1..], p)
  }

  /** Every kept character satisfies `p` and comes from `s`. */
  lemma {:induction false} KeepChars(s: string, p: char -> bool)
    ensures forall i :: 0 <= i < |Keep(s, p)| ==> p(Keep(s, p)[i]) && Keep(s, p)[i] in s
  {
    if s != [] {
      KeepChars(s[1..], p);
      var r, r' := Keep(s, p), Keep(s[1..], p);
      var h := if p(s[0]) then [s[0]] else [];
      assert r == h + r';
      forall i | 0 <= i < |r| ensures p(r[i]) && r[i] in s {
        if i < |h| {
          assert r[i] == s[0];
        } else {
          assert r[i] == r'[i - |h|];
          assert r'[i - |h|] in s[1..];
        }
      }
    }
  }

  lemma {:induction false} KeepConcat(a: string, b: string, p: char -> bool)
    ensures Keep(a + b, p) == Keep(a, p) + Keep(b, p)
  {
    if a != [] {
      assert (a + b)[1..] == a[1..] + b;
      KeepConcat(a[1..], b, p);
      var h := if p(a[0]) then [a[0]] else [];
      calc {
        Keep(a + b, p);
        h + Keep(a[1..] + b, p);
        h + (Keep(a[1..], p) + Keep(b, p));
        (h + Keep(a[1..], p)) + Keep(b, p);
      }
    } else {
      assert a + b == b;
    }
  }

  lemma {:induction false} KeepAll(s: string, p: char -> bool)
    requires forall i :: 0 <= i < |s| ==> p(s[i])
    ensures Keep(s, p) == s
  {
    if s != [] {
      KeepAll(s[1..], p);
    }
  }

  lemma {:induction false} KeepNone(s: string, p: char -> bool)
    requires forall i :: 0 <= i < |s| ==> !p(s[i])
    ensures Keep(s, p) == []
  {
    if s != [] {
      KeepNone(s[1..], p);
    }
  }

  predicate NotDigit(c: char) { !IsDigit(c) }
  predicate WordOrSpace(c: char) { IsWordChar(c) || IsSpace(c) }

  /** `re.sub(r'\d+', '', s)`: every maximal run of digits is deleted. */
  function DeleteDigits(s: string): string
  {
    Keep(s, NotDigit)
  }

  /** `re.sub(r'[^\w\s]', '', s)`: every character that is neither a word
      character nor whitespace is deleted. */
  function DeleteNonWord(s: string): string
  {
    Keep(s, WordOrSpace)
  }

  // ---------------------------------------------------------------------
  // str.strip

  /** `s.lstrip()`: leading whitespace removed. */
  function TrimStart(s: string): (r: string)
    ensures |r| <= |s|
  {
    if s != [] && IsSpace(s[0]) then TrimStart(s[1..]) else s
  }

  /** What TrimStart leaves is a suffix of `s`, what it removes is all
      whitespace, and what is left does not start with whitespace. */
  lemma {:induction false} TrimStartShape(s: string)
    ensures var r := TrimStart(s);
      && r == s[|s| - |r|..] && AllSpace(s[..|s| - |r|]) && (r == [] || !IsSpace(r[0]))
  {
    if s != [] && IsSpace(s[0]) {
      TrimStartShape(s[1..]);
      var r := TrimStart(s[1..]);
      assert s[..|s| - |r|] == [s[0]] + s[1..][..|s| - 1 - |r|];
    }
  }

  /** `s.rstrip()`: trailing whitespace removed. */
  function TrimEnd(s: string): (r: string)
    ensures |r| <= |s|
  {
    if s != [] && IsSpace(s[|s| - 1]) then TrimEnd(s[..|s| - 1]) else s
  }

  /** What TrimEnd leaves is a prefix of `s`, what it removes is all
      whitespace, and what is left does not end with whitespace. */
  lemma {:induction false} TrimEndShape(s: string)
    ensures var r := TrimEnd(s);
      && r == s[..|r|] && AllSpace(s[|r|..]) && (r == [] || !IsSpace(r[|r| - 1]))
  {
    if s != [] && IsSpace(s[|s| - 1]) {
      TrimEndShape(s[..|s| - 1]);
      var r := TrimEnd(s[..|s| - 1]);
      assert s[|r|..] == s[..|s| - 1][|r|..] + [s[|s| - 1]];
    }
  }

  /** `s.strip()`: whitespace removed at both ends. */
  function Strip(s: string): (r: string)
    ensures |r| <= |s|
  {
    TrimEnd(TrimStart(s))
  }

  /** What Strip leaves neither starts nor ends with whitespace. */
  lemma StripEnds(s: string)
    ensures Trimmed(Strip(s))
  {
    TrimStartShape(s);
    TrimEndShape(TrimStart(s));
  }

  /** A string that neither starts nor ends with whitespace. */
  ghost predicate Trimmed(t: string)
  {
    t == [] || (!IsSpace(t[0]) && !IsSpace(t[|t| - 1]))
  }

  /** Strip(s) is the slice s[i..i + |Strip(s)|] with only whitespace on
      either side of it, and it neither starts nor ends with whitespace. */
  lemma StripSlice(s: string) returns (i: nat)
    ensures var r := Strip(s);
      && i + |r| <= |s| && r == s[i..i + |r|]
      && AllSpace(s[..i]) && AllSpace(s[i + |r|..]) && Trimmed(r)
  {
    i := TrimStartAt(s);
    var t := s[i..];
    var j := TrimEndAt(t);
    SpaceAroundSlice(s, t, j, i);
  }

  /** TrimStart(s) is the suffix of `s` after a whitespace prefix. */
  lemma TrimStartAt(s: string) returns (i: nat)
    ensures i <= |s| && TrimStart(s) == s[i..] && AllSpace(s[..i]) && (i == |s| || !IsSpace(s[i]))
  {
    TrimStartShape(s);
    i := |s| - |TrimStart(s)|;
  }

  /** TrimEnd(t) is the prefix of `t` before a whitespace suffix. */
  lemma TrimEndAt(t: string) returns (j: nat)
    ensures j <= |t| && TrimEnd(t) == t[..j] && AllSpace(t[j..]) && (j == 0 || !IsSpace(t[j - 1]))
  {
    TrimEndShape(t);
    j := |TrimEnd(t)|;
  }

  /** Whitespace cut from the front of `s`, leaving `t`, and then from the
      back of `t`, leaving its first `j` characters, leaves a slice of `s`
      between two runs of whitespace. */
  lemma SpaceAroundSlice(s: string, t: string, j: nat, i: nat)
    requires i <= |s| && t == s[i..] && AllSpace(s[..i]) && (i == |s| || !IsSpace(s[i]))
    requires j <= |t| && AllSpace(t[j..]) && (j == 0 || !IsSpace(t[j - 1]))
    ensures var r := t[..j];
      && i + j <= |s| && r == s[i..i + j]
      && AllSpace(s[..i]) && AllSpace(s[i + j..]) && Trimmed(r)
  {
    assert s[i + j..] == t[j..];
  }

  lemma {:induction false} TrimStartSpaces(p: string, t: string)
    requires AllSpace(p)
    requires t == [] || !IsSpace(t[0])
    ensures TrimStart(p + t) == t
  {
    if p != [] {
      assert (p + t)[1..] == p[1..] + t;
      TrimStartSpaces(p[1..], t);
    } else {
      assert p + t == t;
    }
  }

  lemma {:induction false} TrimEndSpaces(t: string, q: string)
    requires AllSpace(q)
    requires t == [] || !IsSpace(t[|t| - 1])
    ensures TrimEnd(t + q) == t
  {
    if q != [] {
      assert (t + q)[..|t + q| - 1] == t + q[..|q| - 1];
      TrimEndSpaces(t, q[..|q| - 1]);
    } else {
      assert t + q == t;
    }
  }

  /** Strip is determined by its characterisation: whitespace on both sides
      of a slice that neither starts nor ends with whitespace is removed. */
  lemma StripPadded(p: string, m: string, q: string)
    requires AllSpace(p) && AllSpace(q)
    requires Trimmed(m)
    ensures Strip(p + m + q) == m
  {
    if m == [] {
      assert p + m + q == p + q;
      assert AllSpace(p + q);
      TrimStartSpaces(p + q, []);
      assert p + q + [] == p + q;
    } else {
      assert p + m + q == p + (m + q);
      TrimStartSpaces(p, m + q);
      TrimEndSpaces(m, q);
    }
  }

  /** Strip leaves nothing exactly when the string is all whitespace. */
  lemma StripEmpty(s: string)
    ensures Strip(s) == [] <==> AllSpace(s)
  {
    if AllSpace(s) {
      StripPadded(s, [], []);
      assert s + [] + [] == s;
    }
    if Strip(s) == [] {
      StripNothingLeft(s);
    }
  }

  /** When Strip leaves nothing, all of `s` was whitespace. */
  lemma StripNothingLeft(s: string)
    requires Strip(s) == []
    ensures AllSpace(s)
  {
    var i := StripSlice(s);
    assert s == s[..i] + s[i..];
  }

  /** A string that neither starts nor ends with whitespace is its own Strip. */
  lemma StripTrimmed(s: string)
    requires Trimmed(s)
    ensures Strip(s) == s
  {
  }

  // ---------------------------------------------------------------------
  // str.split() and str.split(maxsplit=1)

  /** The longest prefix of `s` without whitespace. */
  function TakeWord(s: string): (w: string)
    ensures |w| <= |s|
  {
    if s == [] || IsSpace(s[0]) then [] else [s[0]] + TakeWord(s[1..])
  }

  /** The first word is a prefix without whitespace that ends where `s` ends
      or where whitespace starts. */
  lemma {:induction false} TakeWordShape(s: string)
    ensures var w := TakeWord(s);
      && w == s[..|w|] && NoSpace(w) && (|w| == |s| || IsSpace(s[|w|]))
      && (s != [] && !IsSpace(s[0]) ==> w != [])
  {
    if s != [] && !IsSpace(s[0]) {
      TakeWordShape(s[1..]);
    }
  }

  /** `s.split()`: the maximal runs of non-whitespace characters of `s`, in
      order; each is non-empty and contains no whitespace. */
  function Split(s: string): seq<string>
    decreases |s|
  {
    if s == [] then []
    else if IsSpace(s[0]) then Split(s[1..])
    else
      var w := TakeWord(s);
      [w] + Split(s[|w|..])
  }

  /** Every word of `s.split()` is non-empty and holds no whitespace. */
  lemma {:induction false} SplitWords(s: string)
    ensures forall k :: 0 <= k < |Split(s)| ==> Split(s)[k] != [] && NoSpace(Split(s)[k])
    decreases |s|
  {
    if s != [] && IsSpace(s[0]) {
      SplitWords(s[1..]);
    } else if s != [] {
      var w := TakeWord(s);
      TakeWordShape(s);
      var rest := Split(s[|w|..]);
      SplitWords(s[|w|..]);
      assert Split(s) == [w] + rest;
      forall k | 0 <= k < |Split(s)| ensures Split(s)[k] != [] && NoSpace(Split(s)[k]) {
        if k > 0 {
          assert Split(s)[k] == rest[k - 1];
        }
      }
    }
  }

  /** `s.split(maxsplit=1)`: the first run of non-whitespace characters and,
      when anything but whitespace follows it, the rest of `s` after the
      whitespace run that ends the first word. */
  function SplitOnce(s: string): (ws: seq<string>)
    ensures |ws| <= 2
    ensures s != [] && !IsSpace(s[0]) ==> ws != []
  {
    var t := TrimStart(s);
    if t == [] then
      []
    else
      var w := TakeWord(t);
      var rest := TrimStart(t[|w|..]);
      if rest == [] then [w] else [w, rest]
  }

  /** On a non-empty stripped string, `split(maxsplit=1)` gives its first word
      and, when the string holds whitespace, the rest after the whitespace run
      that follows that word; `gap` is that run. */
  lemma SplitOnceTrimmed(l: string) returns (gap: string)
    requires l != [] && Trimmed(l)
    ensures var ws := SplitOnce(l);
      && 1 <= |ws| && ws[0] != [] && NoSpace(ws[0]) && AllSpace(gap)
      && (|ws| == 1 ==> gap == [] && l == ws[0])
      && (|ws| == 2 ==> gap != [] && l == ws[0] + gap + ws[1]
                        && ws[1] != [] && !IsSpace(ws[1][0]) && !IsSpace(ws[1][|ws[1]| - 1]))
  {
    var w, rest;
    w, gap, rest := WordGapRest(l);
    assert TrimStart(l) == l;
  }

  /** The pieces SplitOnce cuts a stripped string into: its first word `w`,
      the whitespace run `gap` after it and the `rest` that follows. */
  lemma WordGapRest(l: string) returns (w: string, gap: string, rest: string)
    requires l != [] && Trimmed(l)
    ensures w == TakeWord(l) && rest == TrimStart(l[|w|..])
    ensures w != [] && NoSpace(w) && AllSpace(gap)
    ensures rest == [] ==> gap == [] && l == w
    ensures rest != [] ==>
      gap != [] && l == w + gap + rest && !IsSpace(rest[0]) && !IsSpace(rest[|rest| - 1])
  {
    w := TakeWord(l);
    var x := l[|w|..];
    rest := TrimStart(x);
    TakeWordShape(l);
    TrimStartShape(x);
    assert l == w + x;
    if rest == [] {
      SpaceTailEmpty(w, x);
      gap := [];
    } else {
      gap := GapBeforeRest(l, w, x, rest);
    }
  }

  /** When something follows the whitespace after the first word, the line
      is the word, a non-empty whitespace run and that rest. */
  lemma GapBeforeRest(l: string, w: string, x: string, rest: string) returns (gap: string)
    requires l == w + x && l != [] && !IsSpace(l[|l| - 1])
    requires x == [] || IsSpace(x[0])
    requires |rest| <= |x| && rest == x[|x| - |rest|..] && AllSpace(x[..|x| - |rest|])
    requires rest != [] && !IsSpace(rest[0])
    ensures AllSpace(gap) && gap != [] && l == w + gap + rest
    ensures !IsSpace(rest[|rest| - 1])
  {
    gap := x[..|x| - |rest|];
    assert x == gap + rest;
    assert IsSpace(x[0]);
    assert rest[|rest| - 1] == l[|l| - 1];
  }

  /** A string that does not end in whitespace has no whitespace-only tail. */
  lemma SpaceTailEmpty(w: string, x: string)
    requires AllSpace(x) && w + x != [] && !IsSpace((w + x)[|w + x| - 1])
    ensures x == []
  {
  }

  /** `' '.join(ws)`. */
  function JoinSpace(ws: seq<string>): string
  {
    if ws == [] then []
    else if |ws| == 1 then ws[0]
    else ws[0] + " " + JoinSpace(ws[1..])
  }

  // ---------------------------------------------------------------------
  // re.sub(r'\s+', ' ', s)

  /** Every whitespace character of `t` is a plain space, and no two
      whitespace characters are adjacent. */
  ghost predicate SingleSpaced(t: string)
  {
    && (forall i :: 0 <= i < |t| && IsSpace(t[i]) ==> t[i] == ' ')
    && (forall i, j :: 0 <= i < j < |t| && j == i + 1 ==> !(IsSpace(t[i]) && IsSpace(t[j])))
  }

  /** `re.sub(r'\s+', ' ', s)`: every maximal run of whitespace becomes one
      space. Every other character is kept, and the result is SingleSpaced. */
  function CollapseSpaces(s: string): (r: string)
    ensures r == [] <==> s == []
    ensures r != [] ==> r[0] == if IsSpace(s[0]) then ' ' else s[0]
    decreases |s|
  {
    if s == [] then []
    else if IsSpace(s[0]) then
      var t := TrimStart(s);
      [' '] + CollapseSpaces(t)
    else
      [s[0]] + CollapseSpaces(s[1..])
  }

  /** The result of CollapseSpaces is SingleSpaced, and each of its
      characters is a space or a non-whitespace character of the input. */
  lemma {:induction false} CollapseSpacesShape(s: string)
    ensures var r := CollapseSpaces(s);
      && (forall i :: 0 <= i < |r| ==> r[i] == ' ' || (!IsSpace(r[i]) && r[i] in s))
      && SingleSpaced(r)
    decreases |s|
  {
    if s != [] {
      TrimStartShape(s);
      var s' := if IsSpace(s[0]) then TrimStart(s) else s[1..];
      var h := if IsSpace(s[0]) then ' ' else s[0];
      var r' := CollapseSpaces(s');
      CollapseSpacesShape(s');
      assert CollapseSpaces(s) == [h] + r';
      SingleSpacedCons(h, r');
      assert forall c :: c in s' ==> c in s;
      forall i | 0 <= i < |[h] + r'| ensures ([h] + r')[i] == ' ' || (!IsSpace(([h] + r')[i]) && ([h] + r')[i] in s) {
        if i > 0 {
          assert ([h] + r')[i] == r'[i - 1];
        }
      }
    }
  }

  lemma SingleSpacedCons(c: char, t: string)
    requires SingleSpaced(t)
    requires IsSpace(c) ==> c == ' ' && (t == [] || !IsSpace(t[0]))
    ensures SingleSpaced([c] + t)
  {
    var u := [c] + t;
    forall i, j | 0 <= i < j < |u| && j == i + 1 ensures !(IsSpace(u[i]) && IsSpace(u[j])) {
      if i > 0 {
        assert u[i] == t[i - 1] && u[j] == t[j - 1];
      }
    }
    forall i | 0 <= i < |u| && IsSpace(u[i]) ensures u[i] == ' ' {
      if i > 0 {
        assert u[i] == t[i - 1];
      }
    }
  }

  /** A SingleSpaced string is left as it is by CollapseSpaces. */
  lemma {:induction false} CollapseSingleSpaced(t: string)
    requires SingleSpaced(t)
    ensures CollapseSpaces(t) == t
    decreases |t|
  {
    if t != [] {
      if IsSpace(t[0]) {
        if |t| > 1 {
          assert t == [t[0]] + t[1..];
          TrimStartSpaces([t[0]], t[1..]);
        }
        CollapseSingleSpaced(t[1..]);
      } else {
        CollapseSingleSpaced(t[1..]);
      }
    }
  }

  // ---------------------------------------------------------------------
  // split and join are inverse to each other on single-spaced text

  lemma {:induction false} SplitTrimStart(s: string)
    ensures Split(TrimStart(s)) == Split(s)
  {
    if s != [] && IsSpace(s[0]) {
      SplitTrimStart(s[1..]);
    }
  }

  /** The first word of `w + rest` is `w` when `rest` is empty or starts
      with whitespace. */
  lemma {:induction false} TakeWordConcat(w: string, rest: string)
    requires NoSpace(w)
    requires rest == [] || IsSpace(rest[0])
    ensures TakeWord(w + rest) == w
  {
    if w != [] {
      assert (w + rest)[1..] == w[1..] + rest;
      TakeWordConcat(w[1..], rest);
    } else {
      assert w + rest == rest;
    }
  }

  /** One step of Split on a string that starts with a word `w`. */
  lemma SplitWord(w: string, rest: string)
    requires w != [] && NoSpace(w)
    requires rest == [] || IsSpace(rest[0])
    ensures Split(w + rest) == [w] + Split(rest)
  {
    var s := w + rest;
    TakeWordConcat(w, rest);
    assert s[|w|..] == rest;
  }

  /** Joining words with single spaces and splitting again gives the words. */
  lemma {:induction false} SplitJoinSpace(ws: seq<string>)
    requires forall k :: 0 <= k < |ws| ==> ws[k] != [] && NoSpace(ws[k])
    ensures Split(JoinSpace(ws)) == ws
  {
    if |ws| == 1 {
      SplitWord(ws[0], []);
      assert ws[0] + [] == ws[0];
    } else if |ws| > 1 {
      var w, rest := ws[0], JoinSpace(ws[1..]);
      SplitJoinSpace(ws[1..]);
      JoinSpaceStarts(ws[1..]);
      assert JoinSpace(ws) == w + ([' '] + rest);
      SplitWord(w, [' '] + rest);
      SplitAfterSpaces([' '], rest);
    }
  }

  lemma JoinSpaceStarts(ws: seq<string>)
    requires ws != [] && ws[0] != []
    ensures JoinSpace(ws) != [] && JoinSpace(ws)[0] == ws[0][0]
  {
  }

  lemma SingleSpacedSuffix(t: string, k: nat)
    requires SingleSpaced(t) && k <= |t|
    ensures SingleSpaced(t[k..])
  {
    var u := t[k..];
    assert forall i :: 0 <= i < |u| ==> u[i] == t[k + i];
  }

  /** Single-spaced, trimmed, non-empty text is one word, or a word, one
      space and more single-spaced, trimmed text. */
  lemma SplitFirstWord(t: string) returns (w: string, u: string)
    requires SingleSpaced(t) && Trimmed(t) && t != []
    ensures w != [] && NoSpace(w) && |u| < |t|
    ensures u == [] ==> t == w
    ensures u != [] ==> t == w + ([' '] + u) && SingleSpaced(u) && Trimmed(u) && !IsSpace(u[0])
  {
    w := TakeWord(t);
    TakeWordShape(t);
    if |w| == |t| {
      u := [];
    } else {
      u := WordThenSpace(t, w);
    }
  }

  /** In single-spaced trimmed text, a word that stops short of the end is
      followed by one space and a single-spaced trimmed rest. */
  lemma WordThenSpace(t: string, w: string) returns (u: string)
    requires SingleSpaced(t) && Trimmed(t)
    requires w != [] && |w| < |t| && w == t[..|w|] && IsSpace(t[|w|])
    ensures |u| < |t| && u != [] && t == w + ([' '] + u) && SingleSpaced(u) && Trimmed(u) && !IsSpace(u[0])
  {
    var k := |w|;
    assert t[k] == ' ';
    assert k + 1 < |t|;
    assert !IsSpace(t[k + 1]);
    u := t[k + 1..];
    assert t == t[..k] + [t[k]] + t[k + 1..];
    SingleSpacedSuffix(t, k + 1);
  }

  lemma SeqAssoc<T>(a: seq<T>, b: seq<T>, c: seq<T>)
    ensures a + b + c == a + (b + c)
  {
  }

  lemma JoinSpaceCons(w: string, ws: seq<string>)
    requires ws != []
    ensures JoinSpace([w] + ws) == w + " " + JoinSpace(ws)
  {
    assert ([w] + ws)[1..] == ws;
  }

  /** Splitting single-spaced, trimmed text and joining the words with
      single spaces gives the text back. */
  lemma {:induction false} JoinSpaceSplit(t: string)
    requires SingleSpaced(t) && Trimmed(t)
    ensures JoinSpace(Split(t)) == t
    decreases |t|
  {
    if t != [] {
      var w, u := SplitFirstWord(t);
      if u == [] {
        SplitWord(w, []);
        assert w + [] == w;
      } else {
        SplitWord(w, [' '] + u);
        SplitAfterSpaces([' '], u);
        JoinSpaceSplit(u);
        var us := Split(u);
        JoinSpaceCons(w, us);
        SeqAssoc(w, " ", u);
      }
    }
  }

  // ---------------------------------------------------------------------
  // re.sub(r'\s+', ' ', x).strip() is ' '.join(x.split())

  /** Whitespace in front of a string does not change its words. */
  lemma {:induction false} SplitAfterSpaces(p: string, u: string)
    requires AllSpace(p)
    ensures Split(p + u) == Split(u)
  {
    if p != [] {
      assert (p + u)[1..] == p[1..] + u;
      SplitAfterSpaces(p[1..], u);
    } else {
      assert p + u == u;
    }
  }

  lemma SplitAllSpace(q: string)
    requires AllSpace(q)
    ensures Split(q) == []
  {
    SplitAfterSpaces(q, []);
    assert q + [] == q;
  }

  /** The words of a concatenation are the words of its parts when the two
      parts do not meet inside a word. */
  lemma {:induction false} SplitConcat(m: string, q: string)
    requires m == [] || q == [] || IsSpace(m[|m| - 1]) || IsSpace(q[0])
    ensures Split(m + q) == Split(m) + Split(q)
    decreases |m|
  {
    if m == [] {
      assert m + q == q;
    } else if IsSpace(m[0]) {
      var m' := m[1..];
      assert m' == [] || m'[|m'| - 1] == m[|m| - 1];
      SplitConcat(m', q);
      SplitConcatSpace(m, q);
    } else {
      var w, r := FirstWord(m);
      if r == [] {
        assert m == w;
        SplitConcatWord(w, q);
      } else {
        SplitConcat(r, q);
        SplitConcatWordRest(w, r, q);
      }
    }
  }

  /** A string that starts with a word is that word followed by the rest,
      which is empty or starts with whitespace and ends where `m` ends. */
  lemma FirstWord(m: string) returns (w: string, r: string)
    requires m != [] && !IsSpace(m[0])
    ensures w != [] && NoSpace(w) && m == w + r && |r| < |m|
    ensures r == [] || (IsSpace(r[0]) && r[|r| - 1] == m[|m| - 1])
  {
    w := TakeWord(m);
    TakeWordShape(m);
    r := m[|w|..];
    assert m == w + r;
  }

  lemma SplitConcatSpace(m: string, q: string)
    requires m != [] && IsSpace(m[0])
    requires Split(m[1..] + q) == Split(m[1..]) + Split(q)
    ensures Split(m + q) == Split(m) + Split(q)
  {
    assert (m + q)[1..] == m[1..] + q;
  }

  lemma SplitConcatWord(w: string, q: string)
    requires w != [] && NoSpace(w)
    requires q == [] || IsSpace(q[0])
    ensures Split(w + q) == Split(w) + Split(q)
  {
    calc {
      Split(w + q);
      { SplitWord(w, q); }
      [w] + Split(q);
      { SplitWord(w, []); assert w + [] == w; assert Split([]) == []; }
      Split(w) + Split(q);
    }
  }

  lemma SplitConcatWordRest(w: string, r: string, q: string)
    requires w != [] && NoSpace(w)
    requires r != [] && IsSpace(r[0])
    requires Split(r + q) == Split(r) + Split(q)
    ensures Split(w + r + q) == Split(w + r) + Split(q)
  {
    SeqAssoc(w, r, q);
    assert (r + q)[0] == r[0];
    SplitWord(w, r + q);
    SplitWord(w, r);
    SeqAssoc([w], Split(r), Split(q));
    calc {
      Split(w + r + q);
      Split(w + (r + q));
      [w] + Split(r + q);
      [w] + (Split(r) + Split(q));
      ([w] + Split(r)) + Split(q);
      Split(w + r) + Split(q);
    }
  }

  /** Strip does not change the words of a string. */
  lemma SplitStrip(y: string)
    ensures Split(Strip(y)) == Split(y)
  {
    SplitTrimStart(y);
    SplitTrimEnd(TrimStart(y));
  }

  lemma SplitTrimEnd(t: string)
    ensures Split(TrimEnd(t)) == Split(t)
  {
    var m := TrimEnd(t);
    TrimEndShape(t);
    var q := t[|m|..];
    assert t == m + q;
    SplitConcat(m, q);
    SplitAllSpace(q);
    assert Split(m) + [] == Split(m);
  }

  lemma {:induction false} CollapseWord(w: string, rest: string)
    requires NoSpace(w)
    ensures CollapseSpaces(w + rest) == w + CollapseSpaces(rest)
  {
    if w != [] {
      var s := w + rest;
      assert s[0] == w[0] && !IsSpace(s[0]);
      assert s[1..] == w[1..] + rest;
      calc {
        CollapseSpaces(s);
        [w[0]] + CollapseSpaces(s[1..]);
        { CollapseWord(w[1..], rest); }
        [w[0]] + (w[1..] + CollapseSpaces(rest));
        { SeqAssoc([w[0]], w[1..], CollapseSpaces(rest)); assert [w[0]] + w[1..] == w; }
        w + CollapseSpaces(rest);
      }
    } else {
      assert w + rest == rest;
    }
  }

  /** A run of whitespace before a word becomes one space. */
  lemma CollapseGap(p: string, t: string)
    requires p != [] && AllSpace(p)
    requires t == [] || !IsSpace(t[0])
    ensures CollapseSpaces(p + t) == " " + CollapseSpaces(t)
  {
    assert (p + t)[0] == p[0];
    TrimStartSpaces(p, t);
  }

  /** CollapseSpaces does not change the words of a string. */
  lemma {:induction false} SplitCollapse(y: string)
    ensures Split(CollapseSpaces(y)) == Split(y)
    decreases |y|
  {
    if y == [] {
    } else if IsSpace(y[0]) {
      var t := TrimStart(y);
      SplitCollapse(t);
      SplitAfterSpaces([' '], CollapseSpaces(t));
      SplitTrimStart(y);
    } else {
      var w := TakeWord(y);
      TakeWordShape(y);
      var r := y[|w|..];
      assert y == w + r;
      CollapseWord(w, r);
      SplitCollapse(r);
      SplitWord(w, r);
      SplitWord(w, CollapseSpaces(r));
    }
  }

  /** The substitution-and-strip chain equals splitting and joining with a
      single space. */
  lemma CollapseStripIsJoinSplit(x: string)
    ensures Strip(CollapseSpaces(x)) == JoinSpace(Split(x))
  {
    var d := CollapseSpaces(x);
    var e := Strip(d);
    StripCollapsedSingleSpaced(x);
    calc {
      e;
      { JoinSpaceSplit(e); }
      JoinSpace(Split(e));
      { SplitStrip(d); }
      JoinSpace(Split(d));
      { SplitCollapse(x); }
      JoinSpace(Split(x));
    }
  }

  lemma StripCollapsedSingleSpaced(x: string)
    ensures SingleSpaced(Strip(CollapseSpaces(x))) && Trimmed(Strip(CollapseSpaces(x)))
  {
    CollapseSpacesShape(x);
    StripSingleSpaced(CollapseSpaces(x));
  }

  lemma StripSingleSpaced(d: string)
    requires SingleSpaced(d)
    ensures SingleSpaced(Strip(d)) && Trimmed(Strip(d))
  {
    var i := StripSlice(d);
    SingleSpacedSlice(d, i, i + |Strip(d)|);
  }

  lemma SingleSpacedSlice(t: string, i: nat, j: nat)
    requires SingleSpaced(t) && i <= j <= |t|
    ensures SingleSpaced(t[i..j])
  {
    var u := t[i..j];
    assert forall k :: 0 <= k < |u| ==> u[k] == t[i + k];
  }
}
