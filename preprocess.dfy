/**
 * Text preprocessing for training (src/utils/preprocess.py): the text
 * normaliser `clean_text`, the stop-word tokenizer `tokenize_text`, and
 * `preprocess_bgl_logs`, which adds the `cleaned_text` and `tokens` columns
 * to a frame of parsed log records.
 */
module Preprocess {
  import opened Wrappers
  import opened PyText
  import opened Table

  // ---------------------------------------------------------------------
  // clean_text

  /** Lower-case, delete digit runs, delete characters that are neither word
      characters nor whitespace, then collapse whitespace runs and strip. */
  function CleanText(text: string): string
  {
    Strip(CollapseSpaces(DeleteNonWord(DeleteDigits(Lower(text)))))
  }

  /** The characters that can survive cleaning. */
  predicate IsCleanChar(c: char) { IsLower(c) || c == '_' || c == ' ' }

  /** The shape of cleaned text: lower-case letters, underscores and single
      spaces, with no space at either end and no two spaces in a row. */
  ghost predicate IsClean(t: string)
  {
    && (forall i :: 0 <= i < |t| ==> IsCleanChar(t[i]))
    && (t != [] ==> t[0] != ' ' && t[|t| - 1] != ' ')
    && (forall i, j :: 0 <= i < j < |t| && j == i + 1 ==> !(t[i] == ' ' && t[j] == ' '))
  }

  /** The characters left after the two deletions are lower-case letters,
      underscores and whitespace. */
  lemma DeletionsLeaveCleanOrSpace(text: string)
    ensures var c := DeleteNonWord(DeleteDigits(Lower(text)));
      forall i :: 0 <= i < |c| ==> IsLower(c[i]) || c[i] == '_' || IsSpace(c[i])
  {
    var a := Lower(text);
    var b := DeleteDigits(a);
    var c := DeleteNonWord(b);
    assert forall i :: 0 <= i < |b| ==> !IsUpper(b[i]) && !IsDigit(b[i]) by {
      KeepChars(a, NotDigit);
      forall i | 0 <= i < |b| ensures !IsUpper(b[i]) && !IsDigit(b[i]) {
        assert NotDigit(b[i]) && b[i] in a;
      }
    }
    KeepChars(b, WordOrSpace);
    forall i | 0 <= i < |c| ensures IsLower(c[i]) || c[i] == '_' || IsSpace(c[i]) {
      assert WordOrSpace(c[i]) && c[i] in b;
    }
  }

  /** Collapsing whitespace in such characters leaves clean characters and
      single spaces. */
  lemma CollapseKeepsCleanChars(c: string)
    requires forall i :: 0 <= i < |c| ==> IsLower(c[i]) || c[i] == '_' || IsSpace(c[i])
    ensures var d := CollapseSpaces(c);
      (forall i :: 0 <= i < |d| ==> IsCleanChar(d[i])) && SingleSpaced(d)
  {
    CollapseSpacesShape(c);
    var d := CollapseSpaces(c);
    forall i | 0 <= i < |d| ensures IsCleanChar(d[i]) {
      if d[i] != ' ' {
        assert d[i] in c;
      }
    }
  }

  /** A slice of text of clean characters is of clean characters. */
  lemma CleanCharsSlice(d: string, i: nat, j: nat)
    requires i <= j <= |d|
    requires forall k :: 0 <= k < |d| ==> IsCleanChar(d[k])
    ensures forall k :: 0 <= k < j - i ==> IsCleanChar(d[i..j][k])
  {
    forall k | 0 <= k < j - i ensures IsCleanChar(d[i..j][k]) {
      assert d[i..j][k] == d[i + k];
    }
  }

  /** Clean characters, single spacing and no whitespace at the ends make
      the cleaned shape. */
  lemma CleanFromParts(e: string)
    requires forall i :: 0 <= i < |e| ==> IsCleanChar(e[i])
    requires SingleSpaced(e) && Trimmed(e)
    ensures IsClean(e)
  {
    forall i, j | 0 <= i < j < |e| && j == i + 1 ensures !(e[i] == ' ' && e[j] == ' ') {
      assert !(IsSpace(e[i]) && IsSpace(e[j]));
    }
  }

  /** A trimmed slice of single-spaced text of clean characters is clean. */
  lemma CleanSlice(d: string, k: nat, e: string)
    requires forall i :: 0 <= i < |d| ==> IsCleanChar(d[i])
    requires SingleSpaced(d)
    requires k + |e| <= |d| && e == d[k..k + |e|] && Trimmed(e)
    ensures IsClean(e)
  {
    CleanCharsSlice(d, k, k + |e|);
    SingleSpacedSlice(d, k, k + |e|);
    CleanFromParts(e);
  }

  /** Stripping single-spaced text of clean characters gives clean text. */
  lemma StripGivesClean(d: string)
    requires forall i :: 0 <= i < |d| ==> IsCleanChar(d[i])
    requires SingleSpaced(d)
    ensures IsClean(Strip(d))
  {
    var k := StripSlice(d);
    CleanSlice(d, k, Strip(d));
  }

  /** Every result of clean_text has the cleaned shape. */
  lemma CleanTextIsClean(text: string)
    ensures IsClean(CleanText(text))
  {
    var c := DeleteNonWord(DeleteDigits(Lower(text)));
    DeletionsLeaveCleanOrSpace(text);
    CollapseKeepsCleanChars(c);
    StripGivesClean(CollapseSpaces(c));
  }

  lemma CleanLowerFixed(t: string)
    requires IsClean(t)
    ensures Lower(t) == t
  {
    LowerNoUpper(t);
  }

  lemma CleanDeletionsFixed(t: string)
    requires IsClean(t)
    ensures DeleteDigits(t) == t && DeleteNonWord(t) == t
  {
    KeepAll(t, NotDigit);
    KeepAll(t, WordOrSpace);
  }

  lemma CleanCollapseFixed(t: string)
    requires IsClean(t)
    ensures CollapseSpaces(t) == t
  {
    assert SingleSpaced(t);
    CollapseSingleSpaced(t);
  }

  lemma CleanStripFixed(t: string)
    requires IsClean(t)
    ensures Strip(t) == t
  {
    StripTrimmed(t);
  }

  /** Text of the cleaned shape is left unchanged by clean_text. */
  lemma CleanTextFixesClean(t: string)
    requires IsClean(t)
    ensures CleanText(t) == t
  {
    calc {
      CleanText(t);
      Strip(CollapseSpaces(DeleteNonWord(DeleteDigits(Lower(t)))));
      { CleanLowerFixed(t); }
      Strip(CollapseSpaces(DeleteNonWord(DeleteDigits(t))));
      { CleanDeletionsFixed(t); }
      Strip(CollapseSpaces(t));
      { CleanCollapseFixed(t); }
      Strip(t);
      { CleanStripFixed(t); }
      t;
    }
  }

  /** clean_text returns a string exactly when that string is of the cleaned
      shape: its image is the set of clean strings. */
  lemma CleanTextFixpoints(t: string)
    ensures CleanText(t) == t <==> IsClean(t)
  {
    if IsClean(t) {
      CleanTextFixesClean(t);
    } else {
      CleanTextIsClean(t);
    }
  }

  /** clean_text is idempotent. */
  lemma CleanTextIdempotent(text: string)
    ensures CleanText(CleanText(text)) == CleanText(text)
  {
    CleanTextIsClean(text);
    CleanTextFixesClean(CleanText(text));
  }

  /** The result holds no upper-case letter, no digit, no punctuation and no
      whitespace other than single inner spaces. */
  lemma CleanTextCharacters(text: string)
    ensures var r := CleanText(text);
      && (forall i :: 0 <= i < |r| ==> !IsUpper(r[i]) && !IsDigit(r[i]))
      && (forall i :: 0 <= i < |r| ==> IsLetter(r[i]) || r[i] == '_' || r[i] == ' ')
      && (r != [] ==> r[0] != ' ' && r[|r| - 1] != ' ')
      && (forall i, j :: 0 <= i < j < |r| && j == i + 1 ==> !(r[i] == ' ' && r[j] == ' '))
  {
    CleanTextIsClean(text);
  }

  lemma LowerAroundDigits(a: string, d: string, b: string)
    requires AllDigits(d)
    ensures Lower(a + d + b) == Lower(a) + d + Lower(b)
  {
    LowerConcat(a + d, b);
    LowerConcat(a, d);
    LowerNoUpper(d);
  }

  lemma DeleteDigitsDrops(x: string, d: string, y: string)
    requires AllDigits(d)
    ensures DeleteDigits(x + d + y) == DeleteDigits(x + y)
  {
    KeepConcat(x + d, y, NotDigit);
    KeepConcat(x, d, NotDigit);
    KeepConcat(x, y, NotDigit);
    KeepNone(d, NotDigit);
    assert DeleteDigits(x) + [] == DeleteDigits(x);
  }

  /** A run of digits is deleted, not replaced by a space: inserting one
      anywhere does not change the cleaned text. */
  lemma CleanTextDeletesDigits(a: string, d: string, b: string)
    requires AllDigits(d)
    ensures CleanText(a + d + b) == CleanText(a + b)
  {
    calc {
      DeleteDigits(Lower(a + d + b));
      { LowerAroundDigits(a, d, b); }
      DeleteDigits(Lower(a) + d + Lower(b));
      { DeleteDigitsDrops(Lower(a), d, Lower(b)); }
      DeleteDigits(Lower(a) + Lower(b));
      { LowerConcat(a, b); }
      DeleteDigits(Lower(a + b));
    }
  }

  /** Digits at the end of a word vanish and leave the word. */
  lemma CleanTextDigitsInWord()
    ensures CleanText("node12") == "node"
  {
    NodeStages();
    StripTrimmed("node");
  }

  /** The stages of cleaning "node12". */
  lemma NodeStages()
    ensures DeleteNonWord(DeleteDigits(Lower("node12"))) == "node"
    ensures CollapseSpaces("node") == "node"
  {
    NodeLower();
    NodeDigits();
    NodeNonWord();
    NodeCollapse();
  }

  lemma NodeLower()
    ensures Lower("node12") == "node12"
  {
    LowerNoUpper("node12");
  }

  lemma NodeNonWord()
    ensures DeleteNonWord("node") == "node"
  {
    KeepAll("node", WordOrSpace);
  }

  lemma NodeCollapse()
    ensures CollapseSpaces("node") == "node"
  {
    CollapseWord("node", []);
    assert "node" + [] == "node";
  }

  lemma NodeDigits()
    ensures DeleteDigits("node12") == "node"
  {
    assert "node" + "12" == "node12";
    DeleteTrailingDigits("node", "12");
  }

  /** Digits after a word without digits are deleted and the word is kept. */
  lemma DeleteTrailingDigits(w: string, d: string)
    requires forall i :: 0 <= i < |w| ==> NotDigit(w[i])
    requires AllDigits(d)
    ensures DeleteDigits(w + d) == w
  {
    KeepConcat(w, d, NotDigit);
    KeepAll(w, NotDigit);
    KeepNone(d, NotDigit);
    assert w + [] == w;
  }

  /** A number between two spaces leaves a single space. */
  lemma CleanTextDigitsBetweenSpaces()
    ensures CleanText("a 1 b") == "a b"
  {
    SpacedDigitStages();
    CollapseTwoSpaces();
    StripTrimmed("a b");
  }

  /** The deletion stages of cleaning "a 1 b". */
  lemma SpacedDigitStages()
    ensures DeleteNonWord(DeleteDigits(Lower("a 1 b"))) == "a  b"
  {
    SpacedDigitLower();
    SpacedDigit();
    SpacedDigitNonWord();
  }

  lemma SpacedDigitLower()
    ensures Lower("a 1 b") == "a 1 b"
  {
    LowerNoUpper("a 1 b");
  }

  lemma SpacedDigitNonWord()
    ensures DeleteNonWord("a  b") == "a  b"
  {
    KeepAll("a  b", WordOrSpace);
  }

  lemma SpacedDigit()
    ensures DeleteDigits("a 1 b") == "a  b"
  {
    assert "a " + "1" + " b" == "a 1 b";
    DeleteDigitsDrops("a ", "1", " b");
    assert "a " + " b" == "a  b";
    KeepAll("a  b", NotDigit);
  }

  lemma CollapseTwoSpaces()
    ensures CollapseSpaces("a  b") == "a b"
  {
    assert "a" + "  b" == "a  b";
    CollapseWord("a", "  b");
    assert "  " + "b" == "  b";
    CollapseGap("  ", "b");
    CollapseWord("b", []);
    assert "b" + [] == "b";
    assert "a" + (" " + "b") == "a b";
  }

  /** Whitespace-only text cleans to the empty string. */
  lemma CleanTextAllSpace(text: string)
    requires AllSpace(text)
    ensures CleanText(text) == ""
  {
    calc {
      DeleteNonWord(DeleteDigits(Lower(text)));
      { LowerNoUpper(text); }
      DeleteNonWord(DeleteDigits(text));
      { KeepAll(text, NotDigit); }
      DeleteNonWord(text);
      { KeepAll(text, WordOrSpace); }
      text;
    }
    var d := CollapseSpaces(text);
    assert AllSpace(d) by {
      CollapseSpacesShape(text);
    }
    var k := StripSlice(d);
  }

  /** clean_text equals deleting digits and punctuation from the lower-cased
      text and joining its whitespace-separated words with single spaces. */
  lemma CleanTextJoinsWords(text: string)
    ensures CleanText(text) == JoinSpace(Split(DeleteNonWord(DeleteDigits(Lower(text)))))
  {
    CollapseStripIsJoinSplit(DeleteNonWord(DeleteDigits(Lower(text))));
  }

  // ---------------------------------------------------------------------
  // tokenize_text

  /** The words of `ws` that are not stop words, in order. */
  function DropStopWords(ws: seq<string>, stopWords: set<string>): (r: seq<string>)
    ensures |r| <= |ws|
  {
    if ws == [] then []
    else (if ws[0] in stopWords then [] else [ws[0]]) + DropStopWords(ws[1..], stopWords)
  }

  /** `text.split()` without the stop words. */
  function TokenizeText(text: string, stopWords: set<string>): seq<string>
  {
    DropStopWords(Split(text), stopWords)
  }

  /** `idx` lists, in increasing order, positions of `ys` holding `xs`. */
  ghost predicate Embeds<T>(idx: seq<int>, xs: seq<T>, ys: seq<T>)
  {
    && |idx| == |xs|
    && (forall k :: 0 <= k < |idx| ==> 0 <= idx[k] < |ys| && xs[k] == ys[idx[k]])
    && (forall k, l :: 0 <= k < l < |idx| ==> idx[k] < idx[l])
  }

  /** `xs` is an order-preserving subsequence of `ys`. */
  ghost predicate IsSubsequence<T>(xs: seq<T>, ys: seq<T>)
  {
    exists idx :: Embeds(idx, xs, ys)
  }

  /** Every position moved one place to the right. */
  function Shift(idx: seq<int>): (r: seq<int>)
    ensures |r| == |idx| && forall k :: 0 <= k < |r| ==> r[k] == idx[k] + 1
  {
    seq(|idx|, k requires 0 <= k < |idx| => idx[k] + 1)
  }

  /** An embedding into the tail of `ys` is one into `ys` once shifted. */
  lemma EmbedsShift<T>(idx: seq<int>, xs: seq<T>, ys: seq<T>)
    requires ys != [] && Embeds(idx, xs, ys[1..])
    ensures Embeds(Shift(idx), xs, ys)
  {
    var sh := Shift(idx);
    forall k | 0 <= k < |sh| ensures 0 <= sh[k] < |ys| && xs[k] == ys[sh[k]] {
      assert ys[1..][idx[k]] == ys[idx[k] + 1];
    }
  }

  /** The head of `ys` can be put in front of such a shifted embedding. */
  lemma EmbedsCons<T>(idx: seq<int>, xs: seq<T>, ys: seq<T>)
    requires ys != [] && Embeds(idx, xs, ys[1..])
    ensures Embeds([0] + Shift(idx), [ys[0]] + xs, ys)
  {
    EmbedsShift(idx, xs, ys);
    var sh := Shift(idx);
    var id := [0] + sh;
    var zs := [ys[0]] + xs;
    forall k | 0 <= k < |id| ensures 0 <= id[k] < |ys| && zs[k] == ys[id[k]] {
      if k > 0 {
        assert id[k] == sh[k - 1] && zs[k] == xs[k - 1];
      }
    }
    forall k, l | 0 <= k < l < |id| ensures id[k] < id[l] {
      assert id[l] == sh[l - 1];
      if k > 0 {
        assert id[k] == sh[k - 1];
      }
    }
  }

  /** The positions listed in the shifted sequence. */
  lemma ShiftContains(idx: seq<int>, i: int)
    ensures i in Shift(idx) <==> i - 1 in idx
  {
    if i - 1 in idx {
      var k :| 0 <= k < |idx| && idx[k] == i - 1;
      assert Shift(idx)[k] == i;
    }
  }

  /** The positions of `ws` that DropStopWords keeps. */
  function KeptPositions(ws: seq<string>, stopWords: set<string>): seq<int>
  {
    if ws == [] then []
    else (if ws[0] in stopWords then [] else [0]) + Shift(KeptPositions(ws[1..], stopWords))
  }

  /** DropStopWords picks its words, in order, from the kept positions. */
  lemma {:induction false} KeptPositionsEmbed(ws: seq<string>, stopWords: set<string>)
    ensures Embeds(KeptPositions(ws, stopWords), DropStopWords(ws, stopWords), ws)
  {
    if ws != [] {
      var rest := KeptPositions(ws[1..], stopWords);
      KeptPositionsEmbed(ws[1..], stopWords);
      if ws[0] in stopWords {
        EmbedsShift(rest, DropStopWords(ws[1..], stopWords), ws);
      } else {
        EmbedsCons(rest, DropStopWords(ws[1..], stopWords), ws);
      }
    }
  }

  /** The kept positions are exactly the positions holding no stop word. */
  lemma {:induction false} KeptPositionsExact(ws: seq<string>, stopWords: set<string>)
    ensures forall i :: i in KeptPositions(ws, stopWords) <==> 0 <= i < |ws| && ws[i] !in stopWords
  {
    if ws != [] {
      var rest := KeptPositions(ws[1..], stopWords);
      KeptPositionsExact(ws[1..], stopWords);
      forall i ensures i in KeptPositions(ws, stopWords) <==> 0 <= i < |ws| && ws[i] !in stopWords {
        ShiftContains(rest, i);
        if 0 < i <= |ws| - 1 {
          assert ws[1..][i - 1] == ws[i];
        }
      }
    }
  }

  /** tokenize_text returns an order-preserving subsequence of the words of
      `text`; every token is non-empty, holds no whitespace and is not a stop
      word, and every word of `text` that is not a stop word is a token. */
  lemma TokenizeTextSpec(text: string, stopWords: set<string>)
    ensures var r := TokenizeText(text, stopWords);
      && IsSubsequence(r, Split(text))
      && (forall k :: 0 <= k < |r| ==> r[k] != [] && NoSpace(r[k]) && r[k] !in stopWords)
      && (forall w :: w in Split(text) && w !in stopWords ==> w in r)
  {
    var ws := Split(text);
    var r := TokenizeText(text, stopWords);
    var idx := KeptPositions(ws, stopWords);
    KeptPositionsEmbed(ws, stopWords);
    KeptPositionsExact(ws, stopWords);
    SplitWords(text);
    forall k | 0 <= k < |r| ensures r[k] != [] && NoSpace(r[k]) && r[k] !in stopWords {
      assert r[k] == ws[idx[k]] && idx[k] in idx;
    }
    forall w | w in ws && w !in stopWords ensures w in r {
      var i :| 0 <= i < |ws| && ws[i] == w;
      var k :| 0 <= k < |idx| && idx[k] == i;
      assert r[k] == w;
    }
  }

  // ---------------------------------------------------------------------
  // preprocess_bgl_logs

  datatype SchemaError = ValueError(message: string)

  const MissingLogMessage := "Column 'log_message' not found in DataFrame."

  /** The row with its `cleaned_text` cell filled from its `log_message`. */
  function WithCleanedText(r: Row): Row
    requires r.logMessage.Some?
  {
    r.(cleanedText := Some(CleanText(r.logMessage.value)))
  }

  /** `df['cleaned_text'] = df['log_message'].apply(clean_text)`: the new
      column is computed row by row and then assigned to the frame. */
  method AddCleanedText(df: DataFrame)
    requires df.Valid() && LogMessage in df.columns
    modifies df
    ensures df.Valid()
    ensures df.columns == old(df.columns) + {CleanedText}
    ensures |df.rows| == |old(df.rows)|
    ensures forall i :: 0 <= i < |df.rows| ==>
      && old(df.rows[i]).logMessage.Some?
      && df.rows[i] == WithCleanedText(old(df.rows[i]))
  {
    var cols0, rows0 := df.columns, df.rows;
    HasColumnCells(rows0, cols0, LogMessage);
    var rows := [];
    while |rows| < |rows0|
      invariant |rows| <= |rows0|
      invariant forall k :: 0 <= k < |rows| ==> rows[k] == WithCleanedText(rows0[k])
    {
      rows := rows + [WithCleanedText(rows0[|rows|])];
    }
    ghost var texts := seq(|rows|, k requires 0 <= k < |rows| => rows[k].cleanedText.value);
    assert forall k :: 0 <= k < |rows| ==> rows[k] == rows0[k].(cleanedText := Some(texts[k]));
    FitWithCleanedText(rows0, cols0, texts, rows);
    df.rows := rows;
    df.columns := cols0 + {CleanedText};
  }

  /** Every row of a well-formed frame has a cell in each of its columns. */
  lemma HasColumnCells(rows: seq<Row>, cols: set<Column>, c: Column)
    requires forall k :: 0 <= k < |rows| ==> Fits(rows[k], cols)
    requires c in cols
    ensures forall k :: 0 <= k < |rows| ==> Has(rows[k], c)
  {
  }

  /** Rows that fit a frame fit it once each gets a `cleaned_text` cell and
      the column is added. */
  lemma FitWithCleanedText(rows0: seq<Row>, cols: set<Column>, texts: seq<string>, rows: seq<Row>)
    requires forall k :: 0 <= k < |rows0| ==> Fits(rows0[k], cols)
    requires |rows| == |rows0| == |texts|
    requires forall k :: 0 <= k < |rows| ==> rows[k] == rows0[k].(cleanedText := Some(texts[k]))
    ensures forall k :: 0 <= k < |rows| ==> Fits(rows[k], cols + {CleanedText})
  {
    forall k | 0 <= k < |rows| ensures Fits(rows[k], cols + {CleanedText}) {
      forall c ensures Has(rows[k], c) <==> c in cols + {CleanedText} {
        assert Has(rows0[k], c) <==> c in cols;
      }
    }
  }

  /** The row with its `tokens` cell filled from its `cleaned_text`. */
  function WithTokens(r: Row, stopWords: set<string>): Row
    requires r.cleanedText.Some?
  {
    r.(tokens := Some(TokenizeText(r.cleanedText.value, stopWords)))
  }

  /** `df['tokens'] = df['cleaned_text'].apply(tokenize_text)`, computed the
      same way. */
  method AddTokens(df: DataFrame, stopWords: set<string>)
    requires df.Valid() && CleanedText in df.columns
    modifies df
    ensures df.Valid()
    ensures df.columns == old(df.columns) + {Tokens}
    ensures |df.rows| == |old(df.rows)|
    ensures forall i :: 0 <= i < |df.rows| ==>
      && old(df.rows[i]).cleanedText.Some?
      && df.rows[i] == WithTokens(old(df.rows[i]), stopWords)
  {
    var cols0, rows0 := df.columns, df.rows;
    HasColumnCells(rows0, cols0, CleanedText);
    var rows := [];
    while |rows| < |rows0|
      invariant |rows| <= |rows0|
      invariant forall k :: 0 <= k < |rows| ==> rows[k] == WithTokens(rows0[k], stopWords)
    {
      rows := rows + [WithTokens(rows0[|rows|], stopWords)];
    }
    ghost var tokens := seq(|rows|, k requires 0 <= k < |rows| => rows[k].tokens.value);
    assert forall k :: 0 <= k < |rows| ==> rows[k] == rows0[k].(tokens := Some(tokens[k]));
    FitWithTokens(rows0, cols0, tokens, rows);
    df.rows := rows;
    df.columns := cols0 + {Tokens};
  }

  /** Rows that fit a frame fit it once each gets a `tokens` cell and the
      column is added. */
  lemma FitWithTokens(rows0: seq<Row>, cols: set<Column>, tokens: seq<seq<string>>, rows: seq<Row>)
    requires forall k :: 0 <= k < |rows0| ==> Fits(rows0[k], cols)
    requires |rows| == |rows0| == |tokens|
    requires forall k :: 0 <= k < |rows| ==> rows[k] == rows0[k].(tokens := Some(tokens[k]))
    ensures forall k :: 0 <= k < |rows| ==> Fits(rows[k], cols + {Tokens})
  {
    forall k | 0 <= k < |rows| ensures Fits(rows[k], cols + {Tokens}) {
      forall c ensures Has(rows[k], c) <==> c in cols + {Tokens} {
        assert Has(rows0[k], c) <==> c in cols;
      }
    }
  }

  /** Raises when the frame has no `log_message` column and then leaves the
      frame as it was; otherwise gives every row `cleaned_text` =
      clean_text(log_message) and `tokens` = tokenize_text(cleaned_text),
      keeping the row count and every other column. */
  method PreprocessBglLogs(df: DataFrame, stopWords: set<string>) returns (res: Outcome<SchemaError>)
    requires df.Valid()
    modifies df
    ensures df.Valid()
    ensures LogMessage !in old(df.columns) ==>
      && res == Fail(ValueError(MissingLogMessage))
      && df.columns == old(df.columns) && df.rows == old(df.rows)
    ensures LogMessage in old(df.columns) ==>
      && res == Pass
      && df.columns == old(df.columns) + {CleanedText, Tokens}
      && |df.rows| == |old(df.rows)|
      && forall i :: 0 <= i < |df.rows| ==>
        var before, after := old(df.rows[i]), df.rows[i];
        && after.alert == before.alert
        && after.logMessage == before.logMessage
        && after.labelValue == before.labelValue
        && after.cleanedText == Some(CleanText(before.logMessage.value))
        && after.tokens == Some(TokenizeText(after.cleanedText.value, stopWords))
  {
    if LogMessage !in df.columns {
      return Fail(ValueError(MissingLogMessage));
    }
    AddCleanedText(df);
    AddTokens(df, stopWords);
    res := Pass;
  }
}
