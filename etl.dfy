/**
 * The per-line loop of `parse_bgl_log` (src/etl/etl_pipeline.py): every raw
 * line of a BGL log is stripped, blank lines are skipped, and the rest is
 * split once into an alert token and a log message. The file itself is not
 * modelled: the loop runs over the sequence of lines it would yield.
 */
module Etl {
  import opened Wrappers
  import opened PyText
  import opened Table

  /** One entry of `data`: the dictionary {'alert': ..., 'log_message': ...}. */
  datatype LogRecord = LogRecord(alert: string, logMessage: string)

  /** What the loop body makes of one line: nothing for a blank line,
      otherwise the first token and what follows the whitespace after it, or
      the empty message when the line is one token. */
  function ParseLine(line: string): Option<LogRecord>
  {
    var l := Strip(line);
    if l == [] then None
    else
      StripEnds(line);
      var tokens := SplitOnce(l);
      if |tokens| == 2 then Some(LogRecord(tokens[0], tokens[1]))
      else Some(LogRecord(tokens[0], ""))
  }

  /** The records of `lines`, in the order of their lines. */
  function ParseLines(lines: seq<string>): seq<LogRecord>
  {
    if lines == [] then []
    else
      (match ParseLine(lines[0])
       case None => []
       case Some(r) => [r])
      + ParseLines(lines[1..])
  }

  /** Parsing a concatenation of two runs of lines concatenates their records. */
  lemma {:induction false} ParseLinesAppend(a: seq<string>, b: seq<string>)
    ensures ParseLines(a + b) == ParseLines(a) + ParseLines(b)
  {
    if a == [] {
      assert a + b == b;
    } else {
      assert (a + b)[1..] == a[1..] + b;
      ParseLinesAppend(a[1..], b);
      var h := match ParseLine(a[0]) case None => [] case Some(r) => [r];
      calc {
        ParseLines(a + b);
        h + ParseLines(a[1..] + b);
        h + (ParseLines(a[1..]) + ParseLines(b));
        { SeqAssoc(h, ParseLines(a[1..]), ParseLines(b)); }
        h + ParseLines(a[1..]) + ParseLines(b);
      }
    }
  }

  /** The loop of parse_bgl_log over the lines of the file, appending one
      record per non-blank line to `data`. */
  method CollectRecords(lines: seq<string>) returns (data: seq<LogRecord>)
    ensures data == ParseLines(lines)
  {
    data := [];
    var i := 0;
    while i < |lines|
      invariant 0 <= i <= |lines|
      invariant data == ParseLines(lines[..i])
    {
      var line := Strip(lines[i]);
      StripEnds(lines[i]);
      if line == [] {
        ParseLinesSnoc(lines, i);
        i := i + 1;
        continue;
      }
      var tokens := SplitOnce(line);
      var alert: string, message: string;
      if |tokens| == 2 {
        alert, message := tokens[0], tokens[1];
      } else {
        alert, message := tokens[0], "";
      }
      ParseLinesSnoc(lines, i);
      data := data + [LogRecord(alert, message)];
      i := i + 1;
    }
    assert lines[..i] == lines;
  }

  /** Parsing one more line appends what that line parses to. */
  lemma ParseLinesSnoc(lines: seq<string>, i: nat)
    requires i < |lines|
    ensures ParseLines(lines[..i + 1]) ==
      ParseLines(lines[..i]) + (match ParseLine(lines[i]) case None => [] case Some(r) => [r])
  {
    assert lines[..i + 1] == lines[..i] + [lines[i]];
    ParseLinesAppend(lines[..i], [lines[i]]);
  }

  /** The table row of one record. */
  function RecordRow(r: LogRecord): Row
  {
    Row(Some(r.alert), Some(r.logMessage), None, None, None)
  }

  /** `pd.DataFrame(data)`: one row per record with the columns `alert` and
      `log_message`, and no columns at all when there is no record. */
  method ParseBglLog(lines: seq<string>) returns (df: DataFrame)
    ensures fresh(df) && df.Valid()
    ensures var records := ParseLines(lines);
      && df.columns == (if records == [] then {} else {Alert, LogMessage})
      && |df.rows| == |records|
      && forall k :: 0 <= k < |records| ==> df.rows[k] == RecordRow(records[k])
  {
    var data := CollectRecords(lines);
    var rows := seq(|data|, k requires 0 <= k < |data| => RecordRow(data[k]));
    if data == [] {
      df := new DataFrame({}, rows);
    } else {
      forall k | 0 <= k < |rows| ensures Fits(rows[k], {Alert, LogMessage}) {
        RecordRowFits(data[k]);
      }
      df := new DataFrame({Alert, LogMessage}, rows);
    }
  }

  /** The row of a record has exactly the cells `alert` and `log_message`. */
  lemma RecordRowFits(r: LogRecord)
    ensures Fits(RecordRow(r), {Alert, LogMessage})
  {
    forall c ensures Has(RecordRow(r), c) <==> c in {Alert, LogMessage} {
    }
  }

  // ---------------------------------------------------------------------
  // Properties of the parse

  /** A line gives no record exactly when it is blank. */
  lemma ParseLineBlank(line: string)
    ensures ParseLine(line).None? <==> AllSpace(line)
  {
    StripEmpty(line);
  }

  /** The alert of a record is a non-empty token without whitespace; the
      message has no whitespace at either end; and the stripped line is the
      alert, a whitespace run `gap` and the message, where the run and the
      message are empty exactly when the stripped line is a single token. */
  lemma ParseLineFields(line: string) returns (gap: string)
    requires ParseLine(line).Some?
    ensures var r, l := ParseLine(line).value, Strip(line);
      && r.alert != [] && NoSpace(r.alert)
      && Trimmed(r.logMessage)
      && AllSpace(gap) && l == r.alert + gap + r.logMessage
      && (gap == [] <==> r.logMessage == [])
      && (r.logMessage == [] <==> NoSpace(l))
  {
    var l := Strip(line);
    var r := ParseLine(line).value;
    StripEnds(line);
    gap := SplitOnceTrimmed(l);
    if r.logMessage == [] {
      assert l == r.alert + gap + r.logMessage by {
        assert r.alert + [] + [] == r.alert;
      }
    } else {
      assert !IsSpace(gap[0]) ==> false;
      assert l[|r.alert|] == gap[0];
    }
  }

  /** A line holding a single token gives that token as the alert and the
      empty message. */
  lemma ParseLineSingleToken(line: string)
    requires !AllSpace(line) && NoSpace(Strip(line))
    ensures ParseLine(line) == Some(LogRecord(Strip(line), ""))
  {
    ParseLineBlank(line);
    var r := ParseLine(line).value;
    var gap := ParseLineFields(line);
    assert r.alert + gap + r.logMessage == r.alert;
  }

  /** The lines that are not blank, in order. */
  function NonBlankLines(lines: seq<string>): seq<string>
  {
    if lines == [] then []
    else (if AllSpace(lines[0]) then [] else [lines[0]]) + NonBlankLines(lines[1..])
  }

  /** There is one record per non-blank line, in the order of the lines, and
      the k-th record is what the k-th non-blank line parses to. */
  lemma {:induction false} ParseLinesNonBlank(lines: seq<string>)
    ensures var records, kept := ParseLines(lines), NonBlankLines(lines);
      && |records| == |kept|
      && forall k :: 0 <= k < |kept| ==> ParseLine(kept[k]) == Some(records[k])
  {
    if lines != [] {
      ParseLinesNonBlank(lines[1..]);
      ParseLineBlank(lines[0]);
      var records, kept := ParseLines(lines), NonBlankLines(lines);
      var records', kept' := ParseLines(lines[1..]), NonBlankLines(lines[1..]);
      if !AllSpace(lines[0]) {
        assert records == [ParseLine(lines[0]).value] + records';
        assert kept == [lines[0]] + kept';
        MappedCons(ParseLine, lines[0], ParseLine(lines[0]).value, kept', records');
      } else {
        assert records == records' && kept == kept';
      }
    }
  }

  /** An item mapped by `f` to a result, put in front of items mapped one to
      one to results, keeps the items mapped one to one. */
  lemma MappedCons<A, B>(f: A -> Option<B>, x: A, y: B, xs: seq<A>, ys: seq<B>)
    requires f(x) == Some(y)
    requires |ys| == |xs|
    requires forall k :: 0 <= k < |xs| ==> f(xs[k]) == Some(ys[k])
    ensures forall k :: 0 <= k < |xs| + 1 ==> f(([x] + xs)[k]) == Some(([y] + ys)[k])
  {
    forall k | 0 <= k < |xs| + 1 ensures f(([x] + xs)[k]) == Some(([y] + ys)[k]) {
      if k > 0 {
        assert ([x] + xs)[k] == xs[k - 1] && ([y] + ys)[k] == ys[k - 1];
      }
    }
  }

  /** Every record the loop produces has a non-empty alert without whitespace
      and a message without whitespace at either end. */
  lemma ParseLinesFields(lines: seq<string>)
    ensures var records := ParseLines(lines);
      forall k :: 0 <= k < |records| ==>
        records[k].alert != [] && NoSpace(records[k].alert) && Trimmed(records[k].logMessage)
  {
    var records, kept := ParseLines(lines), NonBlankLines(lines);
    ParseLinesNonBlank(lines);
    forall k | 0 <= k < |records|
      ensures records[k].alert != [] && NoSpace(records[k].alert) && Trimmed(records[k].logMessage)
    {
      assert ParseLine(kept[k]) == Some(records[k]);
      var _ := ParseLineFields(kept[k]);
    }
  }
}
