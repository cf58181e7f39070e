/**
 * The data preparation step of training (src/model/train_model.py,
 * `prepare_data`): every row gets a binary `label` derived from its alert
 * token, and the text to learn from is the `cleaned_text` column when the
 * frame has one and the lower-cased `log_message` column otherwise.
 */
module Train {
  import opened Wrappers
  import opened PyText
  import opened Table

  // ---------------------------------------------------------------------
  // The label rule

  /** 0 for a non-alert line, whose alert token is "-" once stripped, and 1
      for every other alert token. */
  function AlertLabel(alert: string): (b: int)
    ensures b == 0 || b == 1
  {
    if Strip(alert) == "-" then 0 else 1
  }

  /** The label is 0 exactly when the alert is a single '-' with nothing but
      whitespace around it. */
  lemma AlertLabelZero(alert: string)
    ensures AlertLabel(alert) == 0 <==>
      exists i :: 0 <= i < |alert| && alert[i] == '-' && AllSpace(alert[..i]) && AllSpace(alert[i + 1..])
  {
    if AlertLabel(alert) == 0 {
      var i := LabelZeroDash(alert);
    }
    if exists i :: 0 <= i < |alert| && alert[i] == '-' && AllSpace(alert[..i]) && AllSpace(alert[i + 1..]) {
      var i :| 0 <= i < |alert| && alert[i] == '-' && AllSpace(alert[..i]) && AllSpace(alert[i + 1..]);
      PaddedDashLabelZero(alert, i);
    }
  }

  /** A stripped alert of "-" is a '-' at some position `i` with whitespace
      around it. */
  lemma LabelZeroDash(alert: string) returns (i: nat)
    requires Strip(alert) == "-"
    ensures i < |alert| && alert[i] == '-' && AllSpace(alert[..i]) && AllSpace(alert[i + 1..])
  {
    i := StripSlice(alert);
    assert alert[i..i + 1] == "-";
  }

  /** A '-' with whitespace around it strips to "-". */
  lemma PaddedDashLabelZero(alert: string, i: nat)
    requires i < |alert| && alert[i] == '-' && AllSpace(alert[..i]) && AllSpace(alert[i + 1..])
    ensures Strip(alert) == "-"
  {
    assert alert == alert[..i] + "-" + alert[i + 1..];
    StripPadded(alert[..i], "-", alert[i + 1..]);
  }

  /** A padded "-" is a non-alert line; "APPSEV" is an alert. */
  lemma AlertLabelExamples()
    ensures AlertLabel(" - ") == 0
    ensures AlertLabel("-") == 0
    ensures AlertLabel("APPSEV") == 1
  {
    StripPadded(" ", "-", " ");
    assert " " + "-" + " " == " - ";
    StripTrimmed("APPSEV");
  }

  // ---------------------------------------------------------------------
  // prepare_data

  /** `df[key]` on a frame without the column `key`. */
  datatype KeyError = KeyError(key: string)

  /** The row with its `label` cell set from its `alert` cell. */
  function WithLabel(r: Row): Row
    requires r.alert.Some?
  {
    r.(labelValue := Some(AlertLabel(r.alert.value)))
  }

  /** A row that fits a frame fits it once the `label` column is added to
      both. */
  lemma FitsWithLabel(r: Row, cols: set<Column>)
    requires Fits(r, cols) && r.alert.Some?
    ensures Fits(WithLabel(r), cols + {Label})
  {
    forall c ensures Has(WithLabel(r), c) <==> c in cols + {Label} {
      assert Has(r, c) <==> c in cols;
    }
  }

  /** `df['label'] = df['alert'].apply(...)`: the labels are computed row by
      row and assigned to the frame as a new column; the labels are also
      returned, as the column `df['label']` that prepare_data hands back. */
  method AddLabels(df: DataFrame) returns (labels: seq<int>)
    requires df.Valid() && Alert in df.columns
    modifies df
    ensures df.Valid()
    ensures df.columns == old(df.columns) + {Label}
    ensures |df.rows| == |old(df.rows)| == |labels|
    ensures forall i :: 0 <= i < |df.rows| ==>
      && old(df.rows[i]).alert.Some?
      && df.rows[i] == WithLabel(old(df.rows[i]))
      && labels[i] == AlertLabel(old(df.rows[i]).alert.value)
  {
    var cols0, rows0 := df.columns, df.rows;
    var rows := [];
    labels := [];
    while |rows| < |rows0|
      invariant |rows| <= |rows0| && |labels| == |rows|
      invariant forall k :: 0 <= k < |rows| ==>
        && rows0[k].alert.Some?
        && rows[k] == WithLabel(rows0[k])
        && labels[k] == AlertLabel(rows0[k].alert.value)
      invariant forall k :: 0 <= k < |rows| ==> Fits(rows[k], cols0 + {Label})
    {
      var r := rows0[|rows|];
      assert Fits(r, cols0) && Has(r, Alert);
      FitsWithLabel(r, cols0);
      rows := rows + [WithLabel(r)];
      labels := labels + [AlertLabel(r.alert.value)];
    }
    df.rows := rows;
    df.columns := cols0 + {Label};
  }

  /** `df['cleaned_text']`: the cells of the column, in row order. */
  method CleanedColumn(rows: seq<Row>) returns (texts: seq<string>)
    requires forall i :: 0 <= i < |rows| ==> rows[i].cleanedText.Some?
    ensures |texts| == |rows|
    ensures forall i :: 0 <= i < |rows| ==> texts[i] == rows[i].cleanedText.value
  {
    texts := [];
    while |texts| < |rows|
      invariant |texts| <= |rows|
      invariant forall k :: 0 <= k < |texts| ==> texts[k] == rows[k].cleanedText.value
    {
      texts := texts + [rows[|texts|].cleanedText.value];
    }
  }

  /** `df['log_message'].str.lower()`: every message lower-cased, and
      otherwise untouched, in row order. */
  method LoweredMessages(rows: seq<Row>) returns (texts: seq<string>)
    requires forall i :: 0 <= i < |rows| ==> rows[i].logMessage.Some?
    ensures |texts| == |rows|
    ensures forall i :: 0 <= i < |rows| ==> texts[i] == Lower(rows[i].logMessage.value)
  {
    texts := [];
    while |texts| < |rows|
      invariant |texts| <= |rows|
      invariant forall k :: 0 <= k < |texts| ==> texts[k] == Lower(rows[k].logMessage.value)
    {
      texts := texts + [Lower(rows[|texts|].logMessage.value)];
    }
  }

  /** prepare_data: without an `alert` column it raises before touching the
      frame. Otherwise it adds the `label` column; then it returns the
      `cleaned_text` column unchanged when there is one, else the
      lower-cased `log_message` column, else it raises, keeping the added
      labels. The labels returned are the new column, one per row, in row
      order. */
  method PrepareData(df: DataFrame) returns (res: Result<(seq<string>, seq<int>), KeyError>)
    requires df.Valid()
    modifies df
    ensures df.Valid()
    ensures Alert !in old(df.columns) ==>
      && res == Err(KeyError("alert"))
      && df.columns == old(df.columns) && df.rows == old(df.rows)
    ensures Alert in old(df.columns) ==>
      && df.columns == old(df.columns) + {Label}
      && |df.rows| == |old(df.rows)|
      && (forall i :: 0 <= i < |df.rows| ==> df.rows[i] == WithLabel(old(df.rows[i])))
      && (CleanedText !in old(df.columns) && LogMessage !in old(df.columns) <==> res.Err?)
      && (res.Err? ==> res.error == KeyError("log_message"))
      && (res.Ok? ==>
        var (texts, labels) := res.value;
        && |texts| == |labels| == |df.rows|
        && forall i :: 0 <= i < |df.rows| ==>
          && labels[i] == df.rows[i].labelValue.value == AlertLabel(old(df.rows[i]).alert.value)
          && texts[i] == (if CleanedText in old(df.columns) then old(df.rows[i]).cleanedText.value
                          else Lower(old(df.rows[i]).logMessage.value)))
  {
    if Alert !in df.columns {
      return Err(KeyError("alert"));
    }
    ghost var rows0 := df.rows;
    var labels := AddLabels(df);
    var cols, rows := df.columns, df.rows;
    if CleanedText in cols {
      forall i | 0 <= i < |rows| ensures rows[i].cleanedText.Some? {
        assert Fits(rows[i], cols) && Has(rows[i], CleanedText);
      }
      var texts := CleanedColumn(rows);
      res := Ok((texts, labels));
    } else if LogMessage in cols {
      forall i | 0 <= i < |rows| ensures rows[i].logMessage.Some? {
        assert Fits(rows[i], cols) && Has(rows[i], LogMessage);
      }
      var texts := LoweredMessages(rows);
      res := Ok((texts, labels));
    } else {
      res := Err(KeyError("log_message"));
    }
  }
}
