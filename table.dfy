/**
 * A pandas DataFrame as the pipeline uses it: a set of named columns and a
 * sequence of rows. Every row holds a value exactly for the columns the
 * frame has; a column the frame lacks is `None` in every row.
 */
module Table {
  import opened Wrappers

  /** The columns the pipeline reads or writes. */
  datatype Column = Alert | LogMessage | CleanedText | Tokens | Label

  datatype Row = Row(
    alert: Option<string>,
    logMessage: Option<string>,
    cleanedText: Option<string>,
    tokens: Option<seq<string>>,
    labelValue: Option<int>)

  predicate Has(r: Row, c: Column)
  {
    match c
    case Alert => r.alert.Some?
    case LogMessage => r.logMessage.Some?
    case CleanedText => r.cleanedText.Some?
    case Tokens => r.tokens.Some?
    case Label => r.labelValue.Some?
  }

  /** The row has a value for exactly the columns in `cols`. */
  predicate Fits(r: Row, cols: set<Column>)
  {
    forall c :: Has(r, c) <==> c in cols
  }

  class DataFrame {
    var columns: set<Column>
    var rows: seq<Row>

    ghost predicate Valid()
      reads this
    {
      forall i :: 0 <= i < |rows| ==> Fits(rows[i], columns)
    }

    /** `pd.DataFrame(...)` from rows that already fit the given columns. */
    constructor (cols: set<Column>, rs: seq<Row>)
      requires forall i :: 0 <= i < |rs| ==> Fits(rs[i], cols)
      ensures Valid()
      ensures columns == cols && rows == rs
    {
      columns := cols;
      rows := rs;
    }
  }
}
