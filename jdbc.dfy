/** What the repositories see of JDBC and the SQLite driver: result rows of
    named values, reading a column by name or by position, and the
    `while (rs.next())` loop that appends one column of every row to a
    StringBuilder. */
module Jdbc {
  import opened JavaLang

  /** A value the engine returns in a result column. */
  datatype Value = Null | Integer(i: int) | Text(s: string)

  datatype Column = Column(name: string, value: Value)

  /** A result row; every SELECT yields at least one column. */
  type Row = r: seq<Column> | |r| > 0 witness [Column("", Null)]

  /** What `executeQuery` gives: the rows in the order `rs.next()` visits
      them, or the SQLException it throws. */
  datatype QueryOutcome = Rows(rows: seq<Row>) | Failed(message: string)

  /** Driver behaviour the model leaves open: the message of the exception
      `getString(name)`/`getInt(name)` throws for a name the row lacks,
      and the number `getInt` makes of a TEXT value. */
  datatype Driver = Driver(missingColumn: string -> string, textAsInt: string -> int)

  /** How a column is addressed: `rs.getString("username")` or `rs.getString(1)`. */
  datatype Reader = ByName(name: string) | ByPosition

  /** The first column of the row carrying the name. */
  function FindColumn(row: seq<Column>, name: string): (v: Option<Value>)
    ensures v.None? <==> forall i :: 0 <= i < |row| ==> row[i].name != name
    ensures v.Some? ==> exists i ::
      0 <= i < |row| && row[i].name == name && row[i].value == v.value && forall j :: 0 <= j < i ==> row[j].name != name
  {
    if row == [] then None
    else if row[0].name == name then Some(row[0].value)
    else FindColumn(row[1..], name)
  }

  function Cell(driver: Driver, row: Row, reader: Reader): Result<Value>
  {
    match reader
    case ByPosition => Ok(row[0].value)
    case ByName(name) =>
      match FindColumn(row, name)
      case None => Throws(SqlException(driver.missingColumn(name)))
      case Some(v) => Ok(v)
  }

  /** `ResultSet.getString`: NULL reads as a null String, an integer as its
      decimal text. */
  function GetString(driver: Driver, row: Row, reader: Reader): (r: Result<Option<string>>)
    ensures reader.ByPosition? ==> r.Ok?
    ensures r.Throws? ==> r.error.SqlException?
  {
    match Cell(driver, row, reader)
    case Throws(e) => Throws(e)
    case Ok(Null) => Ok(None)
    case Ok(Integer(i)) => Ok(Some(IntToString(i)))
    case Ok(Text(s)) => Ok(Some(s))
  }

  /** `ResultSet.getInt`: NULL reads as 0, and the number is cut to 32 bits. */
  function GetInt(driver: Driver, row: Row, reader: Reader): (r: Result<Int32>)
    ensures reader.ByPosition? ==> r.Ok?
    ensures r.Throws? ==> r.error.SqlException?
  {
    match Cell(driver, row, reader)
    case Throws(e) => Throws(e)
    case Ok(Null) => Ok(0)
    case Ok(Integer(i)) => Ok(ToInt32(i))
    case Ok(Text(s)) => Ok(ToInt32(driver.textAsInt(s)))
  }

  /** The texts the loop appends, one per row in order (a null String appends
      as "null"), or the exception of the first row whose column cannot be read. */
  function ColumnTexts(driver: Driver, rows: seq<Row>, reader: Reader): (r: Result<seq<string>>)
    ensures r.Ok? ==> |r.value| == |rows|
    ensures r.Ok? ==> forall i :: 0 <= i < |rows| ==> GetString(driver, rows[i], reader).Ok?
    ensures r.Throws? ==> r.error.SqlException?
    decreases |rows|
  {
    if rows == [] then Ok([])
    else
      var init := rows[..|rows| - 1];
      match ColumnTexts(driver, init, reader)
      case Throws(e) => Throws(e)
      case Ok(texts) =>
        match GetString(driver, rows[|rows| - 1], reader)
        case Throws(e) => Throws(e)
        case Ok(s) =>
          assert forall i :: 0 <= i < |init| ==> rows[i] == init[i];
          Ok(texts + [JavaText(s)])
  }

  /** Each appended text is the text of that row's column. */
  lemma {:induction false} ColumnTextsAt(driver: Driver, rows: seq<Row>, reader: Reader, i: nat)
    requires ColumnTexts(driver, rows, reader).Ok? && i < |rows|
    ensures ColumnTexts(driver, rows, reader).value[i] == JavaText(GetString(driver, rows[i], reader).value)
    decreases |rows|
  {
    var init := rows[..|rows| - 1];
    if i < |rows| - 1 {
      ColumnTextsAt(driver, init, reader, i);
    }
  }

  /** The texts can be read exactly when every row's column can be read, and a
      failure is the exception of the first row that fails. */
  lemma {:induction false} ColumnTextsFails(driver: Driver, rows: seq<Row>, reader: Reader)
    ensures ColumnTexts(driver, rows, reader).Throws? <==>
      exists i :: 0 <= i < |rows| && GetString(driver, rows[i], reader).Throws?
    ensures ColumnTexts(driver, rows, reader).Throws? ==>
      exists i :: 0 <= i < |rows| && GetString(driver, rows[i], reader) == Throws(ColumnTexts(driver, rows, reader).error) &&
        forall j :: 0 <= j < i ==> GetString(driver, rows[j], reader).Ok?
    decreases |rows|
  {
    if rows != [] {
      var init := rows[..|rows| - 1];
      ColumnTextsFails(driver, init, reader);
      assert forall i :: 0 <= i < |init| ==> rows[i] == init[i];
    }
  }

  /** The builder's text after the loop, or the exception that ended it. */
  function Collected(driver: Driver, rows: seq<Row>, reader: Reader): (r: Result<string>)
    ensures r.Ok? <==> ColumnTexts(driver, rows, reader).Ok?
    ensures r.Throws? ==> r.error.SqlException?
  {
    match ColumnTexts(driver, rows, reader)
    case Throws(e) => Throws(e)
    case Ok(texts) => Ok(Accumulate(texts))
  }

  lemma {:induction false} ColumnTextsPrefixFails(driver: Driver, rows: seq<Row>, reader: Reader, k: nat)
    requires k <= |rows| && ColumnTexts(driver, rows[..k], reader).Throws?
    ensures ColumnTexts(driver, rows, reader) == ColumnTexts(driver, rows[..k], reader)
    decreases |rows| - k
  {
    if k < |rows| {
      var init := rows[..|rows| - 1];
      assert init[..k] == rows[..k];
      ColumnTextsPrefixFails(driver, init, reader, k);
    } else {
      assert rows[..k] == rows;
    }
  }

  /** One more row: its text is appended, or its read error ends the texts. */
  lemma ColumnTextsStep(driver: Driver, rows: seq<Row>, reader: Reader, i: nat)
    requires i < |rows| && ColumnTexts(driver, rows[..i], reader).Ok?
    ensures GetString(driver, rows[i], reader).Throws? ==>
      ColumnTexts(driver, rows[..i + 1], reader) == Throws(GetString(driver, rows[i], reader).error)
    ensures GetString(driver, rows[i], reader).Ok? ==>
      ColumnTexts(driver, rows[..i + 1], reader) ==
        Ok(ColumnTexts(driver, rows[..i], reader).value + [JavaText(GetString(driver, rows[i], reader).value)])
  {
    assert rows[..i + 1][..i] == rows[..i];
    assert rows[..i + 1][i] == rows[i];
  }

  /** The `while (rs.next())` loop shared by the three joining lookups. */
  method AppendAll(driver: Driver, rows: seq<Row>, reader: Reader) returns (r: Result<string>)
    ensures r == Collected(driver, rows, reader)
  {
    var sb := "";
    var i := 0;
    while i < |rows|
      invariant 0 <= i <= |rows|
      invariant ColumnTexts(driver, rows[..i], reader).Ok?
      invariant sb == Accumulate(ColumnTexts(driver, rows[..i], reader).value)
    {
      ColumnTextsStep(driver, rows, reader, i);
      var value := GetString(driver, rows[i], reader);
      if value.Throws? {
        ColumnTextsPrefixFails(driver, rows, reader, i + 1);
        return Throws(value.error);
      }
      AccumulateSnoc(ColumnTexts(driver, rows[..i], reader).value, JavaText(value.value));
      if |sb| > 0 {
        sb := sb + Separator;
      }
      sb := sb + JavaText(value.value);
      i := i + 1;
    }
    assert rows[..i] == rows;
    return Ok(sb);
  }

  /** Reading a column by position never fails. */
  lemma CollectedByPositionSucceeds(driver: Driver, rows: seq<Row>)
    ensures Collected(driver, rows, ByPosition).Ok?
  {
    ColumnTextsFails(driver, rows, ByPosition);
  }

  /** The loop's text is the ", "-join of the column texts from the first
      non-empty one on. */
  lemma CollectedIsJoin(driver: Driver, rows: seq<Row>, reader: Reader)
    requires ColumnTexts(driver, rows, reader).Ok?
    ensures Collected(driver, rows, reader) == Ok(Join(DropLeadingEmpty(ColumnTexts(driver, rows, reader).value)))
  {
    AccumulateIsJoin(ColumnTexts(driver, rows, reader).value);
  }

  /** The loop's text is empty exactly when every row's column holds the
      empty string (a NULL appends "null"). */
  lemma CollectedEmptyIff(driver: Driver, rows: seq<Row>, reader: Reader)
    requires ColumnTexts(driver, rows, reader).Ok?
    ensures Collected(driver, rows, reader) == Ok("") <==>
      forall i :: 0 <= i < |rows| ==> GetString(driver, rows[i], reader) == Ok(Some(""))
  {
    var texts := ColumnTexts(driver, rows, reader).value;
    AccumulateEmptyIff(texts);
    assert Collected(driver, rows, reader) == Ok("") <==> AllEmpty(texts);
    forall i | 0 <= i < |rows|
      ensures texts[i] == "" <==> GetString(driver, rows[i], reader) == Ok(Some(""))
    {
      ColumnTextsAt(driver, rows, reader, i);
    }
  }
}
