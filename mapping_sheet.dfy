/** Decoding one row of a subject's `yonalish.xlsx` mapping sheet: column 1 holds the
    faculty code, column 2 the faculty name, column 3 the education-type id. The
    checks run in the order the books refresh performs them, so a row fails on the
    first problem met. */
module MappingSheet {
  import opened Wrappers
  import opened JavaText

  /** A cell as the spreadsheet library reports it. A numeric cell carries the integral
      part of its value (what a cast to `int` keeps before range saturation); `Other`
      stands for boolean, error and formula cells. */
  datatype Cell = Numeric(whole: int) | Text(text: string) | Blank | Other

  /** A sheet row: the cells physically present, by column index (absent = `null`). */
  type SheetRow = map<nat, Cell>

  const CodeColumn: nat := 1
  const NameColumn: nat := 2
  const EducationTypeColumn: nat := 3

  /** Why a row adds nothing. */
  datatype SkipReason =
    | EducationTypeNotAnInteger   // `Integer.parseInt` threw inside the row's `try`
    | CodeNotNumeric              // the explicit `continue` (this is what drops the header row)
    | NoNameCell                  // no link is written, silently
    | NameNotText                 // `getStringCellValue` threw inside the row's `try`

  datatype DecodedRow =
    | Skip(reason: SkipReason)
    | Mapping(code: string, name: string, educationTypeId: int)

  /** The education-type id of a row: the numeric value cast to `int`, a string parsed
      with `Integer.parseInt` (`None` when that throws), or 1 for an absent, blank or
      other cell. */
  function EducationTypeId(cell: Option<Cell>): (r: Option<int>)
    ensures r.Some? ==> IsInt32(r.value)
    ensures cell.None? || cell.value.Blank? || cell.value.Other? ==> r == Some(1)
    ensures cell.Some? && cell.value.Text? ==> r == ParseInt(cell.value.text)
  {
    match cell
    case None => Some(1)
    case Some(Numeric(v)) => Some(ToInt32(v))
    case Some(Text(t)) => ParseInt(t)
    case Some(_) => Some(1)
  }

  /** `getStringCellValue`: the text of a string cell, `""` for a blank cell, and an
      exception (`None`) for any other kind. */
  function StringValue(c: Cell): (r: Option<string>)
    ensures r.Some? <==> c.Text? || c.Blank?
  {
    match c
    case Text(t) => Some(t)
    case Blank => Some("")
    case _ => None
  }

  function CellAt(row: SheetRow, column: nat): Option<Cell> {
    if column in row then Some(row[column]) else None
  }

  /** The faculty code, name and education-type id a row maps, or why it is skipped. */
  function DecodeRow(row: SheetRow): (r: DecodedRow)
    ensures r.Mapping? <==>
      && EducationTypeId(CellAt(row, EducationTypeColumn)).Some?
      && CellAt(row, CodeColumn).Some? && CellAt(row, CodeColumn).value.Numeric?
      && CellAt(row, NameColumn).Some? && StringValue(CellAt(row, NameColumn).value).Some?
    ensures r.Mapping? ==> IsInt32(r.educationTypeId)
  {
    var eduId := EducationTypeId(CellAt(row, EducationTypeColumn));
    if eduId.None? then Skip(EducationTypeNotAnInteger)
    else
      var code := CellAt(row, CodeColumn);
      if code.None? || !code.value.Numeric? then Skip(CodeNotNumeric)
      else
        var name := CellAt(row, NameColumn);
        if name.None? then Skip(NoNameCell)
        else
          var text := StringValue(name.value);
          if text.None? then Skip(NameNotText)
          else Mapping(IntToString(ToInt32(code.value.whole)), text.value, eduId.value)
  }

  /** The faculty code is the code cell's value, cast to `int`, written in decimal:
      reading it back gives that `int`. */
  lemma CodeIsDecimalInt(row: SheetRow)
    requires DecodeRow(row).Mapping?
    ensures CellAt(row, CodeColumn).Some? && CellAt(row, CodeColumn).value.Numeric?
    ensures ParseInt(DecodeRow(row).code) == Some(ToInt32(CellAt(row, CodeColumn).value.whole))
  {
    ParseIntRoundTrip(ToInt32(CellAt(row, CodeColumn).value.whole));
  }

  /** A header row, whose code column holds text, is skipped whatever else it holds. */
  lemma HeaderRowSkipped(row: SheetRow, title: string)
    requires CodeColumn in row && row[CodeColumn] == Text(title)
    ensures DecodeRow(row).Skip?
  {
  }

  /** A text education-type cell that is not an integer skips the row, even when the
      code and name cells are well formed. */
  lemma NonIntegerEducationTypeSkipsRow(row: SheetRow)
    requires EducationTypeColumn in row && row[EducationTypeColumn].Text?
    requires ParseInt(row[EducationTypeColumn].text).None?
    ensures DecodeRow(row) == Skip(EducationTypeNotAnInteger)
  {
  }

  /** Without a usable education-type cell the id defaults to 1. */
  lemma EducationTypeDefaultsToOne(row: SheetRow)
    requires DecodeRow(row).Mapping?
    requires EducationTypeColumn !in row || row[EducationTypeColumn].Blank? || row[EducationTypeColumn].Other?
    ensures DecodeRow(row).educationTypeId == 1
  {
  }

  /** A numeric education-type cell beyond the `int` range saturates, as the cast does. */
  lemma EducationTypeSaturates(row: SheetRow)
    requires DecodeRow(row).Mapping?
    requires EducationTypeColumn in row && row[EducationTypeColumn].Numeric?
    requires row[EducationTypeColumn].whole > MaxInt32
    ensures DecodeRow(row).educationTypeId == MaxInt32
  {
  }
}
