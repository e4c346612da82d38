/**
  `sheetToJsonFromName` (src/server/sheets.ts:1-111): reads one sheet of the
  active spreadsheet and turns every row below the header row into an
  object keyed by the camel-cased, deduplicated headers.

  The spreadsheet is a value handed in (`None` when there is no active
  spreadsheet); `Utilities.formatDate`, `Date.prototype.toISOString` and
  `String(date)` are functions handed in as a `Platform`. An object is a
  map from keys to values, so the order of its keys is not modelled.
 */
module SheetRows {
  import opened Options
  import opened JsString
  import opened CamelCase
  import opened HeaderDedup

  /** A value `getValues` can hand back. A date is its time in milliseconds; numbers and booleans are `Other`, shown as `String` shows them. */
  datatype Cell = Null | Undefined | Text(s: string) | Date(millis: int) | Other(shown: string)

  /** What the row object stores under a key. */
  datatype Value = VNull | VText(s: string) | VCell(c: Cell)

  datatype Sheet = Sheet(values: seq<seq<Cell>>, displayValues: seq<seq<string>>)

  datatype Spreadsheet = Spreadsheet(timeZone: string, sheets: map<string, Sheet>)

  /** The `options` argument; a missing field is `false` or `None`, and a missing `options` is all of them missing. */
  datatype ReadOptions = ReadOptions(useDisplayValues: bool, dateFormat: Option<string>, timezone: Option<string>, emptyAsNull: bool)

  /** The calls into the Apps Script and `Date` runtime. */
  datatype Platform = Platform(formatDate: (int, string, string) -> string, toIso: int -> string, dateString: int -> string)

  datatype ReadError = NoActiveSpreadsheet | EmptyHeaderRow

  /** What a call does: the objects it returns, or the error it throws. */
  datatype Outcome = Rows(objs: seq<map<string, Value>>) | Thrown(error: ReadError)

  /** What the row loop needs besides the row. */
  datatype RowContext = RowContext(headers: seq<string>, opts: ReadOptions, tz: string, platform: Platform)

  // ---- Cells ----

  /** `String(cell)`. */
  function Show(c: Cell, p: Platform): string {
    match c
    case Null => "null"
    case Undefined => "undefined"
    case Text(s) => s
    case Date(m) => p.dateString(m)
    case Other(shown) => shown
  }

  /** `cell === '' || cell === null || cell === undefined`. */
  predicate IsEmptyCell(c: Cell) {
    c == Null || c == Undefined || c == Text("")
  }

  /** `row[c]`: `undefined` past the end of the row. */
  function CellAt(row: seq<Cell>, c: nat): (r: Cell)
    ensures c >= |row| ==> r == Undefined
    ensures c < |row| ==> r == row[c]
  {
    if c < |row| then row[c] else Undefined
  }

  /** `row.some(cell => cell !== '' && cell !== null && cell !== undefined)`. */
  predicate RowHasAny(row: seq<Cell>) {
    exists i :: 0 <= i < |row| && !IsEmptyCell(row[i])
  }

  /** A truthy option string: present and not empty. */
  predicate Truthy(o: Option<string>) {
    o.Some? && o.value != ""
  }

  /** `options?.timezone || ss.getSpreadsheetTimeZone()`. */
  function TimeZone(opts: ReadOptions, ss: Spreadsheet): string {
    if Truthy(opts.timezone) then opts.timezone.value else ss.timeZone
  }

  /** The value stored for one cell under a non-empty key. */
  function ConvertCell(cell: Cell, ctx: RowContext): Value {
    if IsEmptyCell(cell) then
      if ctx.opts.emptyAsNull then VNull else VText("")
    else if ctx.opts.useDisplayValues then
      VText(Trim(Show(cell, ctx.platform)))
    else
      match cell
      case Date(m) =>
        if Truthy(ctx.opts.dateFormat) then VText(ctx.platform.formatDate(m, ctx.tz, ctx.opts.dateFormat.value))
        else VText(ctx.platform.toIso(m))
      case _ => VCell(cell)
  }

  /** `v === undefined || v === '' || v === null`. */
  predicate Blank(v: Value) {
    match v
    case VNull => true
    case VText(s) => s == ""
    case VCell(c) => IsEmptyCell(c)
  }

  // ---- Rows ----

  /** The object after the column loop has looked at the first `n` columns; a later column with the same key overwrites. */
  function RowObjectUpTo(row: seq<Cell>, ctx: RowContext, n: nat): map<string, Value>
    requires n <= |ctx.headers|
  {
    if n == 0 then map[]
    else
      var obj := RowObjectUpTo(row, ctx, n - 1);
      var key := ctx.headers[n - 1];
      if key == "" then obj else obj[key := ConvertCell(CellAt(row, n - 1), ctx)]
  }

  function RowObject(row: seq<Cell>, ctx: RowContext): map<string, Value> {
    RowObjectUpTo(row, ctx, |ctx.headers|)
  }

  /** `Object.keys(obj).some(k => …)`: some key holds a value that is not blank. */
  predicate HasValue(obj: map<string, Value>) {
    exists k :: k in obj && !Blank(obj[k])
  }

  /** A row becomes an object when it has a non-empty cell and its object has a non-blank value. */
  predicate Kept(row: seq<Cell>, ctx: RowContext) {
    RowHasAny(row) && HasValue(RowObject(row, ctx))
  }

  /** The objects the row loop pushes for `rows`, in order. */
  function Emitted(rows: seq<seq<Cell>>, ctx: RowContext): seq<map<string, Value>> {
    if rows == [] then []
    else
      var last := rows[|rows| - 1];
      Emitted(rows[..|rows| - 1], ctx) + (if Kept(last, ctx) then [RowObject(last, ctx)] else [])
  }

  // ---- The whole call ----

  /** `getDisplayValues()` as cells: every display value is a string. */
  function AsCells(rows: seq<seq<string>>): (r: seq<seq<Cell>>)
    ensures |r| == |rows|
  {
    seq(|rows|, i requires 0 <= i < |rows| => seq(|rows[i]|, j requires 0 <= j < |rows[i]| => Text(rows[i][j])))
  }

  function SheetValues(sheet: Sheet, opts: ReadOptions): seq<seq<Cell>> {
    if opts.useDisplayValues then AsCells(sheet.displayValues) else sheet.values
  }

  /** `values[0].map(h => h == null ? '' : String(h).trim())`. */
  function RawHeaders(row0: seq<Cell>, p: Platform): seq<string> {
    seq(|row0|, i requires 0 <= i < |row0| => if row0[i] == Null || row0[i] == Undefined then "" else Trim(Show(row0[i], p)))
  }

  /** `rawHeaders.every(h => h.trim() === '')`: also true of an empty header row. */
  predicate AllBlank(raw: seq<string>) {
    forall i :: 0 <= i < |raw| ==> Trim(raw[i]) == ""
  }

  /** `rawHeaders.map(h => toCamelCase(String(h ?? '').trim()))`. */
  function CamelHeaders(raw: seq<string>): (r: seq<string>)
    ensures |r| == |raw|
  {
    seq(|raw|, i requires 0 <= i < |raw| => ToCamelCase(Trim(raw[i])))
  }

  /** The keys the objects use, one per column of the header row. */
  function HeaderKeys(row0: seq<Cell>, p: Platform): seq<string> {
    Deduped(CamelHeaders(RawHeaders(row0, p)))
  }

  /** The result of `sheetToJsonFromName(name, opts)`. */
  function SheetToJson(active: Option<Spreadsheet>, name: string, opts: ReadOptions, p: Platform): Outcome {
    if active.None? then Thrown(NoActiveSpreadsheet)
    else if name !in active.value.sheets then Rows([])
    else
      var values := SheetValues(active.value.sheets[name], opts);
      if |values| == 0 then Rows([])
      else if AllBlank(RawHeaders(values[0], p)) then Thrown(EmptyHeaderRow)
      else
        var ctx := RowContext(HeaderKeys(values[0], p), opts, TimeZone(opts, active.value), p);
        Rows(Emitted(values[1..], ctx))
  }

  /** `sheetToJsonFromName`, with its row loop and column loop. */
  method ReadSheet(active: Option<Spreadsheet>, name: string, opts: ReadOptions, p: Platform) returns (out: Outcome)
    ensures out == SheetToJson(active, name, opts, p)
  {
    if active.None? {
      return Thrown(NoActiveSpreadsheet);
    }
    var ss := active.value;
    if name !in ss.sheets {
      return Rows([]);
    }
    var values := SheetValues(ss.sheets[name], opts);
    if |values| == 0 {
      return Rows([]);
    }
    var raw := RawHeaders(values[0], p);
    if AllBlank(raw) {
      return Thrown(EmptyHeaderRow);
    }
    var headers := DedupHeaders(CamelHeaders(raw));
    var ctx := RowContext(headers, opts, TimeZone(opts, ss), p);
    var result := EmitRows(values, ctx);
    return Rows(result);
  }

  /** The row loop: every row below the header row, in order. */
  method EmitRows(values: seq<seq<Cell>>, ctx: RowContext) returns (result: seq<map<string, Value>>)
    requires |values| > 0
    ensures result == Emitted(values[1..], ctx)
  {
    result := [];
    for r := 1 to |values|
      invariant result == Emitted(values[1..r], ctx)
    {
      assert values[1..r + 1][..r - 1] == values[1..r];
      var row := values[r];
      if RowHasAny(row) {
        var obj := BuildObject(row, ctx);
        if HasValue(obj) {
          result := result + [obj];
        }
      }
    }
    assert values[1..] == values[1..|values|];
  }

  /** The column loop: one entry per column with a non-empty key. */
  method BuildObject(row: seq<Cell>, ctx: RowContext) returns (obj: map<string, Value>)
    ensures obj == RowObject(row, ctx)
  {
    obj := map[];
    for c := 0 to |ctx.headers|
      invariant obj == RowObjectUpTo(row, ctx, c)
    {
      var key := ctx.headers[c];
      if key != "" {
        obj := obj[key := ConvertCell(CellAt(row, c), ctx)];
      }
    }
  }

  // ---- Properties ----

  /** Non-empty keys are pairwise distinct. */
  predicate DistinctKeys(headers: seq<string>) {
    forall i, j :: 0 <= i < j < |headers| && headers[i] != "" ==> headers[i] != headers[j]
  }

  /** The keys of the header row never repeat. */
  lemma HeaderKeysDistinct(row0: seq<Cell>, p: Platform)
    ensures |HeaderKeys(row0, p)| == |row0|
    ensures DistinctKeys(HeaderKeys(row0, p))
  {
    var raw := RawHeaders(row0, p);
    var camel := CamelHeaders(raw);
    assert forall i :: 0 <= i < |raw| ==> camel[i] == ToCamelCase(Trim(raw[i]));
    var trimmed := seq(|raw|, i requires 0 <= i < |raw| => Trim(raw[i]));
    CamelHeadersShaped(trimmed, camel);
    DedupedDistinct(camel);
  }

  /** An object's keys are exactly the non-empty keys of the columns looked at. */
  lemma {:induction false} RowObjectKeys(row: seq<Cell>, ctx: RowContext, n: nat)
    requires n <= |ctx.headers|
    ensures forall k :: k in RowObjectUpTo(row, ctx, n) <==> k != "" && k in ctx.headers[..n]
  {
    if n > 0 {
      RowObjectKeys(row, ctx, n - 1);
      assert ctx.headers[..n] == ctx.headers[..n - 1] + [ctx.headers[n - 1]];
    }
  }

  /** With distinct keys nothing is overwritten: each key holds its own column's cell. */
  lemma {:induction false} RowObjectValue(row: seq<Cell>, ctx: RowContext, n: nat, c: nat)
    requires n <= |ctx.headers| && DistinctKeys(ctx.headers)
    requires c < n && ctx.headers[c] != ""
    ensures ctx.headers[c] in RowObjectUpTo(row, ctx, n)
    ensures RowObjectUpTo(row, ctx, n)[ctx.headers[c]] == ConvertCell(CellAt(row, c), ctx)
  {
    if c < n - 1 {
      RowObjectValue(row, ctx, n - 1, c);
    }
  }

  /** An empty cell is stored as `null` under `emptyAsNull` and as `''` otherwise; a non-empty one never as either. */
  lemma EmptyCellPolicy(cell: Cell, ctx: RowContext)
    ensures IsEmptyCell(cell) && ctx.opts.emptyAsNull ==> ConvertCell(cell, ctx) == VNull
    ensures IsEmptyCell(cell) && !ctx.opts.emptyAsNull ==> ConvertCell(cell, ctx) == VText("")
    ensures !IsEmptyCell(cell) ==> ConvertCell(cell, ctx) != VNull
    ensures !IsEmptyCell(cell) && !ctx.opts.useDisplayValues && !cell.Date? ==> ConvertCell(cell, ctx) == VCell(cell)
  {
  }

  /** A blank value comes only from an empty cell, or from text that is blank once shown and trimmed or formatted. */
  lemma BlankFromCell(cell: Cell, ctx: RowContext)
    ensures Blank(ConvertCell(cell, ctx)) ==> IsEmptyCell(cell) || ConvertCell(cell, ctx) == VText("")
  {
  }

  /**
    A row is turned into an object exactly when some column with a key
    holds a value that is not blank: cells past the last key, under an
    empty key, or blank once trimmed do not count.
   */
  lemma KeptMeaning(row: seq<Cell>, ctx: RowContext)
    requires DistinctKeys(ctx.headers)
    ensures Kept(row, ctx) <==>
      exists c :: 0 <= c < |ctx.headers| && ctx.headers[c] != "" && !Blank(ConvertCell(CellAt(row, c), ctx))
  {
    var obj := RowObject(row, ctx);
    RowObjectKeys(row, ctx, |ctx.headers|);
    assert ctx.headers[..|ctx.headers|] == ctx.headers;
    if Kept(row, ctx) {
      var k :| k in obj && !Blank(obj[k]);
      var c :| 0 <= c < |ctx.headers| && ctx.headers[c] == k;
      RowObjectValue(row, ctx, |ctx.headers|, c);
    }
    if c :| 0 <= c < |ctx.headers| && ctx.headers[c] != "" && !Blank(ConvertCell(CellAt(row, c), ctx)) {
      RowObjectValue(row, ctx, |ctx.headers|, c);
      assert !IsEmptyCell(CellAt(row, c));
      assert !IsEmptyCell(row[c]);
      assert obj[ctx.headers[c]] == ConvertCell(CellAt(row, c), ctx);
    }
  }

  /** The emitted objects are exactly the objects of the kept rows. */
  lemma {:induction false} EmittedMembers(rows: seq<seq<Cell>>, ctx: RowContext)
    ensures |Emitted(rows, ctx)| <= |rows|
    ensures forall o :: o in Emitted(rows, ctx) <==> exists i :: 0 <= i < |rows| && Kept(rows[i], ctx) && o == RowObject(rows[i], ctx)
  {
    if rows != [] {
      var init := rows[..|rows| - 1];
      EmittedMembers(init, ctx);
      assert forall i :: 0 <= i < |init| ==> init[i] == rows[i];
    }
  }

  /** Every emitted object holds at least one value that is not `''`, `null` or `undefined`. */
  lemma EmittedHaveValue(rows: seq<seq<Cell>>, ctx: RowContext)
    ensures forall o :: o in Emitted(rows, ctx) ==> HasValue(o)
  {
    EmittedMembers(rows, ctx);
  }

  /** Rows with no non-empty cell produce nothing. */
  lemma {:induction false} EmptyRowsSkipped(rows: seq<seq<Cell>>, ctx: RowContext)
    requires forall i :: 0 <= i < |rows| ==> !RowHasAny(rows[i])
    ensures Emitted(rows, ctx) == []
  {
    if rows != [] {
      EmptyRowsSkipped(rows[..|rows| - 1], ctx);
    }
  }

  /**
    The error cases and the early returns: no active spreadsheet and a
    header row without a non-blank header throw; no such sheet and a sheet
    without rows give no objects.
   */
  lemma SheetToJsonErrors(active: Option<Spreadsheet>, name: string, opts: ReadOptions, p: Platform)
    ensures SheetToJson(active, name, opts, p) == Thrown(NoActiveSpreadsheet) <==> active.None?
    ensures active.Some? && name !in active.value.sheets ==> SheetToJson(active, name, opts, p) == Rows([])
    ensures active.Some? && name in active.value.sheets && SheetValues(active.value.sheets[name], opts) == [] ==>
      SheetToJson(active, name, opts, p) == Rows([])
    ensures SheetToJson(active, name, opts, p) == Thrown(EmptyHeaderRow) <==>
      && active.Some? && name in active.value.sheets
      && var values := SheetValues(active.value.sheets[name], opts);
         |values| > 0 && AllBlank(RawHeaders(values[0], p))
  {
  }

  /** `o` is the object of `row`: its keys are the non-empty keys, each holding its own column's cell. */
  ghost predicate ObjectOfRow(o: map<string, Value>, row: seq<Cell>, ctx: RowContext) {
    && (forall k :: k in o <==> k != "" && k in ctx.headers)
    && forall c :: 0 <= c < |ctx.headers| && ctx.headers[c] != "" ==>
         ctx.headers[c] in o && o[ctx.headers[c]] == ConvertCell(CellAt(row, c), ctx)
  }

  /** With distinct keys, the object of a row holds each column's cell under that column's key. */
  lemma RowObjectMeaning(row: seq<Cell>, ctx: RowContext)
    requires DistinctKeys(ctx.headers)
    ensures ObjectOfRow(RowObject(row, ctx), row, ctx)
  {
    RowObjectKeys(row, ctx, |ctx.headers|);
    assert ctx.headers[..|ctx.headers|] == ctx.headers;
    forall c | 0 <= c < |ctx.headers| && ctx.headers[c] != ""
      ensures RowObject(row, ctx)[ctx.headers[c]] == ConvertCell(CellAt(row, c), ctx)
    {
      RowObjectValue(row, ctx, |ctx.headers|, c);
    }
  }

  /**
    What a successful read returns: the objects of the kept rows below the
    header row, each with a non-blank value, keyed by exactly the non-empty
    header keys, each key holding its own column's cell.
   */
  lemma SheetToJsonObjects(ss: Spreadsheet, name: string, opts: ReadOptions, p: Platform, values: seq<seq<Cell>>, ctx: RowContext)
    requires name in ss.sheets && values == SheetValues(ss.sheets[name], opts)
    requires |values| > 0 && !AllBlank(RawHeaders(values[0], p))
    requires ctx == RowContext(HeaderKeys(values[0], p), opts, TimeZone(opts, ss), p)
    ensures SheetToJson(Some(ss), name, opts, p).Rows?
    ensures forall o :: o in SheetToJson(Some(ss), name, opts, p).objs <==>
      exists r :: 1 <= r < |values| && Kept(values[r], ctx) && o == RowObject(values[r], ctx)
    ensures forall o :: o in SheetToJson(Some(ss), name, opts, p).objs ==>
      HasValue(o) && exists r :: 1 <= r < |values| && ObjectOfRow(o, values[r], ctx)
  {
    SheetToJsonRows(ss, name, opts, p, values, ctx);
    RowsBelowHeader(values, ctx);
  }

  /** The objects emitted for the rows below the header row, by row index. */
  lemma RowsBelowHeader(values: seq<seq<Cell>>, ctx: RowContext)
    requires |values| > 0 && DistinctKeys(ctx.headers)
    ensures forall o :: o in Emitted(values[1..], ctx) <==>
      exists r :: 1 <= r < |values| && Kept(values[r], ctx) && o == RowObject(values[r], ctx)
    ensures forall o :: o in Emitted(values[1..], ctx) ==>
      HasValue(o) && exists r :: 1 <= r < |values| && ObjectOfRow(o, values[r], ctx)
  {
    var rows := values[1..];
    EmittedMembers(rows, ctx);
    EmittedObjects(rows, ctx);
    forall o | o in Emitted(rows, ctx)
      ensures exists r :: 1 <= r < |values| && Kept(values[r], ctx) && o == RowObject(values[r], ctx)
      ensures exists r :: 1 <= r < |values| && ObjectOfRow(o, values[r], ctx)
    {
      var i :| 0 <= i < |rows| && Kept(rows[i], ctx) && o == RowObject(rows[i], ctx);
      assert rows[i] == values[i + 1];
      var j :| 0 <= j < |rows| && ObjectOfRow(o, rows[j], ctx);
      assert rows[j] == values[j + 1];
    }
    forall r | 1 <= r < |values| && Kept(values[r], ctx)
      ensures RowObject(values[r], ctx) in Emitted(rows, ctx)
    {
      assert rows[r - 1] == values[r];
    }
  }

  /** A successful read maps the rows below the header row, with distinct keys. */
  lemma SheetToJsonRows(ss: Spreadsheet, name: string, opts: ReadOptions, p: Platform, values: seq<seq<Cell>>, ctx: RowContext)
    requires name in ss.sheets && values == SheetValues(ss.sheets[name], opts)
    requires |values| > 0 && !AllBlank(RawHeaders(values[0], p))
    requires ctx == RowContext(HeaderKeys(values[0], p), opts, TimeZone(opts, ss), p)
    ensures SheetToJson(Some(ss), name, opts, p) == Rows(Emitted(values[1..], ctx))
    ensures DistinctKeys(ctx.headers)
  {
    HeaderKeysDistinct(values[0], p);
  }

  /** With distinct keys every emitted object is the object of one of the rows. */
  lemma EmittedObjects(rows: seq<seq<Cell>>, ctx: RowContext)
    requires DistinctKeys(ctx.headers)
    ensures forall o :: o in Emitted(rows, ctx) ==> HasValue(o) && exists i :: 0 <= i < |rows| && ObjectOfRow(o, rows[i], ctx)
  {
    EmittedMembers(rows, ctx);
    forall o | o in Emitted(rows, ctx)
      ensures exists i :: 0 <= i < |rows| && ObjectOfRow(o, rows[i], ctx)
    {
      var i :| 0 <= i < |rows| && Kept(rows[i], ctx) && o == RowObject(rows[i], ctx);
      RowObjectMeaning(rows[i], ctx);
    }
  }

  /** In display mode a row of blank or whitespace-only strings is skipped, although `rowHasAny` holds for it. */
  lemma WhitespaceDisplayRowSkipped(row: seq<string>, ctx: RowContext)
    requires ctx.opts.useDisplayValues && DistinctKeys(ctx.headers)
    requires forall j :: 0 <= j < |row| ==> Trim(row[j]) == ""
    ensures !Kept(seq(|row|, j requires 0 <= j < |row| => Text(row[j])), ctx)
  {
    var cells := seq(|row|, j requires 0 <= j < |row| => Text(row[j]));
    KeptMeaning(cells, ctx);
    forall c | 0 <= c < |ctx.headers| ensures Blank(ConvertCell(CellAt(cells, c), ctx)) {
      if c < |cells| {
        assert cells[c] == Text(row[c]);
      }
    }
  }
}
