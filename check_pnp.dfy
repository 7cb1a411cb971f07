/**
 * The fabrication-file checker: it reads the pick-and-place lines (.pos) and
 * the bill-of-materials rows (.csv), reconciles the two by reference
 * designator, and exits with the number of issues it found.
 */
module CheckPnp {
  import opened Wrappers
  import opened Text

  // ---------------------------------------------------------------------
  // Dictionaries

  /** A Python dict with string keys: its keys in insertion order, and its entries. */
  datatype Dict<V> = Dict(keys: seq<string>, entries: map<string, V>)

  /** No element occurs twice: each one is absent from those before it. */
  predicate Distinct(s: seq<string>)
    decreases |s|
  {
    s == [] || (Distinct(s[..|s| - 1]) && s[|s| - 1] !in s[..|s| - 1])
  }

  /** Every key is listed once, and the listed keys are exactly the keys with an entry. */
  ghost predicate Consistent<V>(d: Dict<V>) {
    && Distinct(d.keys)
    && (forall k :: k in d.entries <==> k in d.keys)
  }

  function Empty<V>(): Dict<V> {
    Dict([], map[])
  }

  /** `d[k] = v`: a new key goes last; a present key keeps its place and takes the new value. */
  function Put<V>(d: Dict<V>, k: string, v: V): (r: Dict<V>)
    ensures Consistent(d) ==> Consistent(r)
    ensures |d.keys| <= |r.keys| && r.keys[..|d.keys|] == d.keys
  {
    if k in d.entries then d.(entries := d.entries[k := v])
    else
      assert (d.keys + [k])[..|d.keys|] == d.keys;
      Dict(d.keys + [k], d.entries[k := v])
  }

  /** `for k in keys: d[k] = v`. */
  function PutAll<V>(d: Dict<V>, keys: seq<string>, v: V): (r: Dict<V>)
    ensures Consistent(d) ==> Consistent(r)
    ensures forall k :: k in r.entries <==> k in d.entries || k in keys
    ensures forall k :: k in keys ==> k in r.entries && r.entries[k] == v
    ensures forall k :: k in d.entries && k !in keys ==> r.entries[k] == d.entries[k]
    decreases |keys|
  {
    if keys == [] then d
    else
      var n := |keys| - 1;
      assert keys == keys[..n] + [keys[n]];
      Put(PutAll(d, keys[..n], v), keys[n], v)
  }

  /** The loop that stores one value under each of several keys. */
  method Assign<V>(d: Dict<V>, keys: seq<string>, v: V) returns (r: Dict<V>)
    ensures r == PutAll(d, keys, v)
  {
    r := d;
    for k := 0 to |keys|
      invariant r == PutAll(d, keys[..k], v)
    {
      assert keys[..k + 1][..k] == keys[..k];
      r := Put(r, keys[k], v);
    }
    assert keys[..|keys|] == keys;
  }

  // ---------------------------------------------------------------------
  // The pick-and-place file

  /** One placed part: value, footprint, position, rotation and board side. */
  datatype Placement = Placement(value: string, footprint: string, x: string, y: string, rotation: string, side: string)

  /** Why reading the .pos file stops: a line without seven fields, or a reference seen before. */
  datatype PnpError = IncorrectLine(line: string) | DuplicateRef(ref: string)

  /** What the reader makes of one line: nothing, or the stripped text and its fields. */
  datatype Token = Skip | Record(text: string, fields: seq<string>)

  /**
   * A comment ('#' in the very first column, before any stripping) and a
   * line of nothing but whitespace are skipped; any other line is split on
   * runs of whitespace after stripping (twice, as the reader does).
   */
  function Tokenize(line: string): Token {
    if StartsWith(line, "#") then Skip
    else
      var text := Strip(line);
      if |text| == 0 then Skip else Record(text, SplitWhitespace(Strip(text)))
  }

  /** What the reader makes of each of the lines. */
  function Tokens(lines: seq<string>): (ts: seq<Token>)
    ensures |ts| == |lines|
    decreases |lines|
  {
    if lines == [] then []
    else
      var n := |lines| - 1;
      Tokens(lines[..n]) + [Tokenize(lines[n])]
  }

  lemma {:induction false} TokensAt(lines: seq<string>, k: nat)
    requires k < |lines|
    ensures Tokens(lines)[k] == Tokenize(lines[k])
    decreases |lines|
  {
    var n := |lines| - 1;
    if k < n {
      TokensAt(lines[..n], k);
    }
  }

  function PlacementOf(f: seq<string>): Placement
    requires |f| == 7
  {
    Placement(f[1], f[2], f[3], f[4], f[5], f[6])
  }

  /** One line read into the table, or the error it raises. */
  function AddToken(items: Dict<Placement>, t: Token): (r: Result<Dict<Placement>, PnpError>)
    ensures Consistent(items) && r.Ok? ==> Consistent(r.value)
  {
    match t
    case Skip => Ok(items)
    case Record(text, f) =>
      if |f| != 7 then Err(IncorrectLine(text))
      else if f[0] in items.entries then Err(DuplicateRef(f[0]))
      else Ok(Put(items, f[0], PlacementOf(f)))
  }

  /** The table of placements after the given lines, or the first error among them. */
  function ParseTokens(ts: seq<Token>): (r: Result<Dict<Placement>, PnpError>)
    ensures r.Ok? ==> Consistent(r.value)
    decreases |ts|
  {
    if ts == [] then Ok(Empty())
    else
      var n := |ts| - 1;
      match ParseTokens(ts[..n])
      case Err(e) => Err(e)
      case Ok(items) => AddToken(items, ts[n])
  }

  /** `pnp_items` after reading the whole .pos file, or the error that stopped it. */
  function ParsePnp(lines: seq<string>): Result<Dict<Placement>, PnpError> {
    ParseTokens(Tokens(lines))
  }

  /** Once a line has failed, the later lines change nothing: the first error is the one reported. */
  lemma {:induction false} ParseTokensStops(ts: seq<Token>, k: nat)
    requires k <= |ts| && ParseTokens(ts[..k]).Err?
    ensures ParseTokens(ts) == ParseTokens(ts[..k])
    decreases |ts|
  {
    if k < |ts| {
      var n := |ts| - 1;
      assert ts[..n][..k] == ts[..k];
      ParseTokensStops(ts[..n], k);
    } else {
      assert ts[..k] == ts;
    }
  }

  /** The body of the line loop: one line read into the table. */
  method PnpStep(lines: seq<string>, items: Dict<Placement>, k: nat, ghost ts: seq<Token>)
      returns (r: Result<Dict<Placement>, PnpError>)
    requires k < |lines| && ts == Tokens(lines)
    requires ParseTokens(ts[..k]) == Ok(items)
    ensures r == ParseTokens(ts[..k + 1])
  {
    assert ts[..k + 1][..k] == ts[..k];
    assert ParseTokens(ts[..k + 1]) == AddToken(items, ts[k]);
    var line := lines[k];
    TokensAt(lines, k);
    if StartsWith(line, "#") {
      return Ok(items);
    }
    var stripped := Strip(line);
    if |stripped| == 0 {
      return Ok(items);
    }
    var fields := SplitWhitespace(Strip(stripped));
    assert ts[k] == Record(stripped, fields);
    if |fields| != 7 {
      return Err(IncorrectLine(stripped));
    }
    var ref := fields[0];
    if ref in items.entries {
      return Err(DuplicateRef(ref));
    }
    return Ok(Put(items, ref, PlacementOf(fields)));
  }

  /** The loop over the lines of the .pos file. */
  method ReadPnp(lines: seq<string>) returns (r: Result<Dict<Placement>, PnpError>)
    ensures r == ParsePnp(lines)
  {
    var items: Dict<Placement> := Empty();
    ghost var ts := Tokens(lines);
    for k := 0 to |lines|
      invariant ParseTokens(ts[..k]) == Ok(items)
    {
      var next := PnpStep(lines, items, k, ts);
      if next.Err? {
        ParseTokensStops(ts, k + 1);
        return next;
      }
      items := next.value;
    }
    assert ts[..|lines|] == ts;
    return Ok(items);
  }

  /** A line the reader keeps as a part: not skipped, and seven fields. */
  predicate IsPart(t: Token) {
    t.Record? && |t.fields| == 7
  }

  /** The references of the part lines, in file order. */
  function PartRefs(ts: seq<Token>): seq<string>
    decreases |ts|
  {
    if ts == [] then []
    else
      var n := |ts| - 1;
      PartRefs(ts[..n]) + (if IsPart(ts[n]) then [ts[n].fields[0]] else [])
  }

  /** Every line that is not skipped has seven fields. */
  predicate AllParts(ts: seq<Token>) {
    forall i :: 0 <= i < |ts| && ts[i].Record? ==> |ts[i].fields| == 7
  }

  /** Every line that is not skipped has seven fields, and no reference is listed twice. */
  predicate WellFormed(ts: seq<Token>) {
    AllParts(ts) && Distinct(PartRefs(ts))
  }

  /** Seven fields on every line, file by appended line. */
  lemma AllPartsAppend(ts: seq<Token>)
    requires ts != []
    ensures AllParts(ts) <==> AllParts(ts[..|ts| - 1]) && (ts[|ts| - 1].Record? ==> |ts[|ts| - 1].fields| == 7)
  {
    var pre := ts[..|ts| - 1];
    if AllParts(pre) && (ts[|ts| - 1].Record? ==> |ts[|ts| - 1].fields| == 7) {
      forall i | 0 <= i < |ts| && ts[i].Record? ensures |ts[i].fields| == 7 {
        if i < |pre| {
          assert pre[i] == ts[i];
        }
      }
    }
    if AllParts(ts) {
      forall i | 0 <= i < |pre| && pre[i].Record? ensures |pre[i].fields| == 7 {
        assert pre[i] == ts[i];
      }
    }
  }

  /** A successful read lists the references of the part lines in file order. */
  lemma {:induction false} TokensKeys(ts: seq<Token>)
    requires ParseTokens(ts).Ok?
    ensures ParseTokens(ts).value.keys == PartRefs(ts)
    decreases |ts|
  {
    if ts != [] {
      TokensKeys(ts[..|ts| - 1]);
    }
  }

  /** Every line that is not skipped is a part, and its reference maps to the placement on that line: no entry is overwritten. */
  lemma {:induction false} TokensEntries(ts: seq<Token>)
    requires ParseTokens(ts).Ok?
    ensures forall i :: 0 <= i < |ts| && ts[i].Record? ==>
              && IsPart(ts[i])
              && ts[i].fields[0] in ParseTokens(ts).value.entries
              && ParseTokens(ts).value.entries[ts[i].fields[0]] == PlacementOf(ts[i].fields)
    decreases |ts|
  {
    if ts != [] {
      var n := |ts| - 1;
      var pre := ts[..n];
      TokensEntries(pre);
      var items := ParseTokens(pre).value;
      var table := ParseTokens(ts).value;
      assert table == AddToken(items, ts[n]).value;
      forall i | 0 <= i < |ts| && ts[i].Record?
        ensures IsPart(ts[i]) && ts[i].fields[0] in table.entries && table.entries[ts[i].fields[0]] == PlacementOf(ts[i].fields)
      {
        if i < n {
          assert pre[i] == ts[i];
        }
      }
    }
  }

  /** The last line of a well-formed file can be dropped, and the rest is well formed. */
  lemma WellFormedPrefix(ts: seq<Token>)
    requires ts != [] && WellFormed(ts)
    ensures WellFormed(ts[..|ts| - 1])
  {
    var n := |ts| - 1;
    var pre := ts[..n];
    var refs := PartRefs(pre);
    AllPartsAppend(ts);
    if IsPart(ts[n]) {
      assert (refs + [ts[n].fields[0]])[..|refs|] == refs;
    } else {
      assert PartRefs(ts) == refs;
    }
  }

  /** A line extends a well-formed file exactly when the reader accepts it. */
  lemma WellFormedExtended(ts: seq<Token>)
    requires ts != [] && WellFormed(ts[..|ts| - 1])
    requires ParseTokens(ts[..|ts| - 1]).Ok?
    ensures WellFormed(ts) <==> ParseTokens(ts).Ok?
  {
    var n := |ts| - 1;
    var pre := ts[..n];
    var refs := PartRefs(pre);
    TokensKeys(pre);
    var items := ParseTokens(pre).value;
    assert ParseTokens(ts) == AddToken(items, ts[n]);
    var t := ts[n];
    AllPartsAppend(ts);
    if t.Skip? {
      assert PartRefs(ts) == refs;
    } else if |t.fields| == 7 {
      var ref := t.fields[0];
      var all := refs + [ref];
      assert PartRefs(ts) == all;
      assert all[..|refs|] == refs && all[|refs|] == ref;
      assert ref in items.entries <==> ref in refs;
    }
  }

  /** The lines are accepted exactly when they are well formed. */
  lemma {:induction false} TokensAccepted(ts: seq<Token>)
    ensures ParseTokens(ts).Ok? <==> WellFormed(ts)
    decreases |ts|
  {
    if ts != [] {
      var pre := ts[..|ts| - 1];
      TokensAccepted(pre);
      if WellFormed(ts) {
        WellFormedPrefix(ts);
      }
      if ParseTokens(pre).Ok? && WellFormed(pre) {
        WellFormedExtended(ts);
      }
    }
  }

  /**
   * The .pos file is read without error exactly when every line that is
   * neither a comment nor blank has seven fields and no reference repeats;
   * the references are then listed in file order, each with its own line.
   */
  lemma PnpAccepted(lines: seq<string>)
    ensures ParsePnp(lines).Ok? <==> WellFormed(Tokens(lines))
    ensures ParsePnp(lines).Ok? ==> ParsePnp(lines).value.keys == PartRefs(Tokens(lines))
  {
    TokensAccepted(Tokens(lines));
    if ParsePnp(lines).Ok? {
      TokensKeys(Tokens(lines));
    }
  }

  // ---------------------------------------------------------------------
  // The bill of materials

  /** One BOM row by column name. */
  type Row = map<string, string>

  /** Why reading the BOM stops: a row longer than the header row, a missing column, or a quantity that is not an integer. */
  datatype BomError = RowTooLong(row: seq<string>) | MissingColumn(column: string) | BadQuantity(text: string)

  /** The issues the checker reports. */
  datatype Issue =
    | QuantityMismatch(refs: seq<string>, quantity: int)
    | FootprintMismatch(ref: string, bom: string, pnp: string)
    | ValueMismatch(ref: string, bom: string, pnp: string)
    | MissingFromBom(refs: seq<string>)
    | MissingFromPnp(refs: seq<string>)
    | DnfInPnp(refs: seq<string>)

  /** `bom_items` and the BOM issues found while reading it. */
  datatype Bom = Bom(items: Dict<Row>, errors: seq<Issue>)

  /** The header row read so that any column whose name starts with "Quantity" is called "Quantity". */
  method ReadHeaders(row: seq<string>) returns (headers: seq<string>)
    ensures headers == Headers(row)
    ensures |headers| == |row|
    ensures forall i :: 0 <= i < |row| ==> headers[i] == (if StartsWith(row[i], "Quantity") then "Quantity" else row[i])
  {
    headers := [];
    for i := 0 to |row|
      invariant |headers| == i
      invariant forall j :: 0 <= j < i ==> headers[j] == (if StartsWith(row[j], "Quantity") then "Quantity" else row[j])
    {
      var h := row[i];
      if StartsWith(h, "Quantity") {
        h := "Quantity";
      }
      headers := headers + [h];
    }
  }

  /** The header row as the checker names the columns. */
  function Headers(row: seq<string>): seq<string> {
    seq(|row|, i requires 0 <= i < |row| => if StartsWith(row[i], "Quantity") then "Quantity" else row[i])
  }

  /**
   * `row_data` for a row no longer than the header row: each cell under its
   * column's name; of two columns with the same name the later one wins.
   */
  function RowMap(headers: seq<string>, row: seq<string>): (m: Row)
    requires |row| <= |headers|
    ensures forall h :: h in m <==> exists i :: 0 <= i < |row| && headers[i] == h
    decreases |row|
  {
    if row == [] then map[]
    else
      var n := |row| - 1;
      RowMap(headers, row[..n])[headers[n] := row[n]]
  }

  /** The cell of the last column with a given name is the one the row keeps under that name. */
  lemma {:induction false} RowMapLastWins(headers: seq<string>, row: seq<string>, i: nat)
    requires |row| <= |headers| && i < |row|
    requires forall j :: i < j < |row| ==> headers[j] != headers[i]
    ensures RowMap(headers, row)[headers[i]] == row[i]
    decreases |row|
  {
    var n := |row| - 1;
    if i < n {
      RowMapLastWins(headers, row[..n], i);
    }
  }

  /** The loop that fills `row_data`; a cell beyond the last header is the IndexError. */
  method FillRow(headers: seq<string>, row: seq<string>) returns (r: Option<Row>)
    ensures r.None? <==> |row| > |headers|
    ensures r.Some? ==> r.value == RowMap(headers, row)
  {
    var data: Row := map[];
    for idx := 0 to |row|
      invariant idx <= |headers|
      invariant data == RowMap(headers, row[..idx])
    {
      if idx >= |headers| {
        return None;
      }
      assert row[..idx + 1][..idx] == row[..idx];
      data := data[headers[idx] := row[idx]];
    }
    assert row[..|row|] == row;
    return Some(data);
  }

  /** `int(text.strip().split(' ')[0])`: the leading integer of the quantity column, if it is one. */
  function Quantity(text: string): Option<int> {
    ParseInt(SplitOn(Strip(text), ' ')[0])
  }

  /** What the checker makes of one data row: the error it raises, or its cells by column, references and quantity. */
  datatype RowRead =
    | TooLong(row: seq<string>)
    | NoColumn(column: string)
    | NotInteger(text: string)
    | Read(data: Row, refs: seq<string>, quantity: int)

  /**
   * One data row: a cell beyond the last header is the IndexError, a missing
   * "References" or "Quantity" column the KeyError, a quantity that is not an
   * integer the ValueError; otherwise the references split on single spaces
   * and the quantity.
   */
  function ReadOf(headers: seq<string>, row: seq<string>): RowRead {
    if |row| > |headers| then TooLong(row)
    else
      var data := RowMap(headers, row);
      if "References" !in data then NoColumn("References")
      else if "Quantity" !in data then NoColumn("Quantity")
      else
        match Quantity(data["Quantity"])
        case None => NotInteger(data["Quantity"])
        case Some(q) => Read(data, SplitOn(data["References"], ' '), q)
  }

  /** What the checker makes of each of the rows. */
  function Reads(headers: seq<string>, rows: seq<seq<string>>): (rs: seq<RowRead>)
    ensures |rs| == |rows|
    decreases |rows|
  {
    if rows == [] then []
    else
      var n := |rows| - 1;
      Reads(headers, rows[..n]) + [ReadOf(headers, rows[n])]
  }

  lemma {:induction false} ReadsAt(headers: seq<string>, rows: seq<seq<string>>, k: nat)
    requires k < |rows|
    ensures Reads(headers, rows)[k] == ReadOf(headers, rows[k])
    decreases |rows|
  {
    var n := |rows| - 1;
    if k < n {
      ReadsAt(headers, rows[..n], k);
    }
  }

  /** One data row taken into the BOM, or the error it raises. */
  function AddRow(bom: Bom, rr: RowRead): (r: Result<Bom, BomError>)
    ensures r.Ok? <==> rr.Read?
    ensures Consistent(bom.items) && r.Ok? ==> Consistent(r.value.items)
  {
    match rr
    case TooLong(row) => Err(RowTooLong(row))
    case NoColumn(column) => Err(MissingColumn(column))
    case NotInteger(text) => Err(BadQuantity(text))
    case Read(data, refs, q) =>
      Ok(Bom(PutAll(bom.items, refs, data), bom.errors + (if |refs| != q then [QuantityMismatch(refs, q)] else [])))
  }

  /**
   * A row adds exactly one issue when its reference count differs from its
   * quantity and none otherwise, and every one of its references then
   * stands for this row.
   */
  lemma RowOutcome(bom: Bom, rr: RowRead)
    requires rr.Read?
    ensures var r := AddRow(bom, rr).value;
            && |r.errors| == |bom.errors| + (if |rr.refs| != rr.quantity then 1 else 0)
            && r.errors[..|bom.errors|] == bom.errors
            && (|rr.refs| != rr.quantity ==> r.errors[|bom.errors|] == QuantityMismatch(rr.refs, rr.quantity))
            && (forall ref :: ref in rr.refs ==> ref in r.items.entries && r.items.entries[ref] == rr.data)
            && (forall ref :: ref in bom.items.entries && ref !in rr.refs ==> ref in r.items.entries && r.items.entries[ref] == bom.items.entries[ref])
  {
    var r := AddRow(bom, rr).value;
    if |rr.refs| != rr.quantity {
      assert r.errors == bom.errors + [QuantityMismatch(rr.refs, rr.quantity)];
    } else {
      assert r.errors == bom.errors;
    }
  }

  /** The lookups and conversions of one row, up to the error they raise. */
  method ParseRow(headers: seq<string>, row: seq<string>) returns (rr: RowRead)
    ensures rr == ReadOf(headers, row)
  {
    var data := FillRow(headers, row);
    if data.None? {
      return TooLong(row);
    }
    var rowData := data.value;
    if "References" !in rowData {
      return NoColumn("References");
    }
    var refs := SplitOn(rowData["References"], ' ');
    if "Quantity" !in rowData {
      return NoColumn("Quantity");
    }
    var quantity := Quantity(rowData["Quantity"]);
    if quantity.None? {
      return NotInteger(rowData["Quantity"]);
    }
    return Read(rowData, refs, quantity.value);
  }

  /** The quantity check of one read row, and every one of its references stored with it. */
  method TakeRow(bom: Bom, rr: RowRead) returns (r: Bom)
    requires rr.Read?
    ensures Ok(r) == AddRow(bom, rr)
  {
    var errors := bom.errors;
    if |rr.refs| != rr.quantity {
      errors := errors + [QuantityMismatch(rr.refs, rr.quantity)];
    }
    assert errors == bom.errors + (if |rr.refs| != rr.quantity then [QuantityMismatch(rr.refs, rr.quantity)] else []);
    var items := Assign(bom.items, rr.refs, rr.data);
    assert AddRow(bom, rr) == Ok(Bom(PutAll(bom.items, rr.refs, rr.data), errors));
    return Bom(items, errors);
  }

  /** The BOM after the given data rows, or the first error among them. */
  function ProcessRows(rs: seq<RowRead>): (r: Result<Bom, BomError>)
    ensures r.Ok? ==> Consistent(r.value.items)
    decreases |rs|
  {
    if rs == [] then Ok(Bom(Empty(), []))
    else
      var n := |rs| - 1;
      match ProcessRows(rs[..n])
      case Err(e) => Err(e)
      case Ok(bom) => AddRow(bom, rs[n])
  }

  /** Once a row has failed, the later rows change nothing. */
  lemma {:induction false} ProcessRowsStops(rs: seq<RowRead>, k: nat)
    requires k <= |rs| && ProcessRows(rs[..k]).Err?
    ensures ProcessRows(rs) == ProcessRows(rs[..k])
    decreases |rs|
  {
    if k < |rs| {
      var n := |rs| - 1;
      assert rs[..n][..k] == rs[..k];
      ProcessRowsStops(rs[..n], k);
    } else {
      assert rs[..k] == rs;
    }
  }

  /** The first empty row at or after `i`, or the end: where reading stops. */
  function FirstEmpty(rows: seq<seq<string>>, i: nat): (e: nat)
    requires i <= |rows|
    ensures i <= e <= |rows|
    decreases |rows| - i
  {
    if i == |rows| || |rows[i]| == 0 then i else FirstEmpty(rows, i + 1)
  }

  /** Reading stops at an empty row or at the end, and every row it passes is non-empty. */
  lemma {:induction false} FirstEmptyIs(rows: seq<seq<string>>, i: nat)
    requires i <= |rows|
    ensures FirstEmpty(rows, i) < |rows| ==> |rows[FirstEmpty(rows, i)]| == 0
    ensures forall j :: i <= j < FirstEmpty(rows, i) ==> |rows[j]| != 0
    decreases |rows| - i
  {
    if i < |rows| && |rows[i]| != 0 {
      FirstEmptyIs(rows, i + 1);
    }
  }

  /** What the checker makes of the data rows it reads: those after the header row and before the first empty row. */
  function DataReads(rows: seq<seq<string>>): (rs: seq<RowRead>)
    requires rows != []
    ensures |rs| == FirstEmpty(rows, 1) - 1
  {
    Reads(Headers(rows[0]), rows[1..])[..FirstEmpty(rows, 1) - 1]
  }

  /** `bom_items` and the quantity issues after reading the whole BOM, or the error that stopped it. */
  function ParseBom(rows: seq<seq<string>>): (r: Result<Bom, BomError>)
    ensures r.Ok? ==> Consistent(r.value.items)
  {
    if rows == [] then Ok(Bom(Empty(), []))
    else ProcessRows(DataReads(rows))
  }

  lemma ParseBomReads(rows: seq<seq<string>>, headers: seq<string>)
    requires rows != [] && headers == Headers(rows[0])
    ensures ParseBom(rows) == ProcessRows(Reads(headers, rows[1..])[..FirstEmpty(rows, 1) - 1])
  {
  }

  /** The body of the row loop: the row read, checked and stored. */
  method BomStep(rows: seq<seq<string>>, headers: seq<string>, bom: Bom, i: nat, ghost rs: seq<RowRead>)
      returns (r: Result<Bom, BomError>)
    requires 1 <= i < |rows| && rs == Reads(headers, rows[1..])
    requires ProcessRows(rs[..i - 1]) == Ok(bom)
    ensures r == ProcessRows(rs[..i])
  {
    assert rs[..i][..i - 1] == rs[..i - 1];
    var rr := ParseRow(headers, rows[i]);
    ReadsAt(headers, rows[1..], i - 1);
    assert rows[1..][i - 1] == rows[i];
    if !rr.Read? {
      return AddRow(bom, rr);
    }
    var taken := TakeRow(bom, rr);
    return Ok(taken);
  }

  /** Once a row has failed, reading more rows changes nothing. */
  lemma StopsBefore(rs: seq<RowRead>, i: nat, e: nat)
    requires i <= e <= |rs| && ProcessRows(rs[..i]).Err?
    ensures ProcessRows(rs[..e]) == ProcessRows(rs[..i])
  {
    assert rs[..e][..i] == rs[..i];
    ProcessRowsStops(rs[..e], i);
  }

  /** A non-empty row before the first empty one is not the first empty one. */
  lemma BeforeEmpty(rows: seq<seq<string>>, i: nat)
    requires 1 <= i <= |rows| && i <= FirstEmpty(rows, 1) && i < |rows| && |rows[i]| != 0
    ensures i < FirstEmpty(rows, 1)
  {
    FirstEmptyIs(rows, 1);
  }

  /** Reading stops at the first empty row or at the end. */
  lemma AtEmpty(rows: seq<seq<string>>, i: nat)
    requires 1 <= i <= |rows| && i <= FirstEmpty(rows, 1) && (i == |rows| || |rows[i]| == 0)
    ensures i == FirstEmpty(rows, 1)
  {
    FirstEmptyIs(rows, 1);
  }

  /** The loop over the data rows: each one read and stored, up to the first empty row or the first error. */
  method ReadRows(rows: seq<seq<string>>, headers: seq<string>) returns (r: Result<Bom, BomError>)
    requires rows != []
    ensures r == ProcessRows(Reads(headers, rows[1..])[..FirstEmpty(rows, 1) - 1])
  {
    ghost var rs := Reads(headers, rows[1..]);
    ghost var e := FirstEmpty(rows, 1);
    r := Ok(Bom(Empty(), []));
    var i := 1;
    while i < |rows| && |rows[i]| != 0
      invariant 1 <= i <= e
      invariant r.Ok? && r == ProcessRows(rs[..i - 1])
    {
      BeforeEmpty(rows, i);
      var next := BomStep(rows, headers, r.value, i, rs);
      if next.Err? {
        StopsBefore(rs, i, e - 1);
        return next;
      }
      r := next;
      i := i + 1;
    }
    AtEmpty(rows, i);
  }

  /** The reading of the BOM: the header row first, then the data rows. */
  method ReadBom(rows: seq<seq<string>>) returns (r: Result<Bom, BomError>)
    ensures r == ParseBom(rows)
  {
    if rows == [] {
      return Ok(Bom(Empty(), []));
    }
    var headers := ReadHeaders(rows[0]);
    r := ReadRows(rows, headers);
    ParseBomReads(rows, headers);
  }


  /** Every row was read. */
  predicate AllRead(rs: seq<RowRead>) {
    forall j :: 0 <= j < |rs| ==> rs[j].Read?
  }

  lemma AllReadAppend(rs: seq<RowRead>)
    requires rs != []
    ensures AllRead(rs) <==> AllRead(rs[..|rs| - 1]) && rs[|rs| - 1].Read?
  {
    var pre := rs[..|rs| - 1];
    if AllRead(pre) && rs[|rs| - 1].Read? {
      forall j | 0 <= j < |rs| ensures rs[j].Read? {
        if j < |pre| {
          assert pre[j] == rs[j];
        }
      }
    }
    if AllRead(rs) {
      forall j | 0 <= j < |pre| ensures pre[j].Read? {
        assert pre[j] == rs[j];
      }
    }
  }

  /** The rows are taken without error exactly when every one of them could be read. */
  lemma {:induction false} ProcessRowsAccepted(rs: seq<RowRead>)
    ensures ProcessRows(rs).Ok? <==> AllRead(rs)
    decreases |rs|
  {
    if rs != [] {
      ProcessRowsAccepted(rs[..|rs| - 1]);
      AllReadAppend(rs);
    }
  }

  /** Some read row lists the reference. */
  predicate Listed(rs: seq<RowRead>, ref: string) {
    exists j :: 0 <= j < |rs| && rs[j].Read? && ref in rs[j].refs
  }

  lemma ListedAppend(rs: seq<RowRead>, ref: string)
    requires rs != [] && rs[|rs| - 1].Read?
    ensures Listed(rs, ref) <==> Listed(rs[..|rs| - 1], ref) || ref in rs[|rs| - 1].refs
  {
    var pre := rs[..|rs| - 1];
    if Listed(rs, ref) {
      var j :| 0 <= j < |rs| && rs[j].Read? && ref in rs[j].refs;
      if j < |pre| {
        assert pre[j] == rs[j];
      }
    }
    if Listed(pre, ref) {
      var j :| 0 <= j < |pre| && pre[j].Read? && ref in pre[j].refs;
      assert pre[j] == rs[j];
    }
  }

  /** The references in `bom_items` are exactly those some row lists. */
  lemma {:induction false} BomKeys(rs: seq<RowRead>)
    requires ProcessRows(rs).Ok?
    ensures forall ref :: ref in ProcessRows(rs).value.items.entries <==> Listed(rs, ref)
    decreases |rs|
  {
    if rs != [] {
      var pre := rs[..|rs| - 1];
      BomKeys(pre);
      forall ref ensures ref in ProcessRows(rs).value.items.entries <==> Listed(rs, ref) {
        ListedAppend(rs, ref);
      }
    }
  }

  /** Row `j` is the last row that lists the reference. */
  predicate LastListing(rs: seq<RowRead>, j: nat, ref: string) {
    && j < |rs| && rs[j].Read? && ref in rs[j].refs
    && forall k :: j < k < |rs| && rs[k].Read? ==> ref !in rs[k].refs
  }

  /** A reference listed by several rows stands for the last of them: a later row overwrites an earlier one. */
  lemma {:induction false} BomLastRowWins(rs: seq<RowRead>, j: nat, ref: string)
    requires ProcessRows(rs).Ok? && LastListing(rs, j, ref)
    ensures ref in ProcessRows(rs).value.items.entries
    ensures ProcessRows(rs).value.items.entries[ref] == rs[j].data
    decreases |rs|
  {
    var n := |rs| - 1;
    var pre := rs[..n];
    var before := ProcessRows(pre).value;
    assert ProcessRows(rs) == AddRow(before, rs[n]);
    RowOutcome(before, rs[n]);
    if j < n {
      assert ref !in rs[n].refs;
      assert pre[j] == rs[j];
      assert LastListing(pre, j, ref) by {
        forall k | j < k < |pre| && pre[k].Read? ensures ref !in pre[k].refs {
          assert pre[k] == rs[k];
        }
      }
      BomLastRowWins(pre, j, ref);
    }
  }

  /** A read row whose reference count differs from its quantity. */
  predicate Mismatched(rr: RowRead) {
    rr.Read? && |rr.refs| != rr.quantity
  }

  /** Some row has exactly this quantity issue. */
  predicate RaisedBy(rs: seq<RowRead>, issue: Issue) {
    exists j :: 0 <= j < |rs| && Mismatched(rs[j]) && issue == QuantityMismatch(rs[j].refs, rs[j].quantity)
  }

  lemma RaisedByAppend(rs: seq<RowRead>, issue: Issue)
    requires rs != []
    ensures RaisedBy(rs, issue) <==>
              || RaisedBy(rs[..|rs| - 1], issue)
              || (Mismatched(rs[|rs| - 1]) && issue == QuantityMismatch(rs[|rs| - 1].refs, rs[|rs| - 1].quantity))
  {
    var pre := rs[..|rs| - 1];
    if RaisedBy(rs, issue) {
      var j :| 0 <= j < |rs| && Mismatched(rs[j]) && issue == QuantityMismatch(rs[j].refs, rs[j].quantity);
      if j < |pre| {
        assert pre[j] == rs[j];
      }
    }
    if RaisedBy(pre, issue) {
      var j :| 0 <= j < |pre| && Mismatched(pre[j]) && issue == QuantityMismatch(pre[j].refs, pre[j].quantity);
      assert pre[j] == rs[j];
    }
  }

  /** The BOM issues are the quantity mismatches of the rows, at most one per row. */
  lemma {:induction false} BomIssues(rs: seq<RowRead>)
    requires ProcessRows(rs).Ok?
    ensures |ProcessRows(rs).value.errors| <= |rs|
    ensures forall issue :: issue in ProcessRows(rs).value.errors <==> RaisedBy(rs, issue)
    decreases |rs|
  {
    if rs != [] {
      var pre := rs[..|rs| - 1];
      BomIssues(pre);
      RowOutcome(ProcessRows(pre).value, rs[|rs| - 1]);
      forall issue ensures issue in ProcessRows(rs).value.errors <==> RaisedBy(rs, issue) {
        RaisedByAppend(rs, issue);
      }
    }
  }

  /** The data row reads are those of the rows after the header, in order. */
  lemma DataReadsAt(rows: seq<seq<string>>, j: nat)
    requires rows != [] && j < |DataReads(rows)|
    ensures 1 + j < |rows| && |rows[1 + j]| != 0
    ensures DataReads(rows)[j] == ReadOf(Headers(rows[0]), rows[1 + j])
  {
    ReadsAt(Headers(rows[0]), rows[1..], j);
    FirstEmptyIs(rows, 1);
    assert rows[1..][j] == rows[1 + j];
  }

  /**
   * The BOM is read without error exactly when every data row (those before
   * the first empty row) fits the header row, has a References and a
   * Quantity column, and has an integer quantity.
   */
  lemma BomAccepted(rows: seq<seq<string>>)
    requires rows != []
    ensures ParseBom(rows).Ok? <==> AllRead(DataReads(rows))
  {
    ProcessRowsAccepted(DataReads(rows));
  }

  // ---------------------------------------------------------------------
  // Reconciliation

  /** What the cross-check makes of one BOM reference. */
  datatype Verdict =
    | MissingKey(ref: string, column: string)
    | NotFitted(ref: string, placed: bool)
    | Unplaced(ref: string)
    | Placed(ref: string, footprint: string, pnpFootprint: string, value: string, pnpValue: string)

  /**
   * One BOM reference against the placements: "dnf" anywhere in the
   * quantity, in any case, marks it not fitted; a fitted part must be placed,
   * and a placed one is compared on footprint and value. A column the
   * lookups need and the row lacks is the KeyError.
   */
  function Judge(ref: string, item: Row, pnp: Dict<Placement>): Verdict {
    if "Quantity" !in item then MissingKey(ref, "Quantity")
    else if Contains(Lower(item["Quantity"]), "dnf") then NotFitted(ref, ref in pnp.entries)
    else if ref !in pnp.entries then Unplaced(ref)
    else if "Footprint" !in item then MissingKey(ref, "Footprint")
    else if "Value" !in item then MissingKey(ref, "Value")
    else Placed(ref, item["Footprint"], pnp.entries[ref].footprint, item["Value"], pnp.entries[ref].value)
  }

  /** The verdicts on the given BOM references, in order. */
  function Verdicts(items: Dict<Row>, pnp: Dict<Placement>, keys: seq<string>): (vs: seq<Verdict>)
    requires forall k :: k in keys ==> k in items.entries
    ensures |vs| == |keys|
    decreases |keys|
  {
    if keys == [] then []
    else
      var n := |keys| - 1;
      Verdicts(items, pnp, keys[..n]) + [Judge(keys[n], items.entries[keys[n]], pnp)]
  }

  lemma {:induction false} VerdictsAt(items: Dict<Row>, pnp: Dict<Placement>, keys: seq<string>, k: nat)
    requires forall k :: k in keys ==> k in items.entries
    requires k < |keys|
    ensures Verdicts(items, pnp, keys)[k] == Judge(keys[k], items.entries[keys[k]], pnp)
    decreases |keys|
  {
    var n := |keys| - 1;
    if k < n {
      VerdictsAt(items, pnp, keys[..n], k);
    }
  }

  /** The counters and lists of the cross-check: `dnf_count`, `extra_in_pnp`, `missing_from_pnp` and the mismatch errors. */
  datatype Tally = Tally(dnf: nat, extra: seq<string>, missing: seq<string>, mismatches: seq<Issue>)

  /** One verdict counted, or the KeyError it stands for. */
  function Count(t: Tally, v: Verdict): Result<Tally, string> {
    match v
    case MissingKey(_, column) => Err(column)
    case NotFitted(ref, placed) => Ok(t.(dnf := t.dnf + 1, extra := if placed then t.extra + [ref] else t.extra))
    case Unplaced(ref) => Ok(t.(missing := t.missing + [ref]))
    case Placed(ref, f, pf, val, pv) =>
      var m := if f != pf then t.mismatches + [FootprintMismatch(ref, f, pf)] else t.mismatches;
      Ok(t.(mismatches := if val != pv then m + [ValueMismatch(ref, val, pv)] else m))
  }

  /** The tally after the given verdicts, or the first KeyError among them. */
  function Tallied(vs: seq<Verdict>): Result<Tally, string>
    decreases |vs|
  {
    if vs == [] then Ok(Tally(0, [], [], []))
    else
      var n := |vs| - 1;
      match Tallied(vs[..n])
      case Err(e) => Err(e)
      case Ok(t) => Count(t, vs[n])
  }

  lemma {:induction false} TalliedStops(vs: seq<Verdict>, k: nat)
    requires k <= |vs| && Tallied(vs[..k]).Err?
    ensures Tallied(vs) == Tallied(vs[..k])
    decreases |vs|
  {
    if k < |vs| {
      var n := |vs| - 1;
      assert vs[..n][..k] == vs[..k];
      TalliedStops(vs[..n], k);
    } else {
      assert vs[..k] == vs;
    }
  }

  /** The three groups of references the cross-check lists. */
  datatype Group = Dnf | DnfPlaced | NotPlaced

  predicate InGroup(v: Verdict, g: Group) {
    match g
    case Dnf => v.NotFitted?
    case DnfPlaced => v.NotFitted? && v.placed
    case NotPlaced => v.Unplaced?
  }

  /** The references of the verdicts in a group, in order. */
  function Members(vs: seq<Verdict>, g: Group): seq<string>
    decreases |vs|
  {
    if vs == [] then []
    else
      var n := |vs| - 1;
      Members(vs[..n], g) + (if InGroup(vs[n], g) then [vs[n].ref] else [])
  }

  /** Some verdict of the group is about the reference. */
  predicate HasMember(vs: seq<Verdict>, g: Group, ref: string) {
    exists j :: 0 <= j < |vs| && InGroup(vs[j], g) && vs[j].ref == ref
  }

  lemma HasMemberAppend(vs: seq<Verdict>, g: Group, ref: string)
    requires vs != []
    ensures HasMember(vs, g, ref) <==> HasMember(vs[..|vs| - 1], g, ref) || (InGroup(vs[|vs| - 1], g) && vs[|vs| - 1].ref == ref)
  {
    var pre := vs[..|vs| - 1];
    if HasMember(vs, g, ref) {
      var j :| 0 <= j < |vs| && InGroup(vs[j], g) && vs[j].ref == ref;
      if j < |pre| {
        assert pre[j] == vs[j];
      }
    }
    if HasMember(pre, g, ref) {
      var j :| 0 <= j < |pre| && InGroup(pre[j], g) && pre[j].ref == ref;
      assert pre[j] == vs[j];
    }
  }

  /** A reference is listed in a group exactly when one of its verdicts falls in the group. */
  lemma {:induction false} MembersExactly(vs: seq<Verdict>, g: Group)
    ensures forall ref :: ref in Members(vs, g) <==> HasMember(vs, g, ref)
    decreases |vs|
  {
    if vs != [] {
      MembersExactly(vs[..|vs| - 1], g);
      forall ref ensures ref in Members(vs, g) <==> HasMember(vs, g, ref) {
        HasMemberAppend(vs, g, ref);
      }
    }
  }

  /**
   * The counters: every not-fitted reference is counted, those also placed
   * are the extra ones, and fitted references without a placement are the
   * missing ones, each list in BOM order.
   */
  lemma {:induction false} TallyGroups(vs: seq<Verdict>)
    requires Tallied(vs).Ok?
    ensures Tallied(vs).value.dnf == |Members(vs, Dnf)|
    ensures Tallied(vs).value.extra == Members(vs, DnfPlaced)
    ensures Tallied(vs).value.missing == Members(vs, NotPlaced)
    decreases |vs|
  {
    if vs != [] {
      TallyGroups(vs[..|vs| - 1]);
    }
  }

  /** A placed part whose BOM and PNP data disagree in this issue. */
  predicate Disagrees(v: Verdict, issue: Issue) {
    && v.Placed?
    && ((v.footprint != v.pnpFootprint && issue == FootprintMismatch(v.ref, v.footprint, v.pnpFootprint))
        || (v.value != v.pnpValue && issue == ValueMismatch(v.ref, v.value, v.pnpValue)))
  }

  predicate SomeDisagrees(vs: seq<Verdict>, issue: Issue) {
    exists j :: 0 <= j < |vs| && Disagrees(vs[j], issue)
  }

  lemma SomeDisagreesAppend(vs: seq<Verdict>, issue: Issue)
    requires vs != []
    ensures SomeDisagrees(vs, issue) <==> SomeDisagrees(vs[..|vs| - 1], issue) || Disagrees(vs[|vs| - 1], issue)
  {
    var pre := vs[..|vs| - 1];
    if SomeDisagrees(vs, issue) {
      var j :| 0 <= j < |vs| && Disagrees(vs[j], issue);
      if j < |pre| {
        assert pre[j] == vs[j];
      }
    }
    if SomeDisagrees(pre, issue) {
      var j :| 0 <= j < |pre| && Disagrees(pre[j], issue);
      assert pre[j] == vs[j];
    }
  }

  /** The mismatch errors are exactly one per unequal footprint and one per unequal value of a placed part. */
  lemma {:induction false} TallyMismatches(vs: seq<Verdict>)
    requires Tallied(vs).Ok?
    ensures forall issue :: issue in Tallied(vs).value.mismatches <==> SomeDisagrees(vs, issue)
    decreases |vs|
  {
    if vs != [] {
      var n := |vs| - 1;
      TallyMismatches(vs[..n]);
      var t := Tallied(vs[..n]).value;
      assert Tallied(vs) == Count(t, vs[n]);
      forall issue ensures issue in Tallied(vs).value.mismatches <==> SomeDisagrees(vs, issue) {
        SomeDisagreesAppend(vs, issue);
      }
    }
  }

  /** A mismatch error names the reference of a verdict it comes from. */
  lemma MismatchRefs(vs: seq<Verdict>, issue: Issue)
    requires Tallied(vs).Ok? && issue in Tallied(vs).value.mismatches
    ensures issue.FootprintMismatch? || issue.ValueMismatch?
    ensures exists j :: 0 <= j < |vs| && vs[j].ref == issue.ref
  {
    TallyMismatches(vs);
    var j :| 0 <= j < |vs| && Disagrees(vs[j], issue);
  }

  /**
   * No mismatch error is raised twice when the verdicts judge distinct
   * references: with `TallyMismatches`, each unequal footprint and each
   * unequal value gives exactly one error.
   */
  lemma {:induction false} TallyMismatchesOnce(vs: seq<Verdict>)
    requires Tallied(vs).Ok?
    requires forall i, j :: 0 <= i < j < |vs| ==> vs[i].ref != vs[j].ref
    ensures forall i, j :: 0 <= i < j < |Tallied(vs).value.mismatches| ==>
              Tallied(vs).value.mismatches[i] != Tallied(vs).value.mismatches[j]
    decreases |vs|
  {
    if vs != [] {
      var n := |vs| - 1;
      var pre := vs[..n];
      TallyMismatchesOnce(pre);
      var t := Tallied(pre).value;
      assert Tallied(vs) == Count(t, vs[n]);
      var m := Tallied(vs).value.mismatches;
      assert m[..|t.mismatches|] == t.mismatches;
      forall k | |t.mismatches| <= k < |m|
        ensures (m[k].FootprintMismatch? || m[k].ValueMismatch?) && m[k].ref == vs[n].ref
      {
      }
      forall i | 0 <= i < |t.mismatches|
        ensures (m[i].FootprintMismatch? || m[i].ValueMismatch?) && m[i].ref != vs[n].ref
      {
        MismatchRefs(pre, t.mismatches[i]);
        var j :| 0 <= j < |pre| && pre[j].ref == t.mismatches[i].ref;
        assert pre[j] == vs[j];
      }
    }
  }

  /** The keys of a consistent dictionary are pairwise distinct. */
  lemma {:induction false} DistinctPairwise(s: seq<string>)
    requires Distinct(s)
    ensures forall i, j :: 0 <= i < j < |s| ==> s[i] != s[j]
    decreases |s|
  {
    if s != [] {
      var n := |s| - 1;
      DistinctPairwise(s[..n]);
      forall i, j | 0 <= i < j < |s|
        ensures s[i] != s[j]
      {
        if j < n {
          assert s[..n][i] == s[i] && s[..n][j] == s[j];
        } else {
          assert s[i] == s[..n][i];
        }
      }
    }
  }

  /** The cross-check of a BOM raises each mismatch error at most once, since each BOM reference is judged once. */
  lemma BomMismatchesOnce(items: Dict<Row>, pnp: Dict<Placement>)
    requires Consistent(items)
    requires Tallied(Verdicts(items, pnp, items.keys)).Ok?
    ensures var m := Tallied(Verdicts(items, pnp, items.keys)).value.mismatches;
            forall i, j :: 0 <= i < j < |m| ==> m[i] != m[j]
  {
    var vs := Verdicts(items, pnp, items.keys);
    DistinctPairwise(items.keys);
    forall k | 0 <= k < |vs|
      ensures vs[k].ref == items.keys[k]
    {
      VerdictsAt(items, pnp, items.keys, k);
    }
    TallyMismatchesOnce(vs);
  }

  /** Every verdict is a counted one: no lookup failed. */
  predicate AllCounted(vs: seq<Verdict>) {
    forall j :: 0 <= j < |vs| ==> !vs[j].MissingKey?
  }

  lemma AllCountedAppend(vs: seq<Verdict>)
    requires vs != []
    ensures AllCounted(vs) <==> AllCounted(vs[..|vs| - 1]) && !vs[|vs| - 1].MissingKey?
  {
    var pre := vs[..|vs| - 1];
    if AllCounted(pre) && !vs[|vs| - 1].MissingKey? {
      forall j | 0 <= j < |vs| ensures !vs[j].MissingKey? {
        if j < |pre| {
          assert pre[j] == vs[j];
        }
      }
    }
    if AllCounted(vs) {
      forall j | 0 <= j < |pre| ensures !pre[j].MissingKey? {
        assert pre[j] == vs[j];
      }
    }
  }

  /** The cross-check goes through exactly when no lookup it makes fails. */
  lemma {:induction false} TallyAccepted(vs: seq<Verdict>)
    ensures Tallied(vs).Ok? <==> AllCounted(vs)
    decreases |vs|
  {
    if vs != [] {
      TallyAccepted(vs[..|vs| - 1]);
      AllCountedAppend(vs);
    }
  }

  /** The body of the loop over the BOM references: one reference judged and counted. */
  method TallyStep(items: Dict<Row>, pnp: Dict<Placement>, t: Tally, k: nat, ghost vs: seq<Verdict>)
      returns (r: Result<Tally, string>)
    requires Consistent(items) && k < |items.keys|
    requires vs == Verdicts(items, pnp, items.keys)
    requires Tallied(vs[..k]) == Ok(t)
    ensures r == Tallied(vs[..k + 1])
  {
    assert vs[..k + 1][..k] == vs[..k];
    VerdictsAt(items, pnp, items.keys, k);
    var ref := items.keys[k];
    var item := items.entries[ref];
    assert Tallied(vs[..k + 1]) == Count(t, Judge(ref, item, pnp));
    if "Quantity" !in item {
      return Err("Quantity");
    }
    if Contains(Lower(item["Quantity"]), "dnf") {
      var extra := t.extra;
      if ref in pnp.entries {
        extra := extra + [ref];
      }
      return Ok(t.(dnf := t.dnf + 1, extra := extra));
    }
    if ref !in pnp.entries {
      return Ok(t.(missing := t.missing + [ref]));
    }
    var placed := pnp.entries[ref];
    if "Footprint" !in item {
      return Err("Footprint");
    }
    var mismatches := t.mismatches;
    if item["Footprint"] != placed.footprint {
      mismatches := mismatches + [FootprintMismatch(ref, item["Footprint"], placed.footprint)];
    }
    if "Value" !in item {
      return Err("Value");
    }
    if item["Value"] != placed.value {
      mismatches := mismatches + [ValueMismatch(ref, item["Value"], placed.value)];
    }
    return Ok(t.(mismatches := mismatches));
  }

  /** The loop over the BOM references, in the order they were first listed. */
  method Reconcile(items: Dict<Row>, pnp: Dict<Placement>) returns (r: Result<Tally, string>)
    requires Consistent(items)
    ensures r == Tallied(Verdicts(items, pnp, items.keys))
  {
    ghost var vs := Verdicts(items, pnp, items.keys);
    var t := Tally(0, [], [], []);
    var k := 0;
    while k < |items.keys|
      invariant k <= |items.keys|
      invariant Tallied(vs[..k]) == Ok(t)
    {
      var next := TallyStep(items, pnp, t, k, vs);
      if next.Err? {
        TalliedStops(vs, k + 1);
        return next;
      }
      t := next.value;
      k := k + 1;
    }
    assert vs[..k] == vs;
    return Ok(t);
  }

  /** The placed references that the BOM does not list, in PNP order. */
  function Unlisted(keys: seq<string>, listed: map<string, Row>): seq<string>
    decreases |keys|
  {
    if keys == [] then []
    else
      var n := |keys| - 1;
      Unlisted(keys[..n], listed) + (if keys[n] in listed then [] else [keys[n]])
  }

  /** A reference is reported missing from the BOM exactly when it is placed and not listed. */
  lemma {:induction false} UnlistedExactly(keys: seq<string>, listed: map<string, Row>)
    ensures forall ref :: ref in Unlisted(keys, listed) <==> ref in keys && ref !in listed
    decreases |keys|
  {
    if keys != [] {
      var n := |keys| - 1;
      UnlistedExactly(keys[..n], listed);
      assert keys == keys[..n] + [keys[n]];
    }
  }

  /** The loop over the PNP references. */
  method ListUnlisted(pnp: Dict<Placement>, items: Dict<Row>) returns (missing: seq<string>)
    ensures missing == Unlisted(pnp.keys, items.entries)
  {
    missing := [];
    for k := 0 to |pnp.keys|
      invariant missing == Unlisted(pnp.keys[..k], items.entries)
    {
      assert pnp.keys[..k + 1][..k] == pnp.keys[..k];
      if pnp.keys[k] !in items.entries {
        missing := missing + [pnp.keys[k]];
      }
    }
    assert pnp.keys[..|pnp.keys|] == pnp.keys;
  }

  /** What the checker reports: the item counts, the not-fitted count and the two lists of issues. */
  datatype Report = Report(bomItems: nat, pnpItems: nat, dnf: nat, bomErrors: seq<Issue>, pnpErrors: seq<Issue>)

  /** The issues gathered: the BOM's own, then the summaries, each only when its list is not empty. */
  function ReportOf(bom: Bom, pnp: Dict<Placement>, t: Tally, unlisted: seq<string>): Report {
    Report(|bom.items.keys|, |pnp.keys|, t.dnf,
           bom.errors + (if unlisted != [] then [MissingFromBom(unlisted)] else []),
           t.mismatches
           + (if t.missing != [] then [MissingFromPnp(t.missing)] else [])
           + (if t.extra != [] then [DnfInPnp(t.extra)] else []))
  }

  /** The argument the script passes to `sys.exit`: the number of issues of both kinds. */
  function ExitStatus(r: Report): (n: nat)
    ensures n == 0 <==> r.bomErrors == [] && r.pnpErrors == []
  {
    |r.bomErrors| + |r.pnpErrors|
  }

  /**
   * The status the process ends with: a POSIX exit status keeps only the
   * low eight bits of the `sys.exit` argument.
   */
  function ProcessStatus(r: Report): (s: nat)
    ensures s < 256
    ensures ExitStatus(r) < 256 ==> s == ExitStatus(r)
    ensures ExitStatus(r) < 256 ==> (s == 0 <==> r.bomErrors == [] && r.pnpErrors == [])
  {
    ExitStatus(r) % 256
  }

  /** Reading goes on to the end when no row from `i` on is empty. */
  lemma {:induction false} NoEmptyRow(rows: seq<seq<string>>, i: nat)
    requires i <= |rows|
    requires forall j :: i <= j < |rows| ==> |rows[j]| != 0
    ensures FirstEmpty(rows, i) == |rows|
    decreases |rows| - i
  {
    if i < |rows| {
      NoEmptyRow(rows, i + 1);
    }
  }

  /** The BOM after one more row listing "R1" against quantity 0: "R1" stands for the row, and one quantity issue is added. */
  lemma AddMismatchRow(bom: Bom, data: Row)
    requires bom.items == Empty() || bom.items == Dict(["R1"], map["R1" := data])
    ensures AddRow(bom, Read(data, ["R1"], 0)) == Ok(Bom(Dict(["R1"], map["R1" := data]), bom.errors + [QuantityMismatch(["R1"], 0)]))
  {
    assert ["R1"][..0] == [];
    assert PutAll(bom.items, ["R1"], data) == Put(bom.items, "R1", data);
    if bom.items == Empty() {
      assert [] + ["R1"] == ["R1"];
    } else {
      assert bom.items.entries["R1" := data] == bom.items.entries;
    }
  }

  /**
   * Rows that all read as one reference "R1" with quantity 0 leave that
   * reference in the BOM and raise one quantity issue each.
   */
  lemma {:induction false} RepeatedMismatch(rs: seq<RowRead>, data: Row)
    requires forall k :: 0 <= k < |rs| ==> rs[k] == Read(data, ["R1"], 0)
    ensures ProcessRows(rs).Ok?
    ensures ProcessRows(rs).value.items == if rs == [] then Empty() else Dict(["R1"], map["R1" := data])
    ensures |ProcessRows(rs).value.errors| == |rs|
    ensures forall k :: 0 <= k < |rs| ==> ProcessRows(rs).value.errors[k] == QuantityMismatch(["R1"], 0)
    decreases |rs|
  {
    if rs != [] {
      var n := |rs| - 1;
      RepeatedMismatch(rs[..n], data);
      var bom := ProcessRows(rs[..n]).value;
      AddMismatchRow(bom, data);
      assert ProcessRows(rs) == AddRow(bom, rs[n]);
    }
  }

  /** The BOM file of a header row and `n` rows, each listing "R1" with quantity 0. */
  function MismatchBom(n: nat): (rows: seq<seq<string>>)
    ensures |rows| == n + 1
  {
    [["References", "Quantity"]] + seq(n, _ => ["R1", "0"])
  }

  /** The cells of a row listing "R1" with quantity "0" under the columns References and Quantity. */
  function MismatchData(): (data: Row)
    ensures "References" in data && data["References"] == "R1"
    ensures "Quantity" in data && data["Quantity"] == "0"
  {
    RowMap(["References", "Quantity"], ["R1", "0"])
  }

  /** Such a row reads as the one reference "R1" with quantity 0. */
  lemma MismatchRowRead()
    ensures ReadOf(["References", "Quantity"], ["R1", "0"]) == Read(MismatchData(), ["R1"], 0)
  {
    assert Quantity("0") == Some(0) by {
      StripFixed("0");
      SplitOnPlain("0", ' ');
      assert IsDecimal("0") && DecimalValue("0") == 0;
    }
    SplitOnPlain("R1", ' ');
  }

  /** Every data row of `MismatchBom(n)` is read, and reads as "R1" with quantity 0. */
  lemma MismatchBomReads(n: nat)
    ensures |DataReads(MismatchBom(n))| == n
    ensures forall k :: 0 <= k < n ==> DataReads(MismatchBom(n))[k] == Read(MismatchData(), ["R1"], 0)
  {
    var rows := MismatchBom(n);
    assert Headers(rows[0]) == ["References", "Quantity"] by {
      assert !StartsWith("References", "Quantity") by {
        assert "References"[0] != "Quantity"[0];
      }
    }
    NoEmptyRow(rows, 1);
    MismatchRowRead();
    forall k | 0 <= k < n
      ensures DataReads(rows)[k] == Read(MismatchData(), ["R1"], 0)
    {
      DataReadsAt(rows, k);
      assert rows[1 + k] == ["R1", "0"];
    }
  }

  /** `MismatchBom(n)` is read without error: "R1" is its one reference, and every row raised a quantity issue. */
  lemma MismatchBomParsed(n: nat)
    requires n > 0
    ensures ParseBom(MismatchBom(n)).Ok?
    ensures ParseBom(MismatchBom(n)).value.items == Dict(["R1"], map["R1" := MismatchData()])
    ensures |ParseBom(MismatchBom(n)).value.errors| == n
    ensures forall k :: 0 <= k < n ==> ParseBom(MismatchBom(n)).value.errors[k] == QuantityMismatch(["R1"], 0)
  {
    MismatchBomReads(n);
    RepeatedMismatch(DataReads(MismatchBom(n)), MismatchData());
  }

  /** "R1" with quantity "0" is fitted, and unplaced against an empty PNP file. */
  lemma JudgeMismatch()
    ensures Judge("R1", MismatchData(), Empty()) == Unplaced("R1")
  {
    assert !Contains(Lower("0"), "dnf");
  }

  /** The tally of that one verdict: "R1" is missing from the PNP file, and nothing else is counted. */
  lemma TallyUnplaced()
    ensures Tallied([Unplaced("R1")]) == Ok(Tally(0, [], ["R1"], []))
  {
    assert [Unplaced("R1")][..0] == [];
    var t := Tally(0, [], [], []);
    assert Tallied([]) == Ok(t);
    assert t.missing + ["R1"] == ["R1"];
  }

  /** Cross-checking that BOM against an empty PNP file finds "R1" fitted and unplaced. */
  lemma MismatchTally(items: Dict<Row>)
    requires items == Dict(["R1"], map["R1" := MismatchData()])
    ensures Tallied(Verdicts(items, Empty(), items.keys)) == Ok(Tally(0, [], ["R1"], []))
  {
    JudgeMismatch();
    assert ["R1"][..0] == [];
    assert Verdicts(items, Empty(), items.keys) == [Unplaced("R1")];
    TallyUnplaced();
  }

  /** Against an empty PNP file, `MismatchBom(n)` yields n quantity issues and one missing-from-PNP issue. */
  lemma MismatchBomOutcome(n: nat)
    requires n > 0
    ensures Outcome([], MismatchBom(n)).Ok?
    ensures |Outcome([], MismatchBom(n)).value.bomErrors| == n
    ensures forall k :: 0 <= k < n ==> Outcome([], MismatchBom(n)).value.bomErrors[k] == QuantityMismatch(["R1"], 0)
    ensures Outcome([], MismatchBom(n)).value.pnpErrors == [MissingFromPnp(["R1"])]
    ensures ExitStatus(Outcome([], MismatchBom(n)).value) == n + 1
  {
    assert ParsePnp([]) == Ok(Empty());
    MismatchBomParsed(n);
    var bom := ParseBom(MismatchBom(n)).value;
    MismatchTally(bom.items);
    assert Unlisted([], bom.items.entries) == [];
    var r := ReportOf(bom, Empty(), Tally(0, [], ["R1"], []), []);
    assert Outcome([], MismatchBom(n)) == Ok(r);
    assert r.bomErrors == bom.errors;
  }

  /**
   * With 256 issues the status wraps around to 0, the status of a clean run:
   * an empty PNP file and a BOM of 255 rows that each list one reference
   * against a quantity of 0 give 255 quantity issues and one reference
   * missing from the PNP file.
   */
  lemma WrappedStatusLooksClean()
    ensures Outcome([], MismatchBom(255)).Ok?
    ensures Outcome([], MismatchBom(255)).value.bomErrors != []
    ensures ExitStatus(Outcome([], MismatchBom(255)).value) == 256
    ensures ProcessStatus(Outcome([], MismatchBom(255)).value) == 0
  {
    MismatchBomOutcome(255);
  }

  /** The status the script evidently means to give: the issue count, held at 255 so that it never wraps to 0. */
  function SaturatedStatus(r: Report): (s: nat)
    ensures s < 256
    ensures ExitStatus(r) < 256 ==> s == ProcessStatus(r)
    ensures s == 0 <==> r.bomErrors == [] && r.pnpErrors == []
  {
    if ExitStatus(r) < 256 then ExitStatus(r) else 255
  }

  /** A reference the cross-check finds nothing wrong with. */
  predicate Agrees(v: Verdict) {
    || (v.NotFitted? && !v.placed)
    || (v.Placed? && v.footprint == v.pnpFootprint && v.value == v.pnpValue)
  }

  /** A reference that does not agree shows up in one of the lists. */
  lemma DisagreementRaised(vs: seq<Verdict>, j: nat)
    requires Tallied(vs).Ok? && j < |vs|
    ensures !Agrees(vs[j]) ==> Tallied(vs).value.extra != [] || Tallied(vs).value.missing != [] || Tallied(vs).value.mismatches != []
  {
    var t := Tallied(vs).value;
    var v := vs[j];
    if Agrees(v) {
      return;
    }
    TallyAccepted(vs);
    assert !v.MissingKey?;
    TallyGroups(vs);
    if v.NotFitted? {
      MembersExactly(vs, DnfPlaced);
      assert HasMember(vs, DnfPlaced, v.ref);
      assert v.ref in t.extra;
    } else if v.Unplaced? {
      MembersExactly(vs, NotPlaced);
      assert HasMember(vs, NotPlaced, v.ref);
      assert v.ref in t.missing;
    } else {
      TallyMismatches(vs);
      var issue := if v.footprint != v.pnpFootprint then FootprintMismatch(v.ref, v.footprint, v.pnpFootprint)
                   else ValueMismatch(v.ref, v.value, v.pnpValue);
      assert Disagrees(v, issue);
      assert SomeDisagrees(vs, issue);
      assert issue in t.mismatches;
    }
  }

  /** Whatever the lists hold comes from a reference that does not agree. */
  lemma RaisedDisagrees(vs: seq<Verdict>)
    requires Tallied(vs).Ok?
    ensures (Tallied(vs).value.extra != [] || Tallied(vs).value.missing != [] || Tallied(vs).value.mismatches != [])
            ==> exists j :: 0 <= j < |vs| && !Agrees(vs[j])
  {
    var t := Tallied(vs).value;
    TallyGroups(vs);
    if t.extra != [] {
      MembersExactly(vs, DnfPlaced);
      assert HasMember(vs, DnfPlaced, t.extra[0]);
    } else if t.missing != [] {
      MembersExactly(vs, NotPlaced);
      assert HasMember(vs, NotPlaced, t.missing[0]);
    } else if t.mismatches != [] {
      TallyMismatches(vs);
      assert SomeDisagrees(vs, t.mismatches[0]);
    }
  }

  /** The tally raises nothing exactly when every reference agrees. */
  lemma TallyClean(vs: seq<Verdict>)
    requires Tallied(vs).Ok?
    ensures (Tallied(vs).value.extra == [] && Tallied(vs).value.missing == [] && Tallied(vs).value.mismatches == [])
            <==> forall j :: 0 <= j < |vs| ==> Agrees(vs[j])
  {
    var t := Tallied(vs).value;
    forall j | 0 <= j < |vs| ensures !Agrees(vs[j]) ==> t.extra != [] || t.missing != [] || t.mismatches != [] {
      DisagreementRaised(vs, j);
    }
    RaisedDisagrees(vs);
  }

  /** Why a check stops before its report: a bad PNP file, a bad BOM file, or a column the cross-check looks up and a row lacks. */
  datatype Failure = PnpFailed(pnpError: PnpError) | BomFailed(bomError: BomError) | KeyMissing(column: string)

  /** The whole check on the lines of the PNP file and the rows of the BOM file. */
  function Outcome(lines: seq<string>, rows: seq<seq<string>>): Result<Report, Failure> {
    match ParsePnp(lines)
    case Err(e) => Err(PnpFailed(e))
    case Ok(pnp) =>
      match ParseBom(rows)
      case Err(e) => Err(BomFailed(e))
      case Ok(bom) =>
        match Tallied(Verdicts(bom.items, pnp, bom.items.keys))
        case Err(column) => Err(KeyMissing(column))
        case Ok(t) => Ok(ReportOf(bom, pnp, t, Unlisted(pnp.keys, bom.items.entries)))
  }

  /** The checker: the PNP file read first, then the BOM, then the cross-check both ways. */
  method Check(lines: seq<string>, rows: seq<seq<string>>) returns (r: Result<Report, Failure>)
    ensures r == Outcome(lines, rows)
  {
    var pnp := ReadPnp(lines);
    if pnp.Err? {
      return Err(PnpFailed(pnp.error));
    }
    var bom := ReadBom(rows);
    if bom.Err? {
      return Err(BomFailed(bom.error));
    }
    var tally := Reconcile(bom.value.items, pnp.value);
    if tally.Err? {
      return Err(KeyMissing(tally.error));
    }
    var unlisted := ListUnlisted(pnp.value, bom.value.items);
    return Ok(ReportOf(bom.value, pnp.value, tally.value, unlisted));
  }

  /** Every listed reference agrees with its placement. */
  predicate AllAgree(items: Dict<Row>, pnp: Dict<Placement>) {
    forall ref :: ref in items.entries ==> Agrees(Judge(ref, items.entries[ref], pnp))
  }

  lemma VerdictsAgree(items: Dict<Row>, pnp: Dict<Placement>)
    requires Consistent(items)
    ensures (forall j :: 0 <= j < |items.keys| ==> Agrees(Verdicts(items, pnp, items.keys)[j])) <==> AllAgree(items, pnp)
  {
    var vs := Verdicts(items, pnp, items.keys);
    if forall j :: 0 <= j < |items.keys| ==> Agrees(vs[j]) {
      forall ref | ref in items.entries ensures Agrees(Judge(ref, items.entries[ref], pnp)) {
        assert ref in items.keys;
        var j :| 0 <= j < |items.keys| && items.keys[j] == ref;
        VerdictsAt(items, pnp, items.keys, j);
        assert Agrees(vs[j]);
      }
      assert AllAgree(items, pnp);
    } else {
      var j :| 0 <= j < |items.keys| && !Agrees(vs[j]);
      VerdictsAt(items, pnp, items.keys, j);
      assert items.keys[j] in items.entries;
    }
  }

  /**
   * The report of a cross-check that went through has no issue exactly when
   * the BOM raised none, every placed part is listed, and every listed part
   * agrees with its placement.
   */
  lemma ReportClean(bom: Bom, pnp: Dict<Placement>)
    requires Consistent(bom.items)
    requires Tallied(Verdicts(bom.items, pnp, bom.items.keys)).Ok?
    ensures ExitStatus(ReportOf(bom, pnp, Tallied(Verdicts(bom.items, pnp, bom.items.keys)).value, Unlisted(pnp.keys, bom.items.entries))) == 0
            <==> bom.errors == [] && (forall ref :: ref in pnp.keys ==> ref in bom.items.entries) && AllAgree(bom.items, pnp)
  {
    var vs := Verdicts(bom.items, pnp, bom.items.keys);
    var unlisted := Unlisted(pnp.keys, bom.items.entries);
    UnlistedExactly(pnp.keys, bom.items.entries);
    TallyClean(vs);
    VerdictsAgree(bom.items, pnp);
    if unlisted != [] {
      assert unlisted[0] in unlisted;
    }
  }

  /**
   * The exit status is zero exactly when the BOM raised no quantity issue,
   * every placed part is listed in the BOM, and every listed part is either
   * not fitted and not placed, or placed with the BOM's footprint and value.
   */
  lemma CleanExit(lines: seq<string>, rows: seq<seq<string>>)
    requires Outcome(lines, rows).Ok?
    ensures var pnp := ParsePnp(lines).value;
            var bom := ParseBom(rows).value;
            ExitStatus(Outcome(lines, rows).value) == 0
            <==> bom.errors == [] && (forall ref :: ref in pnp.keys ==> ref in bom.items.entries) && AllAgree(bom.items, pnp)
  {
    var pnp := ParsePnp(lines).value;
    var bom := ParseBom(rows).value;
    ReportClean(bom, pnp);
  }

  /**
   * What the process status tells a caller: the saturated status is 0
   * exactly when the files agree; the status as written does so only while
   * there are fewer than 256 issues.
   */
  lemma CleanProcessExit(lines: seq<string>, rows: seq<seq<string>>)
    requires Outcome(lines, rows).Ok?
    ensures var pnp := ParsePnp(lines).value;
            var bom := ParseBom(rows).value;
            var agree := bom.errors == [] && (forall ref :: ref in pnp.keys ==> ref in bom.items.entries) && AllAgree(bom.items, pnp);
            && (SaturatedStatus(Outcome(lines, rows).value) == 0 <==> agree)
            && (ExitStatus(Outcome(lines, rows).value) < 256 ==> (ProcessStatus(Outcome(lines, rows).value) == 0 <==> agree))
  {
    CleanExit(lines, rows);
  }
}
