/** The CSV/TSV sheet parser: line endings are normalised to CRLF, then a
    character-level state machine builds cells and rows and stores each row
    under its first cell. Quoting loosely follows section 2 of RFC 4180,
    except that `""` is always read as one literal quote, inside or outside
    a quoted cell. */
module CsvParsing {
  import opened Common

  /** `Regex.Replace(data, "\r\n|\r|\n", "\r\n")`: scanning left to right,
      a CRLF pair is kept as one match, and a lone CR or LF becomes CRLF. */
  function ToCrlf(s: string): string
  {
    if s == [] then []
    else if s[0] == '\r' && |s| > 1 && s[1] == '\n' then "\r\n" + ToCrlf(s[2..])
    else if s[0] == '\r' || s[0] == '\n' then "\r\n" + ToCrlf(s[1..])
    else [s[0]] + ToCrlf(s[1..])
  }

  /** Every CR is followed by LF and every LF follows a CR. */
  predicate IsCrlfNormal(s: string)
  {
    (forall i :: 0 <= i < |s| && s[i] == '\r' ==> i + 1 < |s| && s[i + 1] == '\n') &&
    (forall i :: 0 <= i < |s| && s[i] == '\n' ==> 0 < i && s[i - 1] == '\r')
  }

  /** The parser's working state: the sheet so far, the row being built, the
      cell being built, and whether a quoted cell is open. */
  datatype ScanState = ScanState(sheet: map<string, seq<string>>, row: seq<string>, cell: string, inQuote: bool)

  const Start: ScanState := ScanState(map[], [], "", false)

  /** `AddCell`: the cell text is appended to the row and the cell cleared. */
  function AddCell(row: seq<string>, cell: string): (result: (seq<string>, string))
    ensures |result.0| == |row| + 1 && result.0[..|row|] == row && result.0[|row|] == cell
    ensures result.1 == ""
  {
    (row + [cell], "")
  }

  /** `AddRow`: the row is stored under its first cell with the remaining
      cells as value, unless that key is already present, in which case the
      row is dropped. Either way a fresh empty row follows. */
  function AddRow(sheet: map<string, seq<string>>, row: seq<string>): (result: (map<string, seq<string>>, seq<string>))
    requires |row| > 0
    ensures row[0] in result.0
    ensures row[0] in sheet ==> result.0 == sheet
    ensures row[0] !in sheet ==> result.0[row[0]] == row[1..]
    ensures forall k :: k != row[0] ==> (k in result.0 <==> k in sheet)
    ensures forall k :: k in sheet ==> k in result.0 && result.0[k] == sheet[k]
    ensures result.1 == []
  {
    var code := row[0];
    (if code in sheet then sheet else sheet[code := row[1..]], [])
  }

  /** The state after closing the current cell. */
  function CloseCell(st: ScanState): ScanState
  {
    var (row, cell) := AddCell(st.row, st.cell);
    st.(row := row, cell := cell)
  }

  /** The state after closing the current cell and then the row. */
  function CloseRow(st: ScanState): ScanState
  {
    var st' := CloseCell(st);
    var (sheet, row) := AddRow(st'.sheet, st'.row);
    st'.(sheet := sheet, row := row)
  }

  /** One pass of the loop body on the unread input `rest`: the new state
      and how many characters it consumes. The branches are tried in the
      source's order: delimiter, CRLF, two quotes, one quote, anything else. */
  function Step(rest: string, delimiter: char, st: ScanState): (result: (ScanState, nat))
    requires |rest| > 0
    ensures result.1 == 1 || (result.1 == 2 && |rest| >= 2)
  {
    var two := |rest| >= 2;
    if rest[0] == delimiter then
      (if st.inQuote then st.(cell := st.cell + [delimiter]) else CloseCell(st), 1)
    else if two && rest[0] == '\r' && rest[1] == '\n' then
      (if st.inQuote then st.(cell := st.cell + "\r\n") else CloseRow(st), 2)
    else if two && rest[0] == '"' && rest[1] == '"' then
      (st.(cell := st.cell + "\""), 2)
    else if rest[0] == '"' then
      (st.(inQuote := !st.inQuote), 1)
    else
      (st.(cell := st.cell + [rest[0]]), 1)
  }

  /** The state machine run over all of `rest`. */
  function Scan(rest: string, delimiter: char, st: ScanState): ScanState
    decreases |rest|
  {
    if rest == [] then st
    else
      var (st', n) := Step(rest, delimiter, st);
      Scan(rest[n..], delimiter, st')
  }

  /** After the loop, a row that already holds a cell is completed with the
      pending cell and stored; otherwise the pending cell is dropped. */
  function Finish(st: ScanState): map<string, seq<string>>
  {
    if |st.row| > 0 then CloseRow(st).sheet else st.sheet
  }

  /** Finishing keeps every stored row; a row holding a cell is stored under
      its first cell, unless that key is taken, with the pending cell as its
      last value; an empty row stores nothing. */
  lemma FinishStoresPendingRow(st: ScanState)
    ensures var sheet := Finish(st);
            (forall k :: k in st.sheet ==> k in sheet && sheet[k] == st.sheet[k]) &&
            (|st.row| == 0 ==> sheet == st.sheet) &&
            (|st.row| > 0 ==> sheet.Keys == st.sheet.Keys + {st.row[0]}) &&
            (|st.row| > 0 && st.row[0] !in st.sheet ==> sheet[st.row[0]] == st.row[1..] + [st.cell])
  {
  }

  /** What `Parse` returns. */
  function ParseSpec(data: string, delimiter: char): map<string, seq<string>>
  {
    Finish(Scan(ToCrlf(data), delimiter, Start))
  }

  /** `Parse`: the loop over the normalised data, advancing `start` by one or
      two characters per pass. */
  method Parse(input: string, delimiter: char) returns (sheet: map<string, seq<string>>)
    ensures sheet == ParseSpec(input, delimiter)
  {
    var data := ToCrlf(input);
    sheet := map[];
    var row: seq<string> := [];
    var cell := "";
    var insideQuoteCell := false;
    var start := 0;
    while start < |data|
      invariant 0 <= start <= |data|
      invariant Scan(data[start..], delimiter, ScanState(sheet, row, cell, insideQuoteCell))
             == Scan(data, delimiter, Start)
      decreases |data| - start
    {
      ghost var before, from := ScanState(sheet, row, cell, insideQuoteCell), start;
      sheet, row, cell, insideQuoteCell, start := Advance(data, start, delimiter, sheet, row, cell, insideQuoteCell);
      ScanAdvance(data, from, start, delimiter, before, ScanState(sheet, row, cell, insideQuoteCell));
    }
    assert data[start..] == [];
    if |row| > 0 {
      var added := AddCell(row, cell);
      row, cell := added.0, added.1;
      var stored := AddRow(sheet, row);
      sheet, row := stored.0, stored.1;
    }
  }

  /** One pass of `Parse`'s loop at index `start`: what `Step` computes on
      the rest of the data. */
  method Advance(data: string, start: nat, delimiter: char, sheet: map<string, seq<string>>, row: seq<string>,
                 cell: string, insideQuoteCell: bool)
    returns (sheet': map<string, seq<string>>, row': seq<string>, cell': string, insideQuoteCell': bool, start': nat)
    requires start < |data|
    ensures Step(data[start..], delimiter, ScanState(sheet, row, cell, insideQuoteCell))
         == (ScanState(sheet', row', cell', insideQuoteCell'), start' - start)
    ensures start < start' <= |data|
  {
    var length := if start <= |data| - 2 then 2 else 1;
    ScanUnfold(data, start, delimiter, ScanState(sheet, row, cell, insideQuoteCell));
    sheet', row', cell', insideQuoteCell' := sheet, row, cell, insideQuoteCell;
    if data[start] == delimiter {
      if insideQuoteCell {
        cell' := cell + [delimiter];
      } else {
        var added := AddCell(row, cell);
        row', cell' := added.0, added.1;
      }
      start' := start + 1;
    } else if length == 2 && data[start] == '\r' && data[start + 1] == '\n' {
      if insideQuoteCell {
        cell' := cell + "\r\n";
      } else {
        var added := AddCell(row, cell);
        var stored := AddRow(sheet, added.0);
        sheet', row', cell' := stored.0, stored.1, added.1;
      }
      start' := start + 2;
    } else if length == 2 && data[start] == '"' && data[start + 1] == '"' {
      cell' := cell + "\"";
      start' := start + 2;
    } else if data[start] == '"' {
      insideQuoteCell' := !insideQuoteCell;
      start' := start + 1;
    } else {
      cell' := cell + [data[start]];
      start' := start + 1;
    }
  }

  /** Scanning from `from` is scanning from where one step leads. */
  lemma ScanAdvance(data: string, from: nat, to: nat, delimiter: char, st: ScanState, st': ScanState)
    requires from < to <= |data|
    requires Step(data[from..], delimiter, st) == (st', to - from)
    ensures Scan(data[from..], delimiter, st) == Scan(data[to..], delimiter, st')
  {
    ScanUnfold(data, from, delimiter, st);
  }

  /** One step of the loop, read at index `start` of the whole input. */
  lemma ScanUnfold(data: string, start: nat, delimiter: char, st: ScanState)
    requires start < |data|
    ensures var rest := data[start..];
            rest[0] == data[start] &&
            (|rest| >= 2 <==> start <= |data| - 2) &&
            (start <= |data| - 2 ==> rest[1] == data[start + 1])
    ensures var (st', n) := Step(data[start..], delimiter, st);
            Scan(data[start..], delimiter, st) == Scan(data[start + n..], delimiter, st')
  {
    var (st', n) := Step(data[start..], delimiter, st);
    assert data[start..][n..] == data[start + n..];
  }

  /** `EstimateDelimiter`, given the file extension: ".csv" gives a comma and
      ".tsv" a tab, in any letter case; anything else throws. */
  function EstimateDelimiter(extension: string): (d: Result<char>)
    ensures d.Success? <==> EqualsIgnoreCase(extension, ".csv") || EqualsIgnoreCase(extension, ".tsv")
    ensures EqualsIgnoreCase(extension, ".csv") ==> d == Success(',')
    ensures EqualsIgnoreCase(extension, ".tsv") ==> d == Success('\t')
  {
    ExtensionsDistinct(extension);
    if EqualsIgnoreCase(extension, ".csv") then Success(',')
    else if EqualsIgnoreCase(extension, ".tsv") then Success('\t')
    else Failure(Failed("Delimiter estimation failed. Unknown Extension: " + extension))
  }

  lemma ExtensionsDistinct(extension: string)
    ensures !(EqualsIgnoreCase(extension, ".csv") && EqualsIgnoreCase(extension, ".tsv"))
  {
    if |extension| == 4 {
      var u := Upper(extension[1]);
      assert Upper(".csv"[1]) == 'C' && Upper(".tsv"[1]) == 'T';
    }
  }

  function Upper(c: char): char
  {
    if 'a' <= c <= 'z' then (c as int - 32) as char else c
  }

  /** Ordinal case-insensitive equality, over ASCII letters. */
  predicate EqualsIgnoreCase(a: string, b: string)
  {
    |a| == |b| && forall i :: 0 <= i < |a| ==> Upper(a[i]) == Upper(b[i])
  }

  // ---------------------------------------------------------------------
  // Line endings

  lemma {:induction false} ToCrlfIsNormal(s: string)
    ensures IsCrlfNormal(ToCrlf(s))
    ensures ToCrlf(s) == [] <==> s == []
    ensures s != [] && s[0] != '\r' && s[0] != '\n' ==> ToCrlf(s)[0] == s[0]
    ensures s != [] && (s[0] == '\r' || s[0] == '\n') ==> ToCrlf(s)[0] == '\r'
    decreases |s|
  {
    if s == [] {
    } else if s[0] == '\r' && |s| > 1 && s[1] == '\n' {
      ToCrlfIsNormal(s[2..]);
      CrlfPrefixIsNormal(ToCrlf(s[2..]));
    } else if s[0] == '\r' || s[0] == '\n' {
      ToCrlfIsNormal(s[1..]);
      CrlfPrefixIsNormal(ToCrlf(s[1..]));
    } else {
      var t := ToCrlf(s[1..]);
      ToCrlfIsNormal(s[1..]);
      assert ToCrlf(s) == [s[0]] + t;
      forall i | 0 <= i < |t| + 1 && ([s[0]] + t)[i] == '\n'
        ensures 0 < i && ([s[0]] + t)[i - 1] == '\r'
      {
        assert i > 0 && t[i - 1] == '\n';
        if i == 1 {
          assert false;
        }
      }
    }
  }

  lemma CrlfPrefixIsNormal(t: string)
    requires IsCrlfNormal(t)
    requires t == [] || t[0] != '\n'
    ensures IsCrlfNormal("\r\n" + t)
  {
    var u := "\r\n" + t;
    forall i | 0 <= i < |u| && u[i] == '\n' ensures 0 < i && u[i - 1] == '\r'
    {
      if i >= 2 {
        assert u[i] == t[i - 2];
      }
    }
  }

  /** Normalising twice is normalising once. */
  lemma {:induction false} ToCrlfIdempotent(s: string)
    ensures ToCrlf(ToCrlf(s)) == ToCrlf(s)
    decreases |s|
  {
    if s == [] {
    } else if s[0] == '\r' && |s| > 1 && s[1] == '\n' {
      ToCrlfIdempotent(s[2..]);
      CrlfPrefix(ToCrlf(s[2..]));
    } else if s[0] == '\r' || s[0] == '\n' {
      ToCrlfIdempotent(s[1..]);
      CrlfPrefix(ToCrlf(s[1..]));
    } else {
      ToCrlfIdempotent(s[1..]);
      PlainPrefix([s[0]], ToCrlf(s[1..]));
    }
  }

  /** Normalising never shortens the text and at most doubles it (each lone
      CR or LF becomes two characters). */
  lemma {:induction false} ToCrlfLength(s: string)
    ensures |s| <= |ToCrlf(s)| <= 2 * |s|
    decreases |s|
  {
    if s != [] {
      ToCrlfUnfold(s);
      ToCrlfLength(s[FirstStep(s)..]);
    }
  }

  lemma CrlfPrefix(t: string)
    ensures ToCrlf("\r\n" + t) == "\r\n" + ToCrlf(t)
  {
    assert ("\r\n" + t)[2..] == t;
  }

  /** A string without CR or LF. */
  predicate NoBreaks(s: string)
  {
    forall i :: 0 <= i < |s| ==> s[i] != '\r' && s[i] != '\n'
  }

  /** A prefix without line breaks passes through unchanged. */
  lemma {:induction false} PlainPrefix(p: string, t: string)
    requires NoBreaks(p)
    ensures ToCrlf(p + t) == p + ToCrlf(t)
    decreases |p|
  {
    if p != [] {
      assert (p + t)[1..] == p[1..] + t;
      PlainPrefix(p[1..], t);
      assert p == [p[0]] + p[1..];
    } else {
      assert p + t == t;
    }
  }

  // ---------------------------------------------------------------------
  // The state machine on runs of ordinary characters

  /** A delimiter that is not one of the characters with a meaning of their
      own (CR, LF, the quote), as for the comma and tab the extensions map to. */
  predicate IsSeparator(delimiter: char)
  {
    delimiter != '\r' && delimiter != '\n' && delimiter != '"'
  }

  /** Characters that take the state machine's last branch. */
  predicate Plain(s: string, delimiter: char)
  {
    forall i :: 0 <= i < |s| ==> s[i] != delimiter && s[i] != '"' && s[i] != '\r' && s[i] != '\n'
  }

  /** A run of ordinary characters is appended to the cell as it is. */
  lemma {:induction false} ScanPlain(p: string, t: string, delimiter: char, st: ScanState)
    requires Plain(p, delimiter)
    ensures Scan(p + t, delimiter, st) == Scan(t, delimiter, st.(cell := st.cell + p))
    decreases |p|
  {
    if p == [] {
      assert p + t == t;
      assert st.cell + p == st.cell;
    } else {
      assert (p + t)[1..] == p[1..] + t;
      assert Step(p + t, delimiter, st) == (st.(cell := st.cell + [p[0]]), 1);
      ScanPlain(p[1..], t, delimiter, st.(cell := st.cell + [p[0]]));
      assert st.cell + [p[0]] + p[1..] == st.cell + p;
    }
  }

  /** Outside quotes the delimiter closes the cell; inside quotes it is text. */
  lemma ScanDelimiter(t: string, delimiter: char, st: ScanState)
    ensures Scan([delimiter] + t, delimiter, st)
         == Scan(t, delimiter, if st.inQuote then st.(cell := st.cell + [delimiter]) else CloseCell(st))
  {
    assert ([delimiter] + t)[1..] == t;
  }

  /** Outside quotes CRLF closes the cell and the row; inside quotes it is
      text. */
  lemma ScanCrlf(t: string, delimiter: char, st: ScanState)
    requires delimiter != '\r'
    ensures Scan("\r\n" + t, delimiter, st)
         == Scan(t, delimiter, if st.inQuote then st.(cell := st.cell + "\r\n") else CloseRow(st))
  {
    assert ("\r\n" + t)[2..] == t;
  }

  /** Two quotes append one literal quote and leave the quote state as it
      is, whether or not a quoted cell is open. */
  lemma ScanTwoQuotes(t: string, delimiter: char, st: ScanState)
    requires delimiter != '"'
    ensures Scan("\"\"" + t, delimiter, st) == Scan(t, delimiter, st.(cell := st.cell + "\""))
  {
    assert ("\"\"" + t)[2..] == t;
  }

  /** A single quote (one not followed by another) toggles the quote state
      and adds nothing. */
  lemma ScanOneQuote(t: string, delimiter: char, st: ScanState)
    requires delimiter != '"'
    requires t == [] || t[0] != '"'
    ensures Scan("\"" + t, delimiter, st) == Scan(t, delimiter, st.(inQuote := !st.inQuote))
  {
    assert ("\"" + t)[1..] == t;
  }

  // ---------------------------------------------------------------------
  // Whole-input consequences

  lemma PlainHasNoBreaks(s: string, delimiter: char)
    requires Plain(s, delimiter)
    ensures NoBreaks(s)
  {
  }

  /** Normalisation leaves `key<d>value` in front of the rest untouched. */
  lemma ToCrlfKeyValue(key: string, value: string, t: string, delimiter: char)
    requires Plain(key, delimiter) && Plain(value, delimiter) && IsSeparator(delimiter)
    ensures ToCrlf(key + ([delimiter] + (value + t))) == key + ([delimiter] + (value + ToCrlf(t)))
  {
    PlainHasNoBreaks(key, delimiter);
    PlainHasNoBreaks(value, delimiter);
    PlainPrefix(key, [delimiter] + (value + t));
    PlainPrefix([delimiter], value + t);
    PlainPrefix(value, t);
  }

  /** Scanning `key<d>value` outside quotes with an empty pending cell:
      `key` becomes the next cell of the row and `value` the pending cell. */
  lemma ScanKeyValue(key: string, value: string, t: string, delimiter: char, st: ScanState)
    requires Plain(key, delimiter) && Plain(value, delimiter) && IsSeparator(delimiter)
    requires st.cell == "" && !st.inQuote
    ensures Scan(key + ([delimiter] + (value + t)), delimiter, st)
         == Scan(t, delimiter, st.(row := st.row + [key], cell := value))
  {
    ScanPlain(key, [delimiter] + (value + t), delimiter, st);
    var st1 := st.(cell := key);
    assert st.cell + key == key;
    ScanDelimiter(value + t, delimiter, st1);
    var st2 := CloseCell(st1);
    assert st2 == st.(row := st.row + [key], cell := "");
    ScanPlain(value, t, delimiter, st2);
    assert st2.cell + value == value;
  }

  /** Empty input gives an empty sheet. */
  lemma ParseEmpty(delimiter: char)
    ensures ParseSpec("", delimiter) == map[]
  {
  }

  /** The input read so far ends with a line feed (or is empty), and the
      state machine stands at the start of a row: outside quotes, with no
      pending cell and an empty pending row. */
  predicate AtLineStart(p: string, delimiter: char)
  {
    (p == [] || p[|p| - 1] == '\n') &&
    var st := Scan(ToCrlf(p), delimiter, Start);
    st.row == [] && st.cell == "" && !st.inQuote
  }

  /** How many characters the first step of `ToCrlf` consumes, and what
      it emits. */
  function FirstStep(s: string): nat
    requires s != []
  {
    if s[0] == '\r' && |s| > 1 && s[1] == '\n' then 2 else 1
  }

  function FirstOut(s: string): string
    requires s != []
  {
    if s[0] == '\r' || s[0] == '\n' then "\r\n" else [s[0]]
  }

  lemma ToCrlfUnfold(s: string)
    requires s != []
    ensures FirstStep(s) <= |s|
    ensures ToCrlf(s) == FirstOut(s) + ToCrlf(s[FirstStep(s)..])
  {
  }

  /** After a prefix ending in a line feed, the first step does not look
      past the prefix, and what remains still ends in a line feed. */
  lemma FirstStepOfPrefix(p: string, s: string)
    requires p != [] && p[|p| - 1] == '\n'
    ensures FirstStep(p + s) == FirstStep(p) && FirstOut(p + s) == FirstOut(p)
    ensures var rest := p[FirstStep(p)..];
            (p + s)[FirstStep(p)..] == rest + s && (rest == [] || rest[|rest| - 1] == '\n')
  {
    assert (p + s)[0] == p[0];
    if |p| > 1 {
      assert (p + s)[1] == p[1];
    }
    assert (p + s)[FirstStep(p)..] == p[FirstStep(p)..] + s;
  }

  lemma ConcatAssociative(a: string, b: string, c: string)
    ensures a + (b + c) == (a + b) + c
  {
  }

  /** Normalisation splits after a line feed: the two parts are
      normalised independently. */
  lemma {:induction false} ToCrlfAppend(p: string, s: string)
    requires p == [] || p[|p| - 1] == '\n'
    ensures ToCrlf(p + s) == ToCrlf(p) + ToCrlf(s)
    decreases |p|
  {
    if p == [] {
      assert p + s == s;
    } else {
      FirstStepOfPrefix(p, s);
      ToCrlfUnfold(p + s);
      ToCrlfUnfold(p);
      ToCrlfAppend(p[FirstStep(p)..], s);
      ConcatAssociative(FirstOut(p), ToCrlf(p[FirstStep(p)..]), ToCrlf(s));
    }
  }

  /** A non-empty text ending in a line feed is normalised to one ending in
      CRLF. */
  lemma {:induction false} ToCrlfEndsInCrlf(p: string)
    requires p != [] && p[|p| - 1] == '\n'
    ensures var t := ToCrlf(p); |t| >= 2 && t[|t| - 2] == '\r' && t[|t| - 1] == '\n'
    decreases |p|
  {
    ToCrlfUnfold(p);
    var rest := p[FirstStep(p)..];
    if rest != [] {
      assert rest[|rest| - 1] == p[|p| - 1];
      ToCrlfEndsInCrlf(rest);
    } else {
      assert FirstOut(p) == "\r\n";
    }
  }

  /** Scanning across a CRLF boundary: the state machine reads the first
      part to its end, then continues with the second. */
  lemma {:induction false} ScanAppend(a: string, b: string, delimiter: char, st: ScanState)
    requires IsSeparator(delimiter)
    requires a == [] || (|a| >= 2 && a[|a| - 2] == '\r' && a[|a| - 1] == '\n')
    ensures Scan(a + b, delimiter, st) == Scan(b, delimiter, Scan(a, delimiter, st))
    decreases |a|
  {
    if a == [] {
      assert a + b == b;
    } else {
      var ab := a + b;
      assert ab[0] == a[0] && ab[1] == a[1];
      var (st', n) := Step(a, delimiter, st);
      assert Step(ab, delimiter, st) == (st', n);
      assert ab[n..] == a[n..] + b;
      if |a| == 2 {
        assert n == 2;
      } else if |a| == 3 {
        assert a[1] == '\r';
        assert n == 1;
      }
      ScanAppend(a[n..], b, delimiter, st');
    }
  }

  /** A last line with no delimiter and no line break never reaches the
      sheet, whatever lines precede it: the pending row is still empty when
      the input ends, so the pending cell is dropped. */
  lemma ParseDropsLoneCell(p: string, s: string, delimiter: char)
    requires IsSeparator(delimiter)
    requires AtLineStart(p, delimiter) && Plain(s, delimiter)
    ensures ParseSpec(p + s, delimiter) == ParseSpec(p, delimiter)
  {
    ParseAfterLineStart(p, s, delimiter);
    PlainHasNoBreaks(s, delimiter);
    PlainPrefix(s, "");
    assert s + "" == s;
    ScanPlain(s, "", delimiter, Scan(ToCrlf(p), delimiter, Start));
  }

  /** A last line `key<d>value` without a final line break is still stored,
      whatever lines precede it: its row already holds a cell when the input
      ends, so it is added as any other row (unless its key is taken). */
  lemma ParseFlushesPendingRow(p: string, key: string, value: string, delimiter: char)
    requires IsSeparator(delimiter)
    requires AtLineStart(p, delimiter) && Plain(key, delimiter) && Plain(value, delimiter)
    ensures var sheet := ParseSpec(p, delimiter);
            ParseSpec(p + key + [delimiter] + value, delimiter)
              == if key in sheet then sheet else sheet[key := [value]]
  {
    var line := key + ([delimiter] + (value + ""));
    assert p + key + [delimiter] + value == p + line;
    ParseAfterLineStart(p, line, delimiter);
    ToCrlfKeyValue(key, value, "", delimiter);
    ScanPendingRow(key, value, delimiter, Scan(ToCrlf(p), delimiter, Start));
  }

  /** Parsing text that follows a line feed continues from the state the
      preceding text leaves. */
  lemma ParseAfterLineStart(p: string, t: string, delimiter: char)
    requires IsSeparator(delimiter) && (p == [] || p[|p| - 1] == '\n')
    ensures ParseSpec(p + t, delimiter) == Finish(Scan(ToCrlf(t), delimiter, Scan(ToCrlf(p), delimiter, Start)))
  {
    var a, b := ToCrlf(p), ToCrlf(t);
    ToCrlfAppend(p, t);
    if p == [] {
      assert a == [];
    } else {
      ToCrlfEndsInCrlf(p);
    }
    ScanAppend(a, b, delimiter, Start);
    assert ParseSpec(p + t, delimiter) == Finish(Scan(a + b, delimiter, Start));
  }

  /** From the start of a row, `key<d>value` up to the end of the input
      leaves a row that `Finish` stores as `[value]` under `key`. */
  lemma ScanPendingRow(key: string, value: string, delimiter: char, st: ScanState)
    requires IsSeparator(delimiter) && Plain(key, delimiter) && Plain(value, delimiter)
    requires st.row == [] && st.cell == "" && !st.inQuote
    ensures Finish(Scan(key + ([delimiter] + (value + "")), delimiter, st))
         == if key in st.sheet then st.sheet else st.sheet[key := [value]]
  {
    ScanKeyValue(key, value, "", delimiter, st);
    var st' := st.(row := [key], cell := value);
    assert CloseCell(st').row == [key, value];
    assert [key, value][1..] == [value];
  }

  /** Scanning one terminated `key<d>value` line and then `t`, starting at
      the beginning of a line outside quotes: the row is stored unless its
      key is already present. */
  lemma ScanRow(key: string, value: string, t: string, delimiter: char, st: ScanState)
    requires Plain(key, delimiter) && Plain(value, delimiter) && IsSeparator(delimiter)
    requires st.row == [] && st.cell == "" && !st.inQuote
    ensures ToCrlf(key + ([delimiter] + (value + ("\r\n" + t)))) == key + ([delimiter] + (value + ("\r\n" + ToCrlf(t))))
    ensures Scan(key + ([delimiter] + (value + ("\r\n" + t))), delimiter, st)
         == Scan(t, delimiter, st.(sheet := if key in st.sheet then st.sheet else st.sheet[key := [value]]))
  {
    ToCrlfKeyValue(key, value, "\r\n" + t, delimiter);
    CrlfPrefix(t);
    ScanKeyValue(key, value, "\r\n" + t, delimiter, st);
    var st1 := st.(row := [key], cell := value);
    ScanCrlf(t, delimiter, st1);
    assert CloseCell(st1).row == [key, value];
    assert [key, value][1..] == [value];
  }

  /** A terminated line `key<d>value` with ordinary text becomes one entry:
      the key maps to the single remaining cell. */
  lemma ParseOneRow(key: string, value: string, delimiter: char)
    requires IsSeparator(delimiter)
    requires Plain(key, delimiter) && Plain(value, delimiter)
    ensures ParseSpec(key + [delimiter] + value + "\r\n", delimiter) == map[key := [value]]
  {
    var data := key + ([delimiter] + (value + ("\r\n" + "")));
    assert key + [delimiter] + value + "\r\n" == data;
    ScanRow(key, value, "", delimiter, Start);
  }

  /** Of two lines with the same key the first one wins; the second is
      dropped. */
  lemma ParseKeepsFirstDuplicate(key: string, v1: string, v2: string, delimiter: char)
    requires IsSeparator(delimiter)
    requires Plain(key, delimiter) && Plain(v1, delimiter) && Plain(v2, delimiter)
    ensures ParseSpec(key + [delimiter] + v1 + "\r\n" + key + [delimiter] + v2 + "\r\n", delimiter)
         == map[key := [v1]]
  {
    var second := key + ([delimiter] + (v2 + ("\r\n" + "")));
    var data := key + ([delimiter] + (v1 + ("\r\n" + second)));
    assert key + [delimiter] + v1 + "\r\n" + key + [delimiter] + v2 + "\r\n" == data;
    ScanRow(key, v1, second, delimiter, Start);
    var st1 := Start.(sheet := map[key := [v1]]);
    ScanRow(key, v2, "", delimiter, st1);
  }

  /** Inside quotes the delimiter is part of the cell: `key<d>"a<d>b"` then
      CRLF stores `a<d>b` under `key`. */
  lemma ParseQuotedDelimiter(key: string, a: string, b: string, delimiter: char)
    requires IsSeparator(delimiter)
    requires Plain(key, delimiter) && Plain(a, delimiter) && Plain(b, delimiter)
    ensures ParseSpec(key + [delimiter] + "\"" + a + [delimiter] + b + "\"\r\n", delimiter)
         == map[key := [a + [delimiter] + b]]
  {
    var tail := [delimiter] + (b + ("\"" + "\r\n"));
    var data := key + ([delimiter] + ("\"" + (a + tail)));
    assert key + [delimiter] + "\"" + a + [delimiter] + b + "\"\r\n" == data;
    QuotedNormal(key, a, b, delimiter);
    assert ToCrlf(data) == data;
    ScanQuotedDelimiter(key, a, b, delimiter);
    SingleRow(Start.(row := [key], cell := a + [delimiter] + b), key, a + [delimiter] + b);
  }

  /** The scan of `key<d>"a<d>b"` then CRLF ends with the row `key`, `a<d>b`
      about to be closed. */
  lemma ScanQuotedDelimiter(key: string, a: string, b: string, delimiter: char)
    requires IsSeparator(delimiter)
    requires Plain(key, delimiter) && Plain(a, delimiter) && Plain(b, delimiter)
    ensures Scan(key + ([delimiter] + ("\"" + (a + ([delimiter] + (b + ("\"" + "\r\n")))))), delimiter, Start)
         == CloseRow(Start.(row := [key], cell := a + [delimiter] + b))
  {
    var x := "\"" + (a + ([delimiter] + (b + ("\"" + "\r\n"))));
    ScanKeyValue(key, "", x, delimiter, Start);
    assert "" + x == x;
    var st1 := Start.(row := [key], cell := "");
    assert Start.(row := Start.row + [key], cell := "") == st1;
    ScanQuotedCell(a, b, "\r\n", delimiter, st1);
    var st2 := st1.(cell := a + [delimiter] + b);
    assert st1.cell + a == a;
    assert st1.(cell := st1.cell + a + [delimiter] + b) == st2;
    ScanCrlf("", delimiter, st2);
    assert "\r\n" + "" == "\r\n";
  }

  /** Closing a first row of two cells stores the second under the first. */
  lemma SingleRow(st: ScanState, key: string, value: string)
    requires st.sheet == map[] && st.row == [key] && st.cell == value
    ensures Finish(CloseRow(st)) == map[key := [value]]
  {
    assert CloseCell(st).row == [key, value];
    assert [key, value][1..] == [value];
  }

  /** A quoted cell `"a<d>b"` read outside quotes: the text between the
      quotes, delimiter included, is appended to the cell and the quote
      state is closed again. */
  lemma ScanQuotedCell(a: string, b: string, t: string, delimiter: char, st: ScanState)
    requires IsSeparator(delimiter)
    requires Plain(a, delimiter) && Plain(b, delimiter)
    requires !st.inQuote
    requires t == [] || t[0] != '"'
    ensures Scan("\"" + (a + ([delimiter] + (b + ("\"" + t)))), delimiter, st)
         == Scan(t, delimiter, st.(cell := st.cell + a + [delimiter] + b))
  {
    var tail := [delimiter] + (b + ("\"" + t));
    assert a + tail == [] || (a + tail)[0] != '"';
    ScanOneQuote(a + tail, delimiter, st);
    var st1 := st.(inQuote := true);
    ScanPlain(a, tail, delimiter, st1);
    var st2 := st1.(cell := st.cell + a);
    ScanDelimiter(b + ("\"" + t), delimiter, st2);
    var st3 := st2.(cell := st.cell + a + [delimiter]);
    ScanPlain(b, "\"" + t, delimiter, st3);
    var st4 := st3.(cell := st.cell + a + [delimiter] + b);
    ScanOneQuote(t, delimiter, st4);
  }

  /** The input of `ParseQuotedDelimiter` is already in CRLF form. */
  lemma QuotedNormal(key: string, a: string, b: string, delimiter: char)
    requires IsSeparator(delimiter)
    requires Plain(key, delimiter) && Plain(a, delimiter) && Plain(b, delimiter)
    ensures var data := key + ([delimiter] + ("\"" + (a + ([delimiter] + (b + ("\"" + "\r\n"))))));
            ToCrlf(data) == data
  {
    PlainHasNoBreaks(key, delimiter);
    PlainHasNoBreaks(a, delimiter);
    PlainHasNoBreaks(b, delimiter);
    CrlfPrefix("");
    PlainPrefix("\"", "\r\n");
    PlainPrefix(b, "\"" + "\r\n");
    PlainPrefix([delimiter], b + ("\"" + "\r\n"));
    PlainPrefix(a, [delimiter] + (b + ("\"" + "\r\n")));
    PlainPrefix("\"", a + ([delimiter] + (b + ("\"" + "\r\n"))));
    PlainPrefix([delimiter], "\"" + (a + ([delimiter] + (b + ("\"" + "\r\n")))));
    PlainPrefix(key, [delimiter] + ("\"" + (a + ([delimiter] + (b + ("\"" + "\r\n"))))));
  }

  /** An empty quoted field `""` is read as one literal quote, not as an
      empty cell as section 2 of RFC 4180 would have it. */
  lemma ParseEmptyQuotedField(key: string, delimiter: char)
    requires IsSeparator(delimiter)
    requires Plain(key, delimiter)
    ensures ParseSpec(key + [delimiter] + "\"\"\r\n", delimiter) == map[key := ["\""]]
  {
    var data := key + ([delimiter] + ("\"\"" + "\r\n"));
    assert key + [delimiter] + "\"\"\r\n" == data;
    EmptyQuotedNormal(key, delimiter);
    ScanEmptyQuoted(key, delimiter);
    SingleRow(Start.(row := [key], cell := "\""), key, "\"");
  }

  /** `key<d>""` then CRLF is already in normal form. */
  lemma EmptyQuotedNormal(key: string, delimiter: char)
    requires IsSeparator(delimiter)
    requires Plain(key, delimiter)
    ensures ToCrlf(key + ([delimiter] + ("\"\"" + "\r\n"))) == key + ([delimiter] + ("\"\"" + "\r\n"))
  {
    var x := "\"\"" + "\r\n";
    assert "" + x == x;
    CrlfPrefix("");
    assert "\r\n" + "" == "\r\n";
    PlainPrefix("\"\"", "\r\n");
    ToCrlfKeyValue(key, "", x, delimiter);
  }

  /** The scan of `key<d>""` then CRLF ends with the row `key`, `"` about to
      be closed. */
  lemma ScanEmptyQuoted(key: string, delimiter: char)
    requires IsSeparator(delimiter)
    requires Plain(key, delimiter)
    ensures Scan(key + ([delimiter] + ("\"\"" + "\r\n")), delimiter, Start)
         == CloseRow(Start.(row := [key], cell := "\""))
  {
    var x := "\"\"" + "\r\n";
    ScanKeyValue(key, "", x, delimiter, Start);
    assert "" + x == x;
    var st1 := Start.(row := [key], cell := "");
    assert Start.(row := Start.row + [key], cell := "") == st1;
    ScanTwoQuotes("\r\n", delimiter, st1);
    var st2 := st1.(cell := "\"");
    assert st1.(cell := st1.cell + "\"") == st2;
    ScanCrlf("", delimiter, st2);
    assert "\r\n" + "" == "\r\n";
  }

  /** `EstimateDelimiter` ignores letter case and rejects other extensions. */
  lemma EstimateDelimiterExamples()
    ensures EstimateDelimiter(".CSV") == Success(',')
    ensures EstimateDelimiter(".Tsv") == Success('\t')
    ensures EstimateDelimiter(".txt").Failure?
    ensures EstimateDelimiter("csv").Failure?
  {
    assert EqualsIgnoreCase(".CSV", ".csv");
    assert EqualsIgnoreCase(".Tsv", ".tsv");
    assert Upper(".txt"[2]) == 'X' && Upper(".csv"[2]) == 'S';
  }
}
