/**
 Reading a toll spreadsheet (client/toll/sheet.go, prepass.go): the header row is searched for, columns are
 addressed by name, and each row beneath becomes a toll row, an error or a skipped blank.
 */
module TollParse {
  import opened Ascii
  import opened Wrappers
  import TollHash

  type Cells = seq<string>

  datatype Sheet = Sheet(name: string, rows: seq<Cells>)

  datatype Table = Table(sheet: string, headers: seq<string>, index: map<string, nat>, rows: seq<Cells>, headerRow: nat)

  const HEADER_SCAN_DEPTH := 10

  // ---------------------------------------------------------------- tables

  /** The name under which a header is found, or "" for a spacer column. */
  function Name(header: string): (key: string) {
    ToLower(NormalizeHeader(header))
  }

  lemma SpacerIff(header: string)
    ensures Name(header) == "" <==> AllSpace(header)
  {
    BlankHeaderIff(header);
  }

  /** First column of each name. */
  function IndexOf(raw: Cells): (index: map<string, nat>)
    ensures forall key :: key in index ==> index[key] < |raw|
  {
    if raw == [] then map[]
    else
      var index, key := IndexOf(raw[..|raw| - 1]), Name(raw[|raw| - 1]);
      if key == "" || key in index then index else index[key := |raw| - 1]
  }

  function HeadersOf(raw: Cells): (headers: seq<string>)
    ensures |headers| == |raw|
  {
    seq(|raw|, c requires 0 <= c < |raw| => NormalizeHeader(raw[c]))
  }

  function TableOf(s: Sheet, i: nat): (t: Table)
    requires i < |s.rows|
  {
    Table(s.name, HeadersOf(s.rows[i]), IndexOf(s.rows[i]), s.rows[i + 1..], i + 1)
  }

  method TableAt(s: Sheet, i: nat) returns (t: Table)
    requires i < |s.rows|
    ensures t == TableOf(s, i)
  {
    var raw := s.rows[i];
    var headers := new string[|raw|](_ => "");
    var index: map<string, nat> := map[];
    for c := 0 to |raw|
      invariant forall k :: 0 <= k < c ==> headers[k] == NormalizeHeader(raw[k])
      invariant index == IndexOf(raw[..c])
    {
      var n := NormalizeHeader(raw[c]);
      headers[c] := n;
      assert raw[..c + 1][..c] == raw[..c];
      if n != "" {
        var key := ToLower(n);
        if key !in index {
          index := index[key := c];
        }
      }
    }
    assert raw[..|raw|] == raw && headers[..] == HeadersOf(raw);
    return Table(s.name, headers[..], index, s.rows[i + 1..], i + 1);
  }

  predicate HasAll(index: map<string, nat>, names: seq<string>) {
    names != [] && forall n :: n in names ==> Name(n) in index
  }

  method CheckAll(t: Table, names: seq<string>) returns (ok: bool)
    ensures ok == HasAll(t.index, names)
  {
    for i := 0 to |names|
      invariant forall k :: 0 <= k < i ==> Name(names[k]) in t.index
    {
      if Name(names[i]) !in t.index {
        return false;
      }
    }
    return |names| > 0;
  }

  /** Row `i` of sheet `k` is the first, in reading order, to carry all the names within the scanned depth. */
  ghost predicate IsHeader(sheets: seq<Sheet>, names: seq<string>, k: nat, i: nat) {
    && Candidate(sheets, names, k, i)
    && forall m, j :: 0 <= m <= k && 0 <= j && (m < k || j < i) ==> !Candidate(sheets, names, m, j)
  }

  predicate Candidate(sheets: seq<Sheet>, names: seq<string>, k: nat, i: nat) {
    k < |sheets| && i < |sheets[k].rows| && i < HEADER_SCAN_DEPTH && HasAll(IndexOf(sheets[k].rows[i]), names)
  }

  method FindTable(sheets: seq<Sheet>, names: seq<string>) returns (t: Option<Table>, ghost k: nat, ghost i: nat)
    ensures t.Some? ==> IsHeader(sheets, names, k, i) && t.value == TableOf(sheets[k], i)
    ensures t.None? ==> forall m: nat, j: nat :: !Candidate(sheets, names, m, j)
    ensures t.Some? ==> i < 10
    ensures t.None? ==> forall m: nat, j: nat ::
      m < |sheets| && j < |sheets[m].rows| && j < 10 ==> !HasAll(IndexOf(sheets[m].rows[j]), names)
  {
    k, i := 0, 0;
    for m := 0 to |sheets|
      invariant forall n: nat, j: nat :: n < m ==> !Candidate(sheets, names, n, j)
    {
      var s := sheets[m];
      var limit := if |s.rows| < HEADER_SCAN_DEPTH then |s.rows| else HEADER_SCAN_DEPTH;
      for j := 0 to limit
        invariant forall l: nat :: l < j ==> !Candidate(sheets, names, m, l)
      {
        var table := TableAt(s, j);
        var ok := CheckAll(table, names);
        if ok {
          return Some(table), m, j;
        }
      }
    }
    forall m: nat, j: nat | m < |sheets| && j < |sheets[m].rows| && j < 10
      ensures !HasAll(IndexOf(sheets[m].rows[j]), names)
    {
      assert !Candidate(sheets, names, m, j);
    }
    return None, 0, 0;
  }

  // ---------------------------------------------------------------- cells

  /** A cell of a row; rows may be short, and what is missing is empty. */
  function At(row: Cells, c: nat): (v: string) {
    if c < |row| then row[c] else ""
  }

  function Cell(t: Table, row: Cells, name: string): (v: string) {
    var key := Name(name);
    if key !in t.index || t.index[key] >= |row| then "" else TrimSpace(row[t.index[key]])
  }

  predicate Blank(row: Cells) {
    forall c: nat :: c < |row| ==> TrimSpace(row[c]) == ""
  }

  method IsBlank(row: Cells) returns (blank: bool)
    ensures blank == Blank(row)
  {
    for c := 0 to |row|
      invariant forall d: nat :: d < c ==> TrimSpace(row[d]) == ""
    {
      if TrimSpace(row[c]) != "" {
        return false;
      }
    }
    return true;
  }

  /** The trimmed values of a row by column. */
  type Values = nat -> string

  function ValuesOf(row: Cells): (value: Values) {
    (c: nat) => TrimSpace(At(row, c))
  }

  /** The non-empty values of the named columns, by header; of columns with the same header the last counts. */
  function RawUpTo(headers: seq<string>, value: Values, n: nat): (m: map<string, string>)
    requires n <= |headers|
  {
    if n == 0 then map[]
    else
      var m := RawUpTo(headers, value, n - 1);
      if headers[n - 1] != "" && value(n - 1) != "" then m[headers[n - 1] := value(n - 1)] else m
  }

  function RawOf(headers: seq<string>, row: Cells): (m: map<string, string>) {
    RawUpTo(headers, ValuesOf(row), |headers|)
  }

  lemma RawStep(headers: seq<string>, row: Cells, c: nat, before: map<string, string>, v: string)
    requires c < |headers| && before == RawUpTo(headers, ValuesOf(row), c) && v == TrimSpace(At(row, c))
    ensures RawUpTo(headers, ValuesOf(row), c + 1) ==
            if headers[c] != "" && v != "" then before[headers[c] := v] else before
    ensures c >= |row| ==> v == ""
  {
  }

  method RowMap(headers: seq<string>, row: Cells) returns (m: map<string, string>)
    ensures m == RawOf(headers, row)
  {
    m := map[];
    for c := 0 to |headers|
      invariant m == RawUpTo(headers, ValuesOf(row), c)
    {
      RawStep(headers, row, c, m, TrimSpace(At(row, c)));
      if headers[c] != "" && c < |row| {
        var v := TrimSpace(row[c]);
        if v != "" {
          m := m[headers[c] := v];
        }
      }
    }
  }

  // ---------------------------------------------------------------- account

  const ACCOUNT := "account"

  /** The first value of a row from column `c` on, or "". */
  function FirstValue(row: Cells, c: nat): (v: string)
    decreases |row| - c
  {
    if c >= |row| then "" else if TrimSpace(row[c]) != "" then TrimSpace(row[c]) else FirstValue(row, c + 1)
  }

  /** The value beside the first account label, from column `c` on, that has one. */
  function AccountInRow(row: Cells, c: nat): (v: string)
    decreases |row| - c
  {
    if c >= |row| then ""
    else if Name(row[c]) == ACCOUNT && FirstValue(row, c + 1) != "" then FirstValue(row, c + 1)
    else AccountInRow(row, c + 1)
  }

  function AccountInRows(rows: seq<Cells>, i: nat): (v: string)
    decreases |rows| - i
  {
    if i >= |rows| then ""
    else if AccountInRow(rows[i], 0) != "" then AccountInRow(rows[i], 0) else AccountInRows(rows, i + 1)
  }

  /** Sheets named like the data sheet are passed over. */
  function AccountOf(sheets: seq<Sheet>, dataSheet: string, k: nat): (v: string)
    decreases |sheets| - k
  {
    if k >= |sheets| then ""
    else if sheets[k].name != dataSheet && AccountInRows(sheets[k].rows, 0) != "" then AccountInRows(sheets[k].rows, 0)
    else AccountOf(sheets, dataSheet, k + 1)
  }

  method FindAccount(sheets: seq<Sheet>, dataSheet: string) returns (account: string)
    ensures account == AccountOf(sheets, dataSheet, 0)
  {
    for k := 0 to |sheets|
      invariant AccountOf(sheets, dataSheet, 0) == AccountOf(sheets, dataSheet, k)
    {
      if sheets[k].name != dataSheet {
        account := AccountInSheet(sheets[k].rows);
        if account != "" {
          return;
        }
      }
    }
    return "";
  }

  method AccountInSheet(rows: seq<Cells>) returns (account: string)
    ensures account == AccountInRows(rows, 0)
  {
    for i := 0 to |rows|
      invariant AccountInRows(rows, 0) == AccountInRows(rows, i)
    {
      account := AccountBesideLabel(rows[i]);
      if account != "" {
        return;
      }
    }
    return "";
  }

  method AccountBesideLabel(row: Cells) returns (account: string)
    ensures account == AccountInRow(row, 0)
  {
    for c := 0 to |row|
      invariant AccountInRow(row, 0) == AccountInRow(row, c)
    {
      if ToLower(NormalizeHeader(row[c])) == ACCOUNT {
        for d := c + 1 to |row|
          invariant FirstValue(row, c + 1) == FirstValue(row, d)
        {
          var v := TrimSpace(row[d]);
          if v != "" {
            return v;
          }
        }
      }
    }
    return "";
  }

  /** `v` is the first value to the right of a label in the row. */
  ghost predicate BesideLabel(row: Cells, c: nat, d: nat, v: string) {
    && c < d < |row| && Name(row[c]) == "account" && v == TrimSpace(row[d]) != ""
    && forall e: nat :: c < e < d ==> TrimSpace(row[e]) == ""
  }

  lemma LabelHasFirstValue(row: Cells, c: nat) returns (d: nat)
    requires c < |row|
    ensures Name(row[c]) == ACCOUNT && FirstValue(row, c + 1) != "" ==> BesideLabel(row, c, d, FirstValue(row, c + 1))
    ensures Name(row[c]) != ACCOUNT || FirstValue(row, c + 1) == "" ==> forall e: nat, v :: !BesideLabel(row, c, e, v)
  {
    d := FirstValueIs(row, c + 1);
  }

  /** A row has an account exactly if some label has a value to its right, and the first such label counts. */
  lemma {:induction false} AccountIsBesideLabel(row: Cells, c: nat) returns (a: nat, d: nat)
    ensures AccountInRow(row, c) == "" ==> forall b: nat, e: nat, v :: c <= b ==> !BesideLabel(row, b, e, v)
    ensures AccountInRow(row, c) != "" ==> c <= a && BesideLabel(row, a, d, AccountInRow(row, c))
    ensures AccountInRow(row, c) != "" ==> forall b: nat, e: nat, v :: c <= b < a ==> !BesideLabel(row, b, e, v)
    decreases |row| - c
  {
    a, d := c, c;
    if c < |row| {
      d := LabelHasFirstValue(row, c);
      if Name(row[c]) != ACCOUNT || FirstValue(row, c + 1) == "" {
        a, d := AccountIsBesideLabel(row, c + 1);
      }
    }
  }

  lemma {:induction false} FirstValueIs(row: Cells, c: nat) returns (d: nat)
    ensures FirstValue(row, c) != "" ==>
      && c <= d < |row| && FirstValue(row, c) == TrimSpace(row[d])
      && forall e: nat :: c <= e < d ==> TrimSpace(row[e]) == ""
    ensures FirstValue(row, c) == "" ==> forall e: nat :: c <= e < |row| ==> TrimSpace(row[e]) == ""
    decreases |row| - c
  {
    d := c;
    if c < |row| && TrimSpace(row[c]) == "" {
      d := FirstValueIs(row, c + 1);
    }
  }

  // ---------------------------------------------------------------- plates

  predicate HasState(up: string) {
    |up| > 3 && IsAlpha(up[0]) && IsAlpha(up[1]) && (up[2] == '-' || up[2] == ' ' || up[2] == '/')
  }

  /** The letters and digits of a text. */
  function Alphanumerics(s: string): (t: string)
    ensures |t| <= |s|
    ensures forall c :: c in t ==> IsAlpha(c) || IsDigit(c)
  {
    if s == "" then "" else (if IsAlpha(s[0]) || IsDigit(s[0]) then [s[0]] else "") + Alphanumerics(s[1..])
  }

  function PlateOf(s: string): (p: string) {
    var up := ToUpper(TrimSpace(s));
    Alphanumerics(if HasState(up) then up[3..] else up)
  }

  lemma {:induction false} AlphanumericsAppend(a: string, b: string)
    ensures Alphanumerics(a + b) == Alphanumerics(a) + Alphanumerics(b)
    decreases |a|
  {
    if a == "" {
      assert a + b == b;
    } else {
      assert (a + b)[1..] == a[1..] + b;
      AlphanumericsAppend(a[1..], b);
    }
  }

  method NormalizePlate(s: string) returns (plate: string)
    ensures plate == PlateOf(s)
  {
    var up := ToUpper(TrimSpace(s));
    if up == "" {
      return "";
    }
    if HasState(up) {
      up := up[3..];
    }
    plate := Filter(up);
  }

  method Filter(up: string) returns (plate: string)
    ensures plate == Alphanumerics(up)
  {
    plate := "";
    for i := 0 to |up|
      invariant plate == Alphanumerics(up[..i])
    {
      assert up[..i + 1] == up[..i] + [up[i]];
      AlphanumericsAppend(up[..i], [up[i]]);
      assert Alphanumerics([up[i]]) == if IsAlpha(up[i]) || IsDigit(up[i]) then [up[i]] else "";
      if IsAlpha(up[i]) || IsDigit(up[i]) {
        plate := plate + [up[i]];
      }
    }
    assert up[..|up|] == up;
  }

  lemma {:induction false} AlphanumericsIdentity(s: string)
    requires forall c :: c in s ==> IsAlpha(c) || IsDigit(c)
    ensures Alphanumerics(s) == s
  {
    if s != "" {
      assert s[0] in s && s == [s[0]] + s[1..];
      AlphanumericsIdentity(s[1..]);
    }
  }

  lemma {:induction false} AlphanumericsUpper(s: string)
    requires forall i :: 0 <= i < |s| ==> UpperChar(s[i]) == s[i]
    ensures forall i :: 0 <= i < |Alphanumerics(s)| ==> UpperChar(Alphanumerics(s)[i]) == Alphanumerics(s)[i]
  {
    if s != "" {
      AlphanumericsUpper(s[1..]);
    }
  }

  /** Normalising a plate again changes nothing. */
  lemma PlateIdempotent(s: string)
    ensures PlateOf(PlateOf(s)) == PlateOf(s)
  {
    PlateIsUpper(s);
    CleanPlate(PlateOf(s));
  }

  lemma PlateIsUpper(s: string)
    ensures forall i :: 0 <= i < |PlateOf(s)| ==> UpperChar(PlateOf(s)[i]) == PlateOf(s)[i]
  {
    var up := ToUpper(TrimSpace(s));
    AlphanumericsUpper(if HasState(up) then up[3..] else up);
  }

  /** A plate of upper-case letters and digits stays as it is. */
  lemma CleanPlate(p: string)
    requires forall c :: c in p ==> IsAlpha(c) || IsDigit(c)
    requires forall i :: 0 <= i < |p| ==> UpperChar(p[i]) == p[i]
    ensures PlateOf(p) == p
  {
    assert p != "" ==> p[0] in p && p[|p| - 1] in p;
    NotTrimmed(p);
    assert ToUpper(p) == p;
    assert |p| > 3 ==> p[2] in p;
    assert !HasState(p);
    AlphanumericsIdentity(p);
  }

  /** Signs that are neither letters nor digits do not count, wherever they stand. */
  lemma SignsAreIgnored(a: string, c: char, b: string)
    requires !('A' <= c <= 'Z') && !('a' <= c <= 'z') && !('0' <= c <= '9')
    ensures Alphanumerics(a + [c] + b) == Alphanumerics(a + b)
  {
    AlphanumericsAppend(a + [c], b);
    AlphanumericsAppend(a, [c]);
    AlphanumericsAppend(a, b);
    assert Alphanumerics([c]) == "" by { assert [c][1..] == ""; }
    assert Alphanumerics(a) + "" == Alphanumerics(a);
  }

  lemma NotTrimmed(p: string)
    requires p != "" ==> !IsSpace(p[0]) && !IsSpace(p[|p| - 1])
    ensures TrimSpace(p) == p
  {
  }

  /**
   The state code printed before a plate is ignored exactly when the plate does not itself look like one with a
   state code.
   */
  lemma StateIsIgnoredIff(state: string, sep: char, plate: string)
    requires |state| == 2 && IsAlpha(state[0]) && IsAlpha(state[1]) && (sep == '-' || sep == ' ' || sep == '/')
    requires plate != "" && !IsSpace(plate[0]) && !IsSpace(plate[|plate| - 1])
    ensures PlateOf(state + [sep] + plate) == PlateOf(plate) <==> !HasState(plate)
  {
    var full := state + [sep] + plate;
    NotTrimmed(full);
    NotTrimmed(plate);
    var up := ToUpper(plate);
    assert ToUpper(full)[3..] == up;
    assert HasState(ToUpper(full));
    assert HasState(up) <==> HasState(plate);
    if HasState(up) {
      assert up == up[..3] + up[3..];
      AlphanumericsAppend(up[..3], up[3..]);
      assert Alphanumerics(up[..3])[0] == up[0];
      assert |Alphanumerics(up[..3])| > 0;
    }
  }

  // ---------------------------------------------------------------- rows

  datatype Time = Time(day: int, hour: int, minute: int, second: int, nanos: int, zone: int)
  datatype ReadType = ReadUnknown | ReadTransponder | ReadPlate

  /** The column names of a provider's files. */
  datatype Layout = Layout(
    post: string, amount: string, readType: string, agencyRef: string, source: string, agency: string, deviceId: string,
    truckId: string, entryPlaza: string, exitPlaza: string, cls: string, miles: string, invoiceDate: string,
    entryDate: string, entryTime: string, exitDate: string, exitTime: string)

  /** The columns of PrePass files. */
  const PRE_PASS := Layout(
    "Post Date", "Toll $", "Read Type", "Toll Device ID or Plate", "Source", "Agency", "PP Device ID", "Truck ID",
    "Entry Plaza", "Exit Plaza", "Cl", "Mi", "Invoice Date", "Entry Date", "Entry Time", "Exit Date", "Exit Time")

  /** The columns and the cell converters, which read nothing but the cell's text. */
  datatype Converters = Converters(
    names: Layout,
    fileTime: string -> Option<Time>, money: string -> Option<int>, timeOfDay: string -> Option<(int, int, int)>,
    truckRef: string -> string)

  datatype RowError = RowError(rowNumber: nat, column: string, value: string)

  datatype Row = Row(
    rowNumber: nat, postDate: Time, source: string, agency: string, readType: ReadType, deviceId: string,
    agencyRef: string, truckRef: string, entryPlaza: string, exitPlaza: string, cls: string, miles: string,
    amount: int, raw: map<string, string>, plate: string, invoiceDate: Option<Time>, entryAt: Option<Time>,
    exitAt: Option<Time>, hash: string)

  function ReadTypeOf(s: string): (t: ReadType) {
    var l := ToLower(TrimSpace(s));
    if l == "transponder" || l == "tag" || l == "toll tag" then ReadTransponder
    else if l == "plate" || l == "licence plate" || l == "license plate" || l == "image" || l == "video" then ReadPlate
    else ReadUnknown
  }

  /** The words for the ways a toll is read, in any case and with white space around them. */
  lemma ReadTypeIff(s: string)
    ensures ReadTypeOf(s) == ReadTransponder <==> ToLower(TrimSpace(s)) in {"transponder", "tag", "toll tag"}
    ensures ReadTypeOf(s) == ReadPlate <==>
      ToLower(TrimSpace(s)) in {"plate", "licence plate", "license plate", "image", "video"}
  {
    var l := ToLower(TrimSpace(s));
    assert l == "transponder" ==> l[1] == 'r';
    assert l == "tag" ==> l[2] == 'g';
    assert l == "toll tag" ==> l[1] == 'o';
    assert l == "plate" || l == "image" || l == "video" ==> |l| == 5;
    assert l == "licence plate" || l == "license plate" ==> |l| == 13;
  }

  /** time.Date with a clock that may run over midnight. */
  function AtClock(d: Time, clock: (int, int, int)): (t: Time) {
    var secs := clock.0 * 3600 + clock.1 * 60 + clock.2;
    Time(d.day + secs / 86400, secs % 86400 / 3600, secs % 3600 / 60, secs % 60, 0, d.zone)
  }

  /** The cells of one data row, by column name. */
  type Reader = string -> string

  function CellsOf(t: Table, row: Cells): (read: Reader) {
    (name: string) => Cell(t, row, name)
  }

  /** The cells `parsePrePassRow` looks at, in the order of the columns. */
  function TextsOf(names: Layout, read: Reader): (x: Layout) {
    Layout(read(names.post), read(names.amount), read(names.readType), read(names.agencyRef), read(names.source),
           read(names.agency), read(names.deviceId), read(names.truckId), read(names.entryPlaza), read(names.exitPlaza),
           read(names.cls), read(names.miles), read(names.invoiceDate), read(names.entryDate), read(names.entryTime),
           read(names.exitDate), read(names.exitTime))
  }

  function CombineDateTime(conv: Converters, date: string, time: string): (r: Option<Time>) {
    match conv.fileTime(date)
    case None => None
    case Some(d) =>
      if d.hour != 0 || d.minute != 0 || d.second != 0 then Some(d)
      else match conv.timeOfDay(time) case None => Some(d) case Some(clock) => Some(AtClock(d, clock))
  }

  /** `parsePrePassRow`, from the row's cells and its raw map. */
  function RowOf(conv: Converters, x: Layout, raw: map<string, string>, rowNum: nat): (r: Result<Row, RowError>)
    ensures Labels(r, rowNum)
    ensures r.Ok? <==> conv.fileTime(x.post).Some? && conv.money(x.amount).Some?
    ensures r.Err? ==> r.error.column == if conv.fileTime(x.post).None? then conv.names.post else conv.names.amount
    ensures r.Ok? && r.value.plate != "" ==> r.value.readType == ReadPlate
  {
    match conv.fileTime(x.post)
    case None => Err(RowError(rowNum, conv.names.post, x.post))
    case Some(post) =>
      match conv.money(x.amount)
      case None => Err(RowError(rowNum, conv.names.amount, x.amount))
      case Some(amount) =>
        var readType := ReadTypeOf(x.readType);
        var agencyRef := TrimSpace(x.agencyRef);
        Ok(Row(
          rowNum, post, TrimSpace(x.source), TrimSpace(x.agency), readType, TrimSpace(x.deviceId), agencyRef,
          conv.truckRef(x.truckId), TrimSpace(x.entryPlaza), TrimSpace(x.exitPlaza), TrimSpace(x.cls),
          TrimSpace(x.miles),
          amount, raw, if readType == ReadPlate then PlateOf(agencyRef) else "", conv.fileTime(x.invoiceDate),
          CombineDateTime(conv, x.entryDate, x.entryTime), CombineDateTime(conv, x.exitDate, x.exitTime), ""))
  }

  /** Seconds of an instant since day 0, in its own zone. */
  function Instant(t: Time): (s: int) {
    t.day * 86400 + t.hour * 3600 + t.minute * 60 + t.second
  }

  lemma AtClockIs(d: Time, clock: (int, int, int))
    ensures var t := AtClock(d, clock);
      && Instant(t) == d.day * 86400 + clock.0 * 3600 + clock.1 * 60 + clock.2 && t.zone == d.zone
      && 0 <= t.hour < 24 && 0 <= t.minute < 60 && 0 <= t.second < 60
  {
    ClockParts(clock.0 * 3600 + clock.1 * 60 + clock.2);
  }

  lemma ClockParts(secs: int)
    ensures secs == secs / 86400 * 86400 + secs % 86400 / 3600 * 3600 + secs % 3600 / 60 * 60 + secs % 60
    ensures 0 <= secs % 86400 / 3600 < 24 && 0 <= secs % 3600 / 60 < 60
  {
    var q, h, m := secs / 86400, secs % 86400 / 3600, secs % 86400 % 3600 / 60;
    Hours(secs, 24 * q + h, secs % 86400 % 3600);
    Minutes(secs, 60 * (24 * q + h) + m, secs % 3600 % 60);
  }

  lemma Hours(secs: int, q: int, r: int)
    requires secs == 3600 * q + r && 0 <= r < 3600
    ensures secs % 3600 == r
  {
  }

  lemma Minutes(secs: int, q: int, r: int)
    requires secs == 60 * q + r && 0 <= r < 60
    ensures secs % 60 == r
  {
  }

  /**
   The splice: a date cell with a clock of its own counts alone; a bare date takes the clock of the time cell, if
   that has one. No date, no time.
   */
  lemma CombinedIs(conv: Converters, date: string, time: string)
    ensures CombineDateTime(conv, date, time).None? <==> conv.fileTime(date).None?
    ensures CombineDateTime(conv, date, time).Some? ==>
      var t, d := CombineDateTime(conv, date, time).value, conv.fileTime(date).value;
      var bare := d.hour == 0 && d.minute == 0 && d.second == 0;
      && t.zone == d.zone
      && (!bare || conv.timeOfDay(time).None? ==> t == d)
      && (bare && conv.timeOfDay(time).Some? ==>
            var clock := conv.timeOfDay(time).value;
            Instant(t) == Instant(d) + clock.0 * 3600 + clock.1 * 60 + clock.2 && t.nanos == 0)
  {
    if conv.fileTime(date).Some? && conv.timeOfDay(time).Some? {
      AtClockIs(conv.fileTime(date).value, conv.timeOfDay(time).value);
    }
  }

  /** The outcome carries the number of its row. */
  predicate Labels(r: Result<Row, RowError>, n: nat) {
    if r.Ok? then r.value.rowNumber == n else r.error.rowNumber == n
  }

  /** How a data row of a table is turned into a toll row. */
  type RowParser = (nat, Cells) -> Result<Row, RowError>

  function PrePass(conv: Converters, t: Table): (parse: RowParser) {
    (n: nat, row: Cells) => RowOf(conv, TextsOf(conv.names, CellsOf(t, row)), RawOf(t.headers, row), n)
  }

  /** The cell of a table row under the first column called `name`. */
  ghost predicate IsCell(t: Table, raw: Cells, row: Cells, name: string, v: string) {
    if exists c: nat :: IsFirst(raw, Name(name), c)
    then exists c: nat :: IsFirst(raw, Name(name), c) && v == TrimSpace(At(row, c))
    else v == ""
  }

  lemma CellIs(s: Sheet, i: nat, row: Cells, name: string)
    requires i < |s.rows|
    ensures IsCell(TableOf(s, i), s.rows[i], row, name, Cell(TableOf(s, i), row, name))
  {
    IndexIsFirst(s.rows[i], Name(name));
    assert TrimSpace("") == "";
  }

  lemma TrimTwice(s: string)
    ensures TrimSpace(TrimSpace(s)) == TrimSpace(s)
  {
    NotTrimmed(TrimSpace(s));
  }

  /**
   Which column of a PrePass file each field of an accepted row comes from: the first column of that name, whatever
   its place. A plate is read from the agency's column, and only where the toll was read off a plate.
   */
  lemma FieldsAreNamedCells(conv: Converters, s: Sheet, header: nat, n: nat, row: Cells)
    requires header < |s.rows| && conv.names == PRE_PASS && PrePass(conv, TableOf(s, header))(n, row).Ok?
    ensures var t, r := TableOf(s, header), PrePass(conv, TableOf(s, header))(n, row).value;
      && r.rowNumber == n && conv.fileTime(Cell(t, row, "Post Date")) == Some(r.postDate)
      && conv.money(Cell(t, row, "Toll $")) == Some(r.amount)
      && r.source == Cell(t, row, "Source") && r.agency == Cell(t, row, "Agency")
      && r.deviceId == Cell(t, row, "PP Device ID") && r.agencyRef == Cell(t, row, "Toll Device ID or Plate")
      && r.truckRef == conv.truckRef(Cell(t, row, "Truck ID"))
      && r.entryPlaza == Cell(t, row, "Entry Plaza") && r.exitPlaza == Cell(t, row, "Exit Plaza")
      && r.cls == Cell(t, row, "Cl") && r.miles == Cell(t, row, "Mi")
      && r.readType == ReadTypeOf(Cell(t, row, "Read Type"))
      && r.plate == (if r.readType == ReadPlate then PlateOf(Cell(t, row, "Toll Device ID or Plate")) else "")
      && r.invoiceDate == conv.fileTime(Cell(t, row, "Invoice Date"))
      && r.entryAt == CombineDateTime(conv, Cell(t, row, "Entry Date"), Cell(t, row, "Entry Time"))
      && r.exitAt == CombineDateTime(conv, Cell(t, row, "Exit Date"), Cell(t, row, "Exit Time"))
  {
    forall name ensures TrimSpace(CellsOf(TableOf(s, header), row)(name)) == CellsOf(TableOf(s, header), row)(name) {
      CellIsTrimmed(TableOf(s, header), row, name);
    }
  }

  lemma CellIsTrimmed(t: Table, row: Cells, name: string)
    ensures TrimSpace(Cell(t, row, name)) == Cell(t, row, name)
  {
    var key := Name(name);
    if key in t.index && t.index[key] < |row| { TrimTwice(row[t.index[key]]); }
    assert TrimSpace("") == "";
  }

  datatype Outcome = Skip | Bad(error: RowError) | Good(row: Row)

  /** What becomes of data row `i`; its number is its 1-based row in the sheet. */
  function OutcomeOf(parse: RowParser, t: Table, i: nat): (o: Outcome)
    requires i < |t.rows|
  {
    if Blank(t.rows[i]) then Skip
    else match parse(t.headerRow + 1 + i, t.rows[i]) case Err(e) => Bad(e) case Ok(row) => Good(row)
  }

  function Outcomes(parse: RowParser, t: Table): (outs: seq<Outcome>)
    ensures |outs| == |t.rows|
  {
    seq(|t.rows|, i requires 0 <= i < |t.rows| => OutcomeOf(parse, t, i))
  }

  function Goods(outs: seq<Outcome>): (rows: seq<Row>) {
    if outs == [] then []
    else Goods(outs[..|outs| - 1]) + (if outs[|outs| - 1].Good? then [outs[|outs| - 1].row] else [])
  }

  function Bads(outs: seq<Outcome>): (errors: seq<RowError>) {
    if outs == [] then []
    else Bads(outs[..|outs| - 1]) + (if outs[|outs| - 1].Bad? then [outs[|outs| - 1].error] else [])
  }

  function Skips(outs: seq<Outcome>): (n: nat) {
    if outs == [] then 0 else Skips(outs[..|outs| - 1]) + (if outs[|outs| - 1].Skip? then 1 else 0)
  }

  // ---------------------------------------------------------------- Parse

  /** SHA-256 and the formatters of the hashed fields. */
  datatype Hashing = Hashing(
    digest: TollHash.Digest, date: Time -> string, instant: Time -> string, fixed: int -> string)

  function Hashed(f: Hashing, r: Row): (h: TollHash.Row) {
    TollHash.Row(f.date(r.postDate), r.deviceId, r.agencyRef, r.plate,
                 if r.exitAt.Some? then Some(f.instant(r.exitAt.value)) else None,
                 r.exitPlaza, r.agency, f.fixed(r.amount), "", "")
  }

  function HashedRows(f: Hashing, rows: seq<Row>): (hs: seq<TollHash.Row>)
    ensures |hs| == |rows|
  {
    seq(|rows|, i requires 0 <= i < |rows| => Hashed(f, rows[i]))
  }

  const PROVIDER := "prepass_sftp"

  function Attach(rows: seq<Row>, hs: seq<TollHash.Row>): (out: seq<Row>)
    requires |rows| == |hs|
    ensures |out| == |rows|
  {
    seq(|rows|, i requires 0 <= i < |rows| => rows[i].(hash := hs[i].hash))
  }

  function WithHashes(f: Hashing, rows: seq<Row>): (out: seq<Row>) {
    Attach(rows, TollHash.Assigned(f.digest, PROVIDER, HashedRows(f, rows)))
  }

  datatype Parsed = Parsed(account: string, rows: seq<Row>, errors: seq<RowError>, skipped: nat)

  function ParsedOf(f: Hashing, account: string, outs: seq<Outcome>): (p: Parsed) {
    Parsed(account, WithHashes(f, Goods(outs)), Bads(outs), Skips(outs))
  }

  function ReadTable(conv: Converters, f: Hashing, account: string, t: Table): (p: Parsed) {
    ParsedOf(f, account, Outcomes(PrePass(conv, t), t))
  }

  /** What reading the sheets must give; None stands for the error that no sheet has the required columns. */
  ghost predicate Parses(conv: Converters, f: Hashing, sheets: seq<Sheet>, required: seq<string>,
                         result: Option<Parsed>) {
    match result
    case None => forall k: nat, i: nat :: !Candidate(sheets, required, k, i)
    case Some(p) => exists k: nat, i: nat ::
      IsHeader(sheets, required, k, i) && p == ReadSheet(conv, f, sheets, k, i)
  }

  /** The table under header row `i` of sheet `k`, with the account the other sheets name. */
  function ReadSheet(conv: Converters, f: Hashing, sheets: seq<Sheet>, k: nat, i: nat): (p: Parsed)
    requires k < |sheets| && i < |sheets[k].rows|
  {
    ReadTable(conv, f, AccountOf(sheets, sheets[k].name, 0), TableOf(sheets[k], i))
  }

  method Parse(conv: Converters, f: Hashing, sheets: seq<Sheet>) returns (result: Option<Parsed>)
    ensures Parses(conv, f, sheets, [conv.names.post, conv.names.amount], result)
  {
    var found, k, i := FindTable(sheets, [conv.names.post, conv.names.amount]);
    if found.None? {
      return None;
    }
    var account := FindAccount(sheets, found.value.sheet);
    var rows, errors, skipped := ReadRows(PrePass(conv, found.value), found.value);
    var hs := HashAll(f, rows);
    rows := AttachHashes(rows, hs);
    return Some(Parsed(account, rows, errors, skipped));
  }

  method ReadRows(parse: RowParser, t: Table) returns (rows: seq<Row>, errors: seq<RowError>, skipped: nat)
    ensures rows == Goods(Outcomes(parse, t)) && errors == Bads(Outcomes(parse, t))
    ensures skipped == Skips(Outcomes(parse, t))
  {
    ghost var outs := Outcomes(parse, t);
    rows, errors, skipped := [], [], 0;
    for i := 0 to |t.rows|
      invariant rows == Goods(outs[..i]) && errors == Bads(outs[..i]) && skipped == Skips(outs[..i])
    {
      assert outs[..i + 1][..i] == outs[..i] && outs[i] == OutcomeOf(parse, t, i);
      var blank := IsBlank(t.rows[i]);
      if blank {
        skipped := skipped + 1;
      } else {
        match parse(t.headerRow + 1 + i, t.rows[i]) {
          case Err(e) => errors := errors + [e];
          case Ok(row) => rows := rows + [row];
        }
      }
    }
    assert outs[..|t.rows|] == outs;
  }

  method HashAll(f: Hashing, rows: seq<Row>) returns (hs: seq<TollHash.Row>)
    ensures hs == TollHash.Assigned(f.digest, PROVIDER, HashedRows(f, rows))
  {
    var hashed := new TollHash.Row[|rows|](i requires 0 <= i < |rows| => Hashed(f, rows[i]));
    assert hashed[..] == HashedRows(f, rows);
    TollHash.AssignHashes(f.digest, PROVIDER, hashed);
    hs := hashed[..];
  }

  method AttachHashes(rows: seq<Row>, hs: seq<TollHash.Row>) returns (out: seq<Row>)
    requires |rows| == |hs|
    ensures out == Attach(rows, hs)
  {
    out := [];
    for i := 0 to |rows|
      invariant |out| == i && forall k :: 0 <= k < i ==> out[k] == rows[k].(hash := hs[k].hash)
    {
      out := out + [rows[i].(hash := hs[i].hash)];
    }
  }

  // ---------------------------------------------------------------- the hash of a parsed row

  /** The text of the fields a hash covers. */
  function RowText(f: Hashing, r: Row): (text: string) {
    var u := [0x1F as char];
    "prepass_sftp" + u + f.date(r.postDate) + u + r.deviceId + u + r.agencyRef + u + r.plate
    + u + (if r.exitAt.Some? then f.instant(r.exitAt.value) else "") + u + r.exitPlaza + u + r.agency
    + u + f.fixed(r.amount)
  }

  /** How many of the rows have that text. */
  function SameText(f: Hashing, rows: seq<Row>, text: string): (n: nat) {
    if rows == [] then 0
    else SameText(f, rows[..|rows| - 1], text) + (if RowText(f, rows[|rows| - 1]) == text then 1 else 0)
  }

  lemma RowTextIs(f: Hashing, r: Row, digest: TollHash.Digest)
    ensures TollHash.Content(PROVIDER, Hashed(f, r)) == RowText(f, r)
  {
    TollHash.HashRowIs(digest, PROVIDER, Hashed(f, r), 0);
  }

  lemma {:induction false} AlikeIs(f: Hashing, rows: seq<Row>, text: string)
    ensures TollHash.Multiplicity(PROVIDER, HashedRows(f, rows), text) == SameText(f, rows, text)
    decreases |rows|
  {
    if rows != [] {
      var n := |rows| - 1;
      AlikeIs(f, rows[..n], text);
      assert HashedRows(f, rows)[..n] == HashedRows(f, rows[..n]);
      RowTextIs(f, rows[n], f.digest);
    }
  }

  /** A hash does not depend on the hashes the rows carried before. */
  lemma {:induction false} AlikeAttached(f: Hashing, rows: seq<Row>, hs: seq<TollHash.Row>, n: nat, text: string)
    requires |rows| == |hs| && n <= |rows|
    ensures SameText(f, Attach(rows, hs)[..n], text) == SameText(f, rows[..n], text)
    decreases n
  {
    if n > 0 {
      AlikeAttached(f, rows, hs, n - 1, text);
      assert Attach(rows, hs)[..n][..n - 1] == Attach(rows, hs)[..n - 1] && rows[..n][..n - 1] == rows[..n - 1];
      assert RowText(f, Attach(rows, hs)[n - 1]) == RowText(f, rows[n - 1]);
    }
  }

  /**
   The hash of every row of a parsed file: the digest of the nine texts it covers and of how many rows with the
   same texts came before it.
   */
  lemma ParsedHashIs(conv: Converters, f: Hashing, account: string, t: Table, i: nat)
    requires TollHash.Injective(f.digest) && i < |ReadTable(conv, f, account, t).rows|
    ensures var rows := ReadTable(conv, f, account, t).rows;
      var text := RowText(f, rows[i]);
      rows[i].hash == f.digest(text + [0x1F as char] + TollHash.Itoa(SameText(f, rows[..i], text)))
  {
    var goods := Goods(Outcomes(PrePass(conv, t), t));
    AttachedHashIs(f, goods, TollHash.Assigned(f.digest, PROVIDER, HashedRows(f, goods)), i);
  }

  lemma AttachedHashIs(f: Hashing, goods: seq<Row>, hs: seq<TollHash.Row>, i: nat)
    requires TollHash.Injective(f.digest) && i < |goods| == |hs|
    requires hs == TollHash.Assigned(f.digest, PROVIDER, HashedRows(f, goods))
    ensures var rows := Attach(goods, hs);
      var text := RowText(f, rows[i]);
      rows[i].hash == f.digest(text + [0x1F as char] + TollHash.Itoa(SameText(f, rows[..i], text)))
  {
    var text := RowText(f, goods[i]);
    TollHash.HashIs(f.digest, PROVIDER, HashedRows(f, goods), i);
    RowTextIs(f, goods[i], f.digest);
    assert HashedRows(f, goods)[..i] == HashedRows(f, goods[..i]);
    AlikeIs(f, goods[..i], text);
    AlikeAttached(f, goods, hs, i, text);
    assert RowText(f, Attach(goods, hs)[i]) == text;
  }

  // ---------------------------------------------------------------- every row is accounted for

  ghost predicate Numbered(outs: seq<Outcome>, first: nat) {
    forall i :: 0 <= i < |outs| ==>
      && (outs[i].Good? ==> outs[i].row.rowNumber == first + i)
      && (outs[i].Bad? ==> outs[i].error.rowNumber == first + i)
  }

  lemma {:induction false} CountsAddUp(outs: seq<Outcome>)
    ensures |Goods(outs)| + |Bads(outs)| + Skips(outs) == |outs|
    decreases |outs|
  {
    if outs != [] { CountsAddUp(outs[..|outs| - 1]); }
  }

  lemma {:induction false} GoodsNumbered(outs: seq<Outcome>, first: nat)
    requires Numbered(outs, first)
    ensures forall k :: 0 <= k < |Goods(outs)| ==> first <= Goods(outs)[k].rowNumber < first + |outs|
    ensures forall k, l :: 0 <= k < l < |Goods(outs)| ==> Goods(outs)[k].rowNumber < Goods(outs)[l].rowNumber
    decreases |outs|
  {
    if outs != [] { GoodsNumbered(outs[..|outs| - 1], first); }
  }

  lemma {:induction false} BadsNumbered(outs: seq<Outcome>, first: nat)
    requires Numbered(outs, first)
    ensures forall k :: 0 <= k < |Bads(outs)| ==> first <= Bads(outs)[k].rowNumber < first + |outs|
    ensures forall k, l :: 0 <= k < l < |Bads(outs)| ==> Bads(outs)[k].rowNumber < Bads(outs)[l].rowNumber
    decreases |outs|
  {
    if outs != [] { BadsNumbered(outs[..|outs| - 1], first); }
  }

  ghost predicate HasRow(rows: seq<Row>, number: nat) {
    exists k :: 0 <= k < |rows| && rows[k].rowNumber == number
  }

  ghost predicate HasError(errors: seq<RowError>, number: nat) {
    exists k :: 0 <= k < |errors| && errors[k].rowNumber == number
  }

  lemma {:induction false} NumberTells(outs: seq<Outcome>, first: nat, i: nat)
    requires Numbered(outs, first) && i < |outs|
    ensures HasRow(Goods(outs), first + i) <==> outs[i].Good?
    ensures HasError(Bads(outs), first + i) <==> outs[i].Bad?
    decreases |outs|
  {
    var n := |outs| - 1;
    var init, last := outs[..n], outs[n];
    var goods, bads := Goods(init), Bads(init);
    GoodsNumbered(init, first);
    BadsNumbered(init, first);
    if i < n {
      NumberTells(init, first, i);
    }
    assert HasRow(goods, first + i) ==> HasRow(Goods(outs), first + i) by {
      if k :| 0 <= k < |goods| && goods[k].rowNumber == first + i { assert Goods(outs)[k] == goods[k]; }
    }
    assert HasError(bads, first + i) ==> HasError(Bads(outs), first + i) by {
      if k :| 0 <= k < |bads| && bads[k].rowNumber == first + i { assert Bads(outs)[k] == bads[k]; }
    }
    assert last.Good? ==> Goods(outs)[|goods|] == last.row;
    assert last.Bad? ==> Bads(outs)[|bads|] == last.error;
  }

  /**
   Every data row ends in exactly one place. Counts add up; row numbers increase strictly in both lists; and
   sheet row n beneath the header is in the rows, in the errors, or blank, according to what it holds.
   */
  lemma EveryRowAccounted(conv: Converters, f: Hashing, account: string, s: Sheet, header: nat)
    requires header < |s.rows|
    ensures var t := TableOf(s, header);
      var p := ReadTable(conv, f, account, t);
      && |p.rows| + |p.errors| + p.skipped == |s.rows| - (header + 1)
      && (forall k, l :: 0 <= k < l < |p.rows| ==> p.rows[k].rowNumber < p.rows[l].rowNumber)
      && (forall k, l :: 0 <= k < l < |p.errors| ==> p.errors[k].rowNumber < p.errors[l].rowNumber)
      && (forall r :: header < r < |s.rows| ==>
            && (HasRow(p.rows, r + 1) <==> !Blank(s.rows[r]) && PrePass(conv, t)(r + 1, s.rows[r]).Ok?)
            && (HasError(p.errors, r + 1) <==> !Blank(s.rows[r]) && PrePass(conv, t)(r + 1, s.rows[r]).Err?))
  {
    var t := TableOf(s, header);
    var outs := Outcomes(PrePass(conv, t), t);
    RowsAreAccounted(PrePass(conv, t), s, header, t, outs);
    HashesKeepNumbers(Goods(outs), TollHash.Assigned(f.digest, PROVIDER, HashedRows(f, Goods(outs))));
  }

  lemma RowsAreAccounted(parse: RowParser, s: Sheet, header: nat, t: Table, outs: seq<Outcome>)
    requires header < |s.rows| && t.rows == s.rows[header + 1..] && t.headerRow == header + 1
    requires outs == Outcomes(parse, t)
    requires forall n: nat, row: Cells :: Labels(parse(n, row), n)
    ensures |Goods(outs)| + |Bads(outs)| + Skips(outs) == |s.rows| - (header + 1)
    ensures forall k, l :: 0 <= k < l < |Goods(outs)| ==> Goods(outs)[k].rowNumber < Goods(outs)[l].rowNumber
    ensures forall k, l :: 0 <= k < l < |Bads(outs)| ==> Bads(outs)[k].rowNumber < Bads(outs)[l].rowNumber
    ensures forall r :: header < r < |s.rows| ==>
      && (HasRow(Goods(outs), r + 1) <==> !Blank(s.rows[r]) && parse(r + 1, s.rows[r]).Ok?)
      && (HasError(Bads(outs), r + 1) <==> !Blank(s.rows[r]) && parse(r + 1, s.rows[r]).Err?)
  {
    OutcomesAreNumbered(parse, t, outs);
    CountsAddUp(outs);
    GoodsNumbered(outs, header + 2);
    BadsNumbered(outs, header + 2);
    forall r | header < r < |s.rows|
      ensures HasRow(Goods(outs), r + 1) <==> !Blank(s.rows[r]) && parse(r + 1, s.rows[r]).Ok?
      ensures HasError(Bads(outs), r + 1) <==> !Blank(s.rows[r]) && parse(r + 1, s.rows[r]).Err?
    {
      RowIsAccounted(parse, s, header, t, outs, r - header - 1);
    }
  }

  lemma RowIsAccounted(parse: RowParser, s: Sheet, header: nat, t: Table, outs: seq<Outcome>, i: nat)
    requires header < |s.rows| && t.rows == s.rows[header + 1..] && t.headerRow == header + 1
    requires outs == Outcomes(parse, t)
    requires Numbered(outs, header + 2) && i < |t.rows|
    ensures var r := header + 1 + i;
      && (HasRow(Goods(outs), r + 1) <==> !Blank(s.rows[r]) && parse(r + 1, s.rows[r]).Ok?)
      && (HasError(Bads(outs), r + 1) <==> !Blank(s.rows[r]) && parse(r + 1, s.rows[r]).Err?)
  {
    NumberTells(outs, header + 2, i);
    assert t.rows[i] == s.rows[header + 1 + i] && outs[i] == OutcomeOf(parse, t, i);
  }

  lemma OutcomesAreNumbered(parse: RowParser, t: Table, outs: seq<Outcome>)
    requires outs == Outcomes(parse, t) && forall n: nat, row: Cells :: Labels(parse(n, row), n)
    ensures Numbered(outs, t.headerRow + 1)
  {
    forall i | 0 <= i < |outs|
      ensures outs[i].Good? ==> outs[i].row.rowNumber == t.headerRow + 1 + i
      ensures outs[i].Bad? ==> outs[i].error.rowNumber == t.headerRow + 1 + i
    {
      assert outs[i] == OutcomeOf(parse, t, i) && Labels(parse(t.headerRow + 1 + i, t.rows[i]), t.headerRow + 1 + i);
    }
  }

  lemma HashesKeepNumbers(rows: seq<Row>, hs: seq<TollHash.Row>)
    requires |rows| == |hs|
    ensures forall k :: 0 <= k < |rows| ==> Attach(rows, hs)[k].rowNumber == rows[k].rowNumber
    ensures forall n :: HasRow(Attach(rows, hs), n) <==> HasRow(rows, n)
  {
    var out := Attach(rows, hs);
    assert forall k :: 0 <= k < |rows| ==> out[k].rowNumber == rows[k].rowNumber;
    forall n ensures HasRow(out, n) <==> HasRow(rows, n) {
      if k :| 0 <= k < |rows| && rows[k].rowNumber == n { assert out[k].rowNumber == n; }
    }
  }

  lemma {:induction false} GoodsAreParsed(outs: seq<Outcome>, k: nat) returns (i: nat)
    requires k < |Goods(outs)|
    ensures i < |outs| && outs[i] == Good(Goods(outs)[k])
    decreases |outs|
  {
    var init := outs[..|outs| - 1];
    if k < |Goods(init)| { i := GoodsAreParsed(init, k); } else { i := |outs| - 1; }
  }

  lemma {:induction false} BadsAreParsed(outs: seq<Outcome>, k: nat) returns (i: nat)
    requires k < |Bads(outs)|
    ensures i < |outs| && outs[i] == Bad(Bads(outs)[k])
    decreases |outs|
  {
    var init := outs[..|outs| - 1];
    if k < |Bads(init)| { i := BadsAreParsed(init, k); } else { i := |outs| - 1; }
  }

  /** Some data row that is not blank parses to this. */
  ghost predicate ParsesTo(conv: Converters, s: Sheet, header: nat, result: Result<Row, RowError>)
    requires header < |s.rows|
  {
    exists r :: header < r < |s.rows| && !Blank(s.rows[r])
                && PrePass(conv, TableOf(s, header))(r + 1, s.rows[r]) == result
  }

  /** Every row of the result is what its sheet row parses to, but for the hash; every error is what one fails with. */
  lemma RowsAreParsed(conv: Converters, f: Hashing, account: string, s: Sheet, header: nat, k: nat)
    requires header < |s.rows|
    ensures var t := TableOf(s, header);
      var p := ReadTable(conv, f, account, t);
      && p.account == account
      && (k < |p.rows| ==> ParsesTo(conv, s, header, Ok(p.rows[k].(hash := ""))))
      && (k < |p.errors| ==> ParsesTo(conv, s, header, Err(p.errors[k])))
  {
    var t := TableOf(s, header);
    var p := ReadTable(conv, f, account, t);
    var outs := Outcomes(PrePass(conv, t), t);
    if k < |p.rows| {
      var i := GoodsAreParsed(outs, k);
      RowFrom(PrePass(conv, t), s, header, t, outs, i);
      ParsedUnhashed(conv, t, header + 2 + i, s.rows[header + 1 + i]);
      assert p.rows[k].(hash := "") == Goods(outs)[k].(hash := "") == outs[i].row;
    }
    if k < |p.errors| {
      var i := BadsAreParsed(outs, k);
      RowFrom(PrePass(conv, t), s, header, t, outs, i);
    }
  }

  lemma RowFrom(parse: RowParser, s: Sheet, header: nat, t: Table, outs: seq<Outcome>, i: nat)
    requires header < |s.rows| && t.rows == s.rows[header + 1..] && t.headerRow == header + 1
    requires outs == Outcomes(parse, t) && i < |outs|
    ensures var r := header + 1 + i;
      && r < |s.rows| && (outs[i].Skip? <==> Blank(s.rows[r]))
      && (outs[i].Good? ==> parse(r + 1, s.rows[r]) == Ok(outs[i].row))
      && (outs[i].Bad? ==> parse(r + 1, s.rows[r]) == Err(outs[i].error))
  {
    assert outs[i] == OutcomeOf(parse, t, i) && t.rows[i] == s.rows[header + 1 + i];
  }

  /** Rows are parsed without a hash. */
  lemma ParsedUnhashed(conv: Converters, t: Table, n: nat, row: Cells)
    ensures PrePass(conv, t)(n, row).Ok? ==> PrePass(conv, t)(n, row).value.hash == ""
  {
  }

  // ---------------------------------------------------------------- columns may move

  /**
   A rearrangement of columns: where each old column goes, and what each new column was (None for an inserted
   one).
   */
  datatype Columns = Columns(to: nat -> nat, from: nat -> Option<nat>)

  ghost predicate Rearrangement(cols: Columns) {
    && (forall c: nat :: cols.from(cols.to(c)) == Some(c))
    && (forall d: nat :: cols.from(d).Some? ==> cols.to(cols.from(d).value) == d)
  }

  /** The row with its cells moved, and nothing but white space in inserted columns. */
  ghost predicate Moved(cols: Columns, row: Cells, row': Cells) {
    forall d: nat :: match cols.from(d) case Some(c) => At(row', d) == At(row, c) case None => AllSpace(At(row', d))
  }

  ghost predicate SheetMoved(cols: Columns, s: Sheet, s': Sheet) {
    s'.name == s.name && |s'.rows| == |s.rows| && forall i :: 0 <= i < |s.rows| ==> Moved(cols, s.rows[i], s'.rows[i])
  }

  /**
   Columns that share a name keep their order: so it is whenever all names differ, and whenever columns are only
   inserted.
   */
  ghost predicate NamesakesInOrder(cols: Columns, header: Cells) {
    forall c: nat, d: nat :: c < d < |header| && Name(header[c]) == Name(header[d]) != "" ==> cols.to(c) < cols.to(d)
  }

  lemma NamesakesIf(cols: Columns, header: Cells)
    requires (forall c: nat, d: nat :: c < d < |header| && Name(header[c]) != "" ==> Name(header[c]) != Name(header[d]))
          || (forall c: nat, d: nat :: c < d ==> cols.to(c) < cols.to(d))
    ensures NamesakesInOrder(cols, header)
  {
  }

  lemma MovedCell(cols: Columns, row: Cells, row': Cells, c: nat)
    requires Rearrangement(cols) && Moved(cols, row, row')
    ensures At(row', cols.to(c)) == At(row, c)
  {
    assert cols.from(cols.to(c)) == Some(c);
  }

  /** Every new cell that is not blank is an old one. */
  lemma OldCell(cols: Columns, row: Cells, row': Cells, d: nat) returns (c: nat)
    requires Rearrangement(cols) && Moved(cols, row, row') && d < |row'| && !AllSpace(row'[d])
    ensures c < |row| && row[c] == row'[d] && cols.to(c) == d
  {
    assert At(row', d) == row'[d];
    c := cols.from(d).value;
  }

  /** The column the index gives for a name is its first. */
  ghost predicate IsFirst(raw: Cells, key: string, c: nat) {
    key != "" && c < |raw| && Name(raw[c]) == key && forall d: nat :: d < c ==> Name(raw[d]) != key
  }

  lemma {:induction false} IndexIsFirst(raw: Cells, key: string)
    ensures key in IndexOf(raw) ==> IsFirst(raw, key, IndexOf(raw)[key])
    ensures key !in IndexOf(raw) ==> key == "" || forall c: nat :: c < |raw| ==> Name(raw[c]) != key
    decreases |raw|
  {
    if raw != [] { IndexIsFirst(raw[..|raw| - 1], key); }
  }

  /** The names found do not depend on the arrangement. */
  lemma SameNames(cols: Columns, raw: Cells, raw': Cells, key: string)
    requires Rearrangement(cols) && Moved(cols, raw, raw')
    ensures key in IndexOf(raw) <==> key in IndexOf(raw')
  {
    IndexIsFirst(raw, key);
    IndexIsFirst(raw', key);
    if key in IndexOf(raw) {
      var c := IndexOf(raw)[key];
      MovedCell(cols, raw, raw', c);
      SpacerIff("");
    }
    if key in IndexOf(raw') {
      var d := IndexOf(raw')[key];
      SpacerIff(raw'[d]);
      var c := OldCell(cols, raw, raw', d);
    }
  }

  lemma IndexMoves(cols: Columns, raw: Cells, raw': Cells, key: string)
    requires Rearrangement(cols) && Moved(cols, raw, raw') && NamesakesInOrder(cols, raw) && key in IndexOf(raw)
    ensures key in IndexOf(raw') && IndexOf(raw')[key] == cols.to(IndexOf(raw)[key])
  {
    SameNames(cols, raw, raw', key);
    IndexIsFirst(raw, key);
    IndexIsFirst(raw', key);
    var c, d := IndexOf(raw)[key], IndexOf(raw')[key];
    SpacerIff(raw'[d]);
    var e := OldCell(cols, raw, raw', d);
    MovedCell(cols, raw, raw', c);
    SpacerIff("");
    assert c <= e;
  }

  /** Every name still leads to the same column. */
  ghost predicate NamesFollow(cols: Columns, raw: Cells, raw': Cells) {
    forall key :: key in IndexOf(raw) ==> key in IndexOf(raw') && IndexOf(raw')[key] == cols.to(IndexOf(raw)[key])
  }

  /** The first column of each name stays the first. */
  ghost predicate FirstsStayFirst(cols: Columns, raw: Cells) {
    forall d: nat :: d < |raw| && Name(raw[d]) != "" ==>
      Name(raw[d]) in IndexOf(raw) && cols.to(IndexOf(raw)[Name(raw[d])]) <= cols.to(d)
  }

  /** For reading cells by name, order among namesakes matters just so far as the first one stays the first. */
  lemma NamesFollowIff(cols: Columns, raw: Cells, raw': Cells)
    requires Rearrangement(cols) && Moved(cols, raw, raw')
    ensures NamesFollow(cols, raw, raw') <==> FirstsStayFirst(cols, raw)
  {
    SpacerIff("");
    if NamesFollow(cols, raw, raw') {
      forall d: nat | d < |raw| && Name(raw[d]) != ""
        ensures Name(raw[d]) in IndexOf(raw) && cols.to(IndexOf(raw)[Name(raw[d])]) <= cols.to(d)
      {
        IndexIsFirst(raw, Name(raw[d]));
        IndexIsFirst(raw', Name(raw[d]));
        MovedCell(cols, raw, raw', d);
      }
    }
    if FirstsStayFirst(cols, raw) {
      forall key | key in IndexOf(raw)
        ensures key in IndexOf(raw') && IndexOf(raw')[key] == cols.to(IndexOf(raw)[key])
      {
        SameNames(cols, raw, raw', key);
        IndexIsFirst(raw, key);
        IndexIsFirst(raw', key);
        MovedCell(cols, raw, raw', IndexOf(raw)[key]);
        SpacerIff(raw'[IndexOf(raw')[key]]);
        var e := OldCell(cols, raw, raw', IndexOf(raw')[key]);
      }
    }
  }

  lemma CellMoves(cols: Columns, s: Sheet, s': Sheet, i: nat, row: Cells, row': Cells, name: string)
    requires Rearrangement(cols) && SheetMoved(cols, s, s') && i < |s.rows| && NamesakesInOrder(cols, s.rows[i])
    requires Moved(cols, row, row')
    ensures Cell(TableOf(s', i), row', name) == Cell(TableOf(s, i), row, name)
  {
    var key := Name(name);
    SameNames(cols, s.rows[i], s'.rows[i], key);
    if key in IndexOf(s.rows[i]) {
      IndexMoves(cols, s.rows[i], s'.rows[i], key);
      MovedCell(cols, row, row', IndexOf(s.rows[i])[key]);
    }
    assert TrimSpace("") == "";
  }

  lemma BlankMoves(cols: Columns, row: Cells, row': Cells)
    requires Rearrangement(cols) && Moved(cols, row, row')
    ensures Blank(row) <==> Blank(row')
  {
    if Blank(row) {
      forall d: nat | d < |row'| ensures TrimSpace(row'[d]) == "" {
        if !AllSpace(row'[d]) { var c := OldCell(cols, row, row', d); }
      }
    }
    if Blank(row') {
      forall c: nat | c < |row| ensures TrimSpace(row[c]) == "" {
        MovedCell(cols, row, row', c);
      }
    }
  }

  /** `c` is the last of the columns below `n` with header `h` that has a value. */
  ghost predicate IsLast(headers: seq<string>, value: Values, n: nat, h: string, c: nat)
    requires n <= |headers|
  {
    && c < n && headers[c] == h && value(c) != ""
    && forall d: nat :: c < d < n && headers[d] == h ==> value(d) == ""
  }

  lemma {:induction false} RawIsLast(headers: seq<string>, value: Values, n: nat, h: string) returns (c: nat)
    requires n <= |headers|
    ensures h in RawUpTo(headers, value, n) ==>
      h != "" && IsLast(headers, value, n, h, c) && RawUpTo(headers, value, n)[h] == value(c)
    ensures h !in RawUpTo(headers, value, n) ==>
      h == "" || forall d: nat :: d < n && headers[d] == h ==> value(d) == ""
    decreases n
  {
    c := 0;
    if n > 0 {
      c := RawIsLast(headers, value, n - 1, h);
      if headers[n - 1] == h && value(n - 1) != "" {
        c := n - 1;
      }
    }
  }

  /**
   The raw map of a row, from the header cells as they stand in the sheet: under a squeezed header the last value
   of the columns that have it, and nothing where none has a value.
   */
  lemma RawMapIs(raw: Cells, row: Cells, h: string) returns (c: nat)
    ensures h in RawOf(HeadersOf(raw), row) ==>
      && h != "" && c < |raw| && NormalizeHeader(raw[c]) == h
      && RawOf(HeadersOf(raw), row)[h] == TrimSpace(At(row, c)) != ""
      && forall d: nat :: c < d < |raw| && NormalizeHeader(raw[d]) == h ==> TrimSpace(At(row, d)) == ""
    ensures h !in RawOf(HeadersOf(raw), row) && h != "" ==>
      forall d: nat :: d < |raw| && NormalizeHeader(raw[d]) == h ==> TrimSpace(At(row, d)) == ""
  {
    var headers := HeadersOf(raw);
    c := RawIsLast(headers, ValuesOf(row), |headers|, h);
    forall d: nat | d < |raw| && NormalizeHeader(raw[d]) == h
      ensures headers[d] == h && ValuesOf(row)(d) == TrimSpace(At(row, d))
    {
    }
  }

  lemma SameHeaderSameName(a: string, b: string)
    requires NormalizeHeader(a) == NormalizeHeader(b) != ""
    ensures Name(a) == Name(b) != ""
  {
  }

  /** A column with a header and a value is found again, in the other arrangement. */
  lemma ValueMoves(cols: Columns, raw: Cells, raw': Cells, row: Cells, row': Cells, c: nat)
    requires Rearrangement(cols) && Moved(cols, raw, raw') && Moved(cols, row, row')
    requires c < |raw| && NormalizeHeader(raw[c]) != ""
    ensures cols.to(c) < |raw'| && NormalizeHeader(raw'[cols.to(c)]) == NormalizeHeader(raw[c])
    ensures At(row', cols.to(c)) == At(row, c)
  {
    MovedCell(cols, raw, raw', c);
    MovedCell(cols, row, row', c);
    BlankHeaderIff("");
  }

  /**
   `to` embeds the named, filled columns of one row of headers and values in another, onto all of them and in the
   order of namesakes.
   */
  ghost predicate Embeds(to: nat -> nat, hs: seq<string>, value: Values, hs': seq<string>, value': Values) {
    && (forall c: nat {:trigger to(c)} :: c < |hs| && hs[c] != "" ==>
        to(c) < |hs'| && hs'[to(c)] == hs[c] && value'(to(c)) == value(c))
    && (forall d: nat :: d < |hs'| && hs'[d] != "" ==> exists c: nat :: c < |hs| && hs[c] == hs'[d] && to(c) == d)
    && (forall c: nat, d: nat {:trigger to(c), to(d)} :: c < d < |hs| && hs[c] == hs[d] != "" ==> to(c) < to(d))
  }

  lemma RawEntryMoves(to: nat -> nat, hs: seq<string>, value: Values, hs': seq<string>, value': Values, h: string)
    requires Embeds(to, hs, value, hs', value')
    ensures var m, m' := RawUpTo(hs, value, |hs|), RawUpTo(hs', value', |hs'|);
      (h in m <==> h in m') && (h in m ==> m[h] == m'[h])
  {
    var c := RawIsLast(hs, value, |hs|, h);
    var d := RawIsLast(hs', value', |hs'|, h);
    assert h in RawUpTo(hs, value, |hs|) ==> hs'[to(c)] == h && value'(to(c)) != "";
    if h in RawUpTo(hs', value', |hs'|) {
      var e: nat :| e < |hs| && hs[e] == hs'[d] && to(e) == d;
      assert value(e) != "";
      assert c == e;
    }
  }

  lemma RawEmbeds(cols: Columns, raw: Cells, raw': Cells, row: Cells, row': Cells)
    requires Rearrangement(cols) && Moved(cols, raw, raw') && Moved(cols, row, row') && NamesakesInOrder(cols, raw)
    ensures Embeds(cols.to, HeadersOf(raw), ValuesOf(row), HeadersOf(raw'), ValuesOf(row'))
  {
    var hs, hs' := HeadersOf(raw), HeadersOf(raw');
    forall c: nat | c < |hs| && hs[c] != ""
      ensures cols.to(c) < |hs'| && hs'[cols.to(c)] == hs[c] && At(row', cols.to(c)) == At(row, c)
    {
      ValueMoves(cols, raw, raw', row, row', c);
    }
    forall d: nat | d < |hs'| && hs'[d] != "" ensures exists c: nat :: c < |hs| && hs[c] == hs'[d] && cols.to(c) == d {
      BlankHeaderIff(raw'[d]);
      var c := OldCell(cols, raw, raw', d);
      assert hs[c] == hs'[d];
    }
    forall c: nat, d: nat | c < d < |hs| && hs[c] == hs[d] != "" ensures cols.to(c) < cols.to(d) {
      SameHeaderSameName(raw[c], raw[d]);
    }
  }

  lemma RawMoves(cols: Columns, raw: Cells, raw': Cells, row: Cells, row': Cells)
    requires Rearrangement(cols) && Moved(cols, raw, raw') && Moved(cols, row, row') && NamesakesInOrder(cols, raw)
    ensures RawOf(HeadersOf(raw'), row') == RawOf(HeadersOf(raw), row)
  {
    RawEmbeds(cols, raw, raw', row, row');
    EmbeddedRaw(cols.to, HeadersOf(raw), ValuesOf(row), HeadersOf(raw'), ValuesOf(row'));
  }

  lemma EmbeddedRaw(to: nat -> nat, hs: seq<string>, value: Values, hs': seq<string>, value': Values)
    requires Embeds(to, hs, value, hs', value')
    ensures RawUpTo(hs, value, |hs|) == RawUpTo(hs', value', |hs'|)
  {
    forall h
      ensures h in RawUpTo(hs, value, |hs|) <==> h in RawUpTo(hs', value', |hs'|)
      ensures h in RawUpTo(hs, value, |hs|) ==> RawUpTo(hs, value, |hs|)[h] == RawUpTo(hs', value', |hs'|)[h]
    {
      RawEntryMoves(to, hs, value, hs', value', h);
    }
  }

  /** The two parsers agree on corresponding rows. */
  lemma ParsersAgree(conv: Converters, cols: Columns, s: Sheet, s': Sheet, header: nat, t: Table, t': Table,
                     parse: RowParser, parse': RowParser, n: nat, row: Cells, row': Cells)
    requires Rearrangement(cols) && SheetMoved(cols, s, s') && header < |s.rows|
    requires NamesakesInOrder(cols, s.rows[header])
    requires t == TableOf(s, header) && t' == TableOf(s', header) && parse == PrePass(conv, t)
    requires parse' == PrePass(conv, t')
    requires Moved(cols, row, row')
    ensures parse'(n, row') == parse(n, row)
  {
    forall name ensures CellsOf(t', row')(name) == CellsOf(t, row)(name) {
      CellMoves(cols, s, s', header, row, row', name);
    }
    RawMoves(cols, s.rows[header], s'.rows[header], row, row');
    SameTexts(conv.names, CellsOf(t, row), CellsOf(t', row'));
  }

  lemma SameTexts(names: Layout, read: Reader, read': Reader)
    requires forall name :: read'(name) == read(name)
    ensures TextsOf(names, read') == TextsOf(names, read)
  {
  }

  /** Two parsers treat row `i` of their tables alike. */
  ghost predicate Alike(parse: RowParser, t: Table, parse': RowParser, t': Table, i: nat)
    requires i < |t.rows| && i < |t'.rows|
  {
    && (Blank(t'.rows[i]) <==> Blank(t.rows[i]))
    && parse'(t'.headerRow + 1 + i, t'.rows[i]) == parse(t.headerRow + 1 + i, t.rows[i])
  }

  lemma SameOutcomes(parse: RowParser, t: Table, parse': RowParser, t': Table)
    requires |t'.rows| == |t.rows| && forall i :: 0 <= i < |t.rows| ==> Alike(parse, t, parse', t', i)
    ensures Outcomes(parse', t') == Outcomes(parse, t)
  {
    assert forall i :: 0 <= i < |t.rows| && Alike(parse, t, parse', t', i) ==>
        OutcomeOf(parse', t', i) == OutcomeOf(parse, t, i);
  }

  /** Two parsers agree on every row and its rearrangement. */
  ghost predicate Agree(cols: Columns, parse: RowParser, parse': RowParser) {
    forall n: nat, row: Cells, row': Cells {:trigger parse'(n, row'), parse(n, row)} ::
      Moved(cols, row, row') ==> parse'(n, row') == parse(n, row)
  }

  lemma OutcomesMove(cols: Columns, s: Sheet, s': Sheet, header: nat, t: Table, t': Table, parse: RowParser,
                     parse': RowParser)
    requires Rearrangement(cols) && SheetMoved(cols, s, s') && header < |s.rows| && Agree(cols, parse, parse')
    requires t == TableOf(s, header) && t' == TableOf(s', header)
    ensures Outcomes(parse', t') == Outcomes(parse, t)
  {
    forall i | 0 <= i < |t.rows| ensures Alike(parse, t, parse', t', i) {
      assert Moved(cols, s.rows[header + 1 + i], s'.rows[header + 1 + i]);
      BlankMoves(cols, t.rows[i], t'.rows[i]);
    }
    SameOutcomes(parse, t, parse', t');
  }

  lemma TableMoves(conv: Converters, f: Hashing, account: string, cols: Columns, s: Sheet, s': Sheet, header: nat)
    requires Rearrangement(cols) && SheetMoved(cols, s, s') && header < |s.rows|
    requires NamesakesInOrder(cols, s.rows[header])
    ensures ReadTable(conv, f, account, TableOf(s', header)) == ReadTable(conv, f, account, TableOf(s, header))
  {
    var t, t' := TableOf(s, header), TableOf(s', header);
    forall n: nat, row: Cells, row': Cells | Moved(cols, row, row')
      ensures PrePass(conv, t')(n, row') == PrePass(conv, t)(n, row)
    {
      ParsersAgree(conv, cols, s, s', header, t, t', PrePass(conv, t), PrePass(conv, t'), n, row, row');
    }
    OutcomesMove(cols, s, s', header, t, t', PrePass(conv, t), PrePass(conv, t'));
  }

  ghost predicate SheetsMoved(cols: seq<Columns>, sheets: seq<Sheet>, sheets': seq<Sheet>) {
    && |cols| == |sheets| == |sheets'|
    && forall k :: 0 <= k < |sheets| ==> Rearrangement(cols[k]) && SheetMoved(cols[k], sheets[k], sheets'[k])
  }

  /** The header row is found in the same place, whatever the arrangement. */
  lemma CandidatesStay(cols: seq<Columns>, sheets: seq<Sheet>, sheets': seq<Sheet>, names: seq<string>, k: nat, i: nat)
    requires SheetsMoved(cols, sheets, sheets')
    ensures Candidate(sheets, names, k, i) <==> Candidate(sheets', names, k, i)
  {
    if k < |sheets| && i < |sheets[k].rows| {
      forall key ensures key in IndexOf(sheets[k].rows[i]) <==> key in IndexOf(sheets'[k].rows[i]) {
        SameNames(cols[k], sheets[k].rows[i], sheets'[k].rows[i], key);
      }
    }
  }

  /** Columns are only inserted. */
  ghost predicate OnlyInserts(cols: Columns) {
    forall c: nat, d: nat :: c < d ==> cols.to(c) < cols.to(d)
  }

  ghost predicate OthersInserted(cols: seq<Columns>, sheets: seq<Sheet>, dataSheet: string) {
    forall k :: 0 <= k < |sheets| && k < |cols| && sheets[k].name != dataSheet ==> OnlyInserts(cols[k])
  }

  /** The columns from `c` on are those moved to `d` and beyond. */
  ghost predicate Cut(cols: Columns, c: nat, d: nat) {
    forall e: nat :: cols.to(e) >= d <==> e >= c
  }

  /** At new column `d` stands old column `c`, or blanks. */
  lemma CutMoves(cols: Columns, row: Cells, row': Cells, c: nat, d: nat)
    requires Rearrangement(cols) && OnlyInserts(cols) && Moved(cols, row, row') && Cut(cols, c, d)
    ensures cols.from(d).None? ==> AllSpace(At(row', d)) && Cut(cols, c, d + 1)
    ensures cols.from(d).Some? ==> At(row', d) == At(row, c) && Cut(cols, c + 1, d + 1)
  {
    if cols.from(d).Some? {
      var e := cols.from(d).value;
      assert cols.to(e) == d && cols.to(c) >= d;
      assert e == c;
    } else {
      forall e: nat ensures cols.to(e) >= d + 1 <==> e >= c {
        assert cols.from(cols.to(e)).Some?;
      }
    }
  }

  lemma NothingBeyond(cols: Columns, row: Cells, row': Cells, c: nat, d: nat, e: nat)
    requires Rearrangement(cols) && Moved(cols, row, row') && Cut(cols, c, d) && d >= |row'| && c <= e < |row|
    ensures row[e] == ""
  {
    MovedCell(cols, row, row', e);
  }

  lemma {:induction false} FirstValueMoves(cols: Columns, row: Cells, row': Cells, c: nat, d: nat)
    requires Rearrangement(cols) && OnlyInserts(cols) && Moved(cols, row, row') && Cut(cols, c, d)
    ensures FirstValue(row', d) == FirstValue(row, c)
    decreases |row'| - d
  {
    if d >= |row'| {
      forall e: nat | c <= e < |row| ensures TrimSpace(row[e]) == "" { NothingBeyond(cols, row, row', c, d, e); }
      var e := FirstValueIs(row, c);
    } else {
      CutMoves(cols, row, row', c, d);
      FirstValueMoves(cols, row, row', if cols.from(d).Some? then c + 1 else c, d + 1);
      assert TrimSpace("") == "";
    }
  }

  lemma {:induction false} AccountInRowMoves(cols: Columns, row: Cells, row': Cells, c: nat, d: nat)
    requires Rearrangement(cols) && OnlyInserts(cols) && Moved(cols, row, row') && Cut(cols, c, d)
    ensures AccountInRow(row', d) == AccountInRow(row, c)
    decreases |row'| - d
  {
    if d >= |row'| {
      forall e: nat | c <= e < |row| ensures Name(row[e]) == "" {
        NothingBeyond(cols, row, row', c, d, e);
        SpacerIff(row[e]);
      }
      NoLabels(row, c);
    } else {
      CutMoves(cols, row, row', c, d);
      SpacerIff(row'[d]);
      var next := if cols.from(d).Some? then c + 1 else c;
      AccountInRowMoves(cols, row, row', next, d + 1);
      FirstValueMoves(cols, row, row', next, d + 1);
    }
  }

  lemma {:induction false} NoLabels(row: Cells, c: nat)
    requires forall e: nat :: c <= e < |row| ==> Name(row[e]) == ""
    ensures AccountInRow(row, c) == ""
    decreases |row| - c
  {
    if c < |row| { NoLabels(row, c + 1); }
  }

  lemma {:induction false} AccountInRowsMoves(cols: Columns, s: Sheet, s': Sheet, i: nat)
    requires Rearrangement(cols) && OnlyInserts(cols) && SheetMoved(cols, s, s')
    ensures AccountInRows(s'.rows, i) == AccountInRows(s.rows, i)
    decreases |s.rows| - i
  {
    if i < |s.rows| {
      assert Cut(cols, 0, 0);
      AccountInRowMoves(cols, s.rows[i], s'.rows[i], 0, 0);
      AccountInRowsMoves(cols, s, s', i + 1);
    }
  }

  lemma {:induction false} AccountMoves(cols: seq<Columns>, sheets: seq<Sheet>, sheets': seq<Sheet>,
                                        dataSheet: string, k: nat)
    requires SheetsMoved(cols, sheets, sheets') && OthersInserted(cols, sheets, dataSheet)
    ensures AccountOf(sheets', dataSheet, k) == AccountOf(sheets, dataSheet, k)
    decreases |sheets| - k
  {
    if k < |sheets| {
      if sheets[k].name != dataSheet { AccountInRowsMoves(cols[k], sheets[k], sheets'[k], 0); }
      AccountMoves(cols, sheets, sheets', dataSheet, k + 1);
    }
  }

  /**
   The result of reading a file is blind to the arrangement of its columns: permute the columns of any sheet
   and insert blank ones anywhere, and rows, errors, counts and hashes stay the same, as long as columns of
   the same name keep their order. Beside the data sheet columns may only be inserted, as an account is read
   from the cell to the right of its label.
   */
  lemma ColumnsMayMove(conv: Converters, f: Hashing, cols: seq<Columns>, sheets: seq<Sheet>, sheets': seq<Sheet>,
                       required: seq<string>, result: Option<Parsed>)
    requires Parses(conv, f, sheets, required, result) && SheetsMoved(cols, sheets, sheets')
    requires forall k: nat, i: nat :: IsHeader(sheets, required, k, i) ==>
      NamesakesInOrder(cols[k], sheets[k].rows[i]) && OthersInserted(cols, sheets, sheets[k].name)
    ensures Parses(conv, f, sheets', required, result)
  {
    forall k: nat, i: nat ensures Candidate(sheets, required, k, i) <==> Candidate(sheets', required, k, i) {
      CandidatesStay(cols, sheets, sheets', required, k, i);
    }
    if result.Some? {
      var k: nat, i: nat :| IsHeader(sheets, required, k, i) && result.value == ReadSheet(conv, f, sheets, k, i);
      AccountMoves(cols, sheets, sheets', sheets[k].name, 0);
      TableMoves(conv, f, AccountOf(sheets, sheets[k].name, 0), cols[k], sheets[k], sheets'[k], i);
      assert IsHeader(sheets', required, k, i);
    }
  }

  lemma ParseIsUnique(conv: Converters, f: Hashing, sheets: seq<Sheet>, required: seq<string>, a: Option<Parsed>,
                      b: Option<Parsed>)
    requires Parses(conv, f, sheets, required, a) && Parses(conv, f, sheets, required, b)
    ensures a == b
  {
    if a.Some? && b.Some? {
      var k: nat, i: nat :| IsHeader(sheets, required, k, i) && a.value == ReadSheet(conv, f, sheets, k, i);
      var l: nat, j: nat :| IsHeader(sheets, required, l, j) && b.value == ReadSheet(conv, f, sheets, l, j);
      assert k == l && i == j;
    }
  }
}
