/** Batched inserts: how many rows are prepared, and which placeholder gets which value
    (src/db/pmdb.cpp:62-541, 544-596). */
module PmDb {
  import opened Wrappers

  /** What a record holds per parameter type and component. */
  datatype Key = ComponentCount | ComponentType | Opcode | TpMti | MsgPart | MsgParts | MsgId | ErrorType |
                 ErrorCodeOf | CalledAddress | CallingAddress | ScdaDigits | ScoaDigits | ImsiDigits | MsisdnDigits |
                 NnnDigits | AnDigits | ScaDigits | TpDaDigits | TpOaDigits | TpUd | TimeOf | TpDcs | TpDaType |
                 TpOaType | DestinationCode | OriginatingCode | SourceTransaction | DestinationTransaction |
                 ContextOid

  datatype Variant = Variant(number: int, text: string, octets: seq<nat>)

  type Record = map<(Key, int), Variant>

  /** Where the value of a column comes from; `own` parameters belong to the component, others to the record. */
  datatype Source = NumberOf(key: Key, own: bool) | UnsignedOf(key: Key, own: bool) | TextOf(key: Key, own: bool) |
                    HexOf(key: Key, own: bool) | Time | Direction | SizeType | Status | One | Nothing

  datatype Cell = Null | Number(number: int) | Wide(number: int) | Text(text: string) | Hex(octets: seq<nat>)

  datatype Kind = Sms | Sri

  /** The columns of `insert into Sms`, in its order. */
  function SmsColumn(c: nat): Source
    requires c < 34
  {
    match c
    case 0 => Direction // DirectionId
    case 1 => SizeType // SmsSizeTypeId
    case 2 => One // PduId
    case 3 => Nothing // FilterActionId
    case 4 => Status // SmsStatusId
    case 5 => Nothing // FilterExitPoint
    case 6 => Nothing // SourceIp
    case 7 => Nothing // DestinationIp
    case 8 => Nothing // SourcePort
    case 9 => Nothing // DestinationPort
    case 10 => Nothing // SystemId
    case 11 => TextOf(CalledAddress, false) // CalledGt
    case 12 => TextOf(CallingAddress, false) // CallingGt
    case 13 => TextOf(ScdaDigits, true) // Scda
    case 14 => TextOf(ScoaDigits, true) // Scoa
    case 15 => TextOf(ImsiDigits, true) // Imsi
    case 16 => TextOf(MsisdnDigits, true) // Msisdn
    case 17 => TextOf(TpDaDigits, true) // SmsDestination
    case 18 => TextOf(TpOaDigits, true) // SmsOriginating
    case 19 => HexOf(TpUd, true) // SmsText
    case 20 => Time // Timestamp
    case 21 => NumberOf(TpDcs, true) // SmsTextEncId
    case 22 => NumberOf(TpDaType, true) // SmsDestinationEncId
    case 23 => NumberOf(TpOaType, true) // SmsOriginatingEncId
    case 24 => NumberOf(DestinationCode, false) // DestinationPointCode
    case 25 => NumberOf(OriginatingCode, false) // OriginatingPointCode
    case 26 => UnsignedOf(SourceTransaction, false) // TcapSid
    case 27 => UnsignedOf(DestinationTransaction, false) // TcapDid
    case 28 => TextOf(ContextOid, false) // AppCtxOid
    case 29 => NumberOf(MsgPart, true) // SmsPartnum
    case 30 => NumberOf(MsgParts, true) // SmsParts
    case 31 => NumberOf(MsgId, true) // SmsMessageId
    case 32 => NumberOf(ErrorType, true) // ErrorTypeId
    case _ => NumberOf(ErrorCodeOf, true) // ErrorCode
  }

  /** The columns of `insert into Sri`, in its order, after the constant first one. */
  function SriColumn(c: nat): Source
    requires c < 15
  {
    match c
    case 0 => NumberOf(OriginatingCode, false) // OriginatingPointCode
    case 1 => NumberOf(DestinationCode, false) // DestinationPointCode
    case 2 => TextOf(CalledAddress, false) // CalledGt
    case 3 => TextOf(CallingAddress, false) // CallingGt
    case 4 => UnsignedOf(SourceTransaction, false) // TcapSid
    case 5 => UnsignedOf(DestinationTransaction, false) // TcapDid
    case 6 => TextOf(ContextOid, false) // AppCtxOid
    case 7 => TextOf(ImsiDigits, true) // Imsi
    case 8 => TextOf(MsisdnDigits, true) // Msisdn
    case 9 => TextOf(NnnDigits, true) // Nnn
    case 10 => TextOf(AnDigits, true) // An
    case 11 => TextOf(ScaDigits, true) // Sca
    case 12 => Time // Timestamp
    case 13 => NumberOf(ErrorType, true) // ErrorTypeId
    case _ => NumberOf(ErrorCodeOf, true) // ErrorCode
  }

  function ColumnAt(kind: Kind, c: nat): Source
    requires c < Width(kind)
  {
    match kind
    case Sms => SmsColumn(c)
    case Sri => SriColumn(c)
  }

  function Width(kind: Kind): nat {
    match kind
    case Sms => 34
    case Sri => 15
  }

  function NumberOr(r: Record, k: Key, j: int): Cell {
    if (k, j) in r then Number(r[(k, j)].number) else Null
  }

  /** A 32-bit number bound as 64 bits, without its sign. */
  function UnsignedOr(r: Record, k: Key, j: int): Cell {
    if (k, j) in r then Wide(r[(k, j)].number % 0x1_0000_0000) else Null
  }

  function TextOr(r: Record, k: Key, j: int): Cell {
    if (k, j) in r then Text(r[(k, j)].text) else Null
  }

  function HexOr(r: Record, k: Key, j: int): Cell {
    if (k, j) in r && r[(k, j)].octets != [] then Hex(r[(k, j)].octets) else Null
  }

  /** The record's own time, or the clock's. */
  function When(r: Record, now: int): Cell {
    if (TimeOf, 0) in r then Wide(r[(TimeOf, 0)].number % 0x1_0000_0000) else Wide(now)
  }

  /** The value of a column for component j of a record. */
  function ValueOf(s: Source, r: Record, j: int, now: int): Cell {
    match s
    case NumberOf(k, own) => NumberOr(r, k, if own then j else 0)
    case UnsignedOf(k, own) => UnsignedOr(r, k, if own then j else 0)
    case TextOf(k, own) => TextOr(r, k, if own then j else 0)
    case HexOf(k, own) => HexOr(r, k, if own then j else 0)
    case Time => When(r, now)
    case Direction => Number(if (TpMti, j) in r && r[(TpMti, j)].number != 0 then 1 else 2)
    case SizeType => Number(if (MsgPart, j) in r then 2 else 1)
    case Status => Number(if (ErrorType, j) in r then 2 else 1)
    case One => Number(1)
    case Nothing => Null
  }

  // ---------------------------------------------------------------- which components make rows

  predicate Invokes(r: Record, j: int) {
    (ComponentType, j) in r && r[(ComponentType, j)].number == 1 && (Opcode, j) in r
  }

  /** sendRoutingInfoForSM, or mo-forward and mt-forward with a TP-MTI. */
  predicate MakesRow(kind: Kind, r: Record, j: int) {
    Invokes(r, j) &&
    match kind
    case Sms => r[(Opcode, j)].number in {44, 46} && (TpMti, j) in r
    case Sri => r[(Opcode, j)].number == 45
  }

  function Components(r: Record): nat {
    if (ComponentCount, 0) in r && r[(ComponentCount, 0)].number > 0 then r[(ComponentCount, 0)].number else 0
  }

  /** The rows of the first n components of a record, in order. */
  function RowsOf(kind: Kind, r: Record, n: nat): seq<(Record, int)> {
    if n == 0 then [] else RowsOf(kind, r, n - 1) + if MakesRow(kind, r, n - 1) then [(r, n - 1)] else []
  }

  /** The rows of a list of records. */
  function Rows(kind: Kind, data: seq<Record>): seq<(Record, int)> {
    if data == [] then []
    else
      var last := data[|data| - 1];
      Rows(kind, data[..|data| - 1]) + RowsOf(kind, last, Components(last))
  }

  // ---------------------------------------------------------------- the prepared statement

  /** The cells of a row, column by column of the insert statement. */
  function Cells(kind: Kind, row: (Record, int), now: int): (r: seq<Cell>)
    ensures |r| == Width(kind)
  {
    seq(Width(kind), c requires 0 <= c < Width(kind) => ValueOf(ColumnAt(kind, c), row.0, row.1, now))
  }

  function AllCells(kind: Kind, rows: seq<(Record, int)>, now: int): (r: seq<Cell>)
    ensures |r| == Width(kind) * |rows|
  {
    if rows == [] then []
    else
      var init := rows[..|rows| - 1];
      assert Width(kind) * |rows| == Width(kind) * |init| + Width(kind);
      AllCells(kind, init, now) + Cells(kind, rows[|rows| - 1], now)
  }

  /** Row by row, column by column: the cell at each place of the statement. */
  lemma {:induction false} CellAt(kind: Kind, rows: seq<(Record, int)>, now: int, k: nat, c: nat)
    requires k < |rows| && c < Width(kind)
    ensures 0 <= Width(kind) * k + c < |AllCells(kind, rows, now)|
    ensures AllCells(kind, rows, now)[Width(kind) * k + c] == ValueOf(ColumnAt(kind, c), rows[k].0, rows[k].1, now)
  {
    var init := rows[..|rows| - 1];
    if k < |init| {
      CellAt(kind, init, now, k, c);
    } else {
      assert |AllCells(kind, init, now)| == Width(kind) * k;
    }
  }

  /** A prepared statement: the number of its placeholders and what was bound to them, in order. */
  class PreparedStatement {
    const placeholders: nat
    var bound: seq<(int, Cell)>

    constructor (placeholders: nat)
      ensures this.placeholders == placeholders && bound == []
    {
      this.placeholders, bound := placeholders, [];
    }

    /** Binds a value to a placeholder, counted from 1; any other index is an error of the database library. */
    method Set(i: int, c: Cell)
      requires 1 <= i <= placeholders
      modifies this
      ensures bound == old(bound) + [(i, c)]
    {
      bound := bound + [(i, c)];
    }
  }

  /** The first k cells bound to the placeholders that follow the first l, in order. */
  function BoundTo(l: nat, cells: seq<Cell>, k: nat): (r: seq<(int, Cell)>)
    requires k <= |cells|
    ensures |r| == k
  {
    if k == 0 then [] else BoundTo(l, cells, k - 1) + [(k + l, cells[k - 1])]
  }

  /** The cells bound to placeholders 1, 2, 3, and so on. */
  function Numbered(cells: seq<Cell>): seq<(int, Cell)> {
    BoundTo(0, cells, |cells|)
  }

  /** Each placeholder from 1 on is bound exactly once, to its cell. */
  lemma {:induction false} EachOnce(cells: seq<Cell>, n: nat, k: nat)
    requires k < n <= |cells|
    ensures BoundTo(0, cells, n)[k] == (k + 1, cells[k])
  {
    if k < n - 1 {
      EachOnce(cells, n - 1, k);
    }
  }

  lemma {:induction false} NumberedMore(a: seq<Cell>, b: seq<Cell>, k: nat)
    requires k <= |b|
    ensures BoundTo(0, a + b, |a| + k) == Numbered(a) + BoundTo(|a|, b, k)
  {
    if k == 0 {
      SamePrefix(a, b, |a|);
      assert Numbered(a) + [] == Numbered(a);
    } else {
      NumberedMore(a, b, k - 1);
    }
  }

  lemma {:induction false} SamePrefix(a: seq<Cell>, b: seq<Cell>, k: nat)
    requires k <= |a|
    ensures BoundTo(0, a + b, k) == BoundTo(0, a, k)
  {
    if k > 0 {
      SamePrefix(a, b, k - 1);
    }
  }

  // ---------------------------------------------------------------- binding one row

  lemma NoneBound(was: seq<(int, Cell)>, l: nat, row: seq<Cell>)
    ensures was == was + BoundTo(l, row, 0)
  {
  }

  /** Binds the k-th value of a row that starts after placeholder l. */
  method Bind(prep: PreparedStatement, l: nat, k: nat, c: Cell,
              ghost was: seq<(int, Cell)>, ghost kind: Kind, ghost row: (Record, int), ghost now: int)
    requires 1 <= k <= Width(kind) && k + l <= prep.placeholders
    requires c == ValueOf(ColumnAt(kind, k - 1), row.0, row.1, now)
    requires prep.bound == was + BoundTo(l, Cells(kind, row, now), k - 1)
    modifies prep
    ensures prep.bound == was + BoundTo(l, Cells(kind, row, now), k)
  {
    hide BoundTo, Cells, ValueOf, ColumnAt;
    CellOf(kind, row, now, k - 1);
    OneMoreBound(was, l, Cells(kind, row, now), k);
    prep.Set(k + l, c);
  }

  lemma CellOf(kind: Kind, row: (Record, int), now: int, c: nat)
    requires c < Width(kind)
    ensures Cells(kind, row, now)[c] == ValueOf(ColumnAt(kind, c), row.0, row.1, now)
  {
    hide ValueOf, ColumnAt;
  }

  lemma OneMoreBound(was: seq<(int, Cell)>, l: nat, cells: seq<Cell>, k: nat)
    requires 1 <= k <= |cells|
    ensures was + BoundTo(l, cells, k) == was + BoundTo(l, cells, k - 1) + [(k + l, cells[k - 1])]
  {
  }

  /** Direction, size, type, status and filters. */
  method BindDirection(prep: PreparedStatement, l: nat, r: Record, j: int, now: int, ghost was: seq<(int, Cell)>)
    requires MakesRow(Sms, r, j) && l + 34 <= prep.placeholders
    requires prep.bound == was + BoundTo(l, Cells(Sms, (r, j), now), 0)
    modifies prep
    ensures prep.bound == was + BoundTo(l, Cells(Sms, (r, j), now), 6)
  {
    hide BoundTo, Cells, NumberOr, TextOr, UnsignedOr, HexOr, When;
    var tmp := r[(TpMti, j)].number;
    Bind(prep, l, 1, Number(if tmp == 0 then 2 else 1), was, Sms, (r, j), now);
    Bind(prep, l, 2, Number(if (MsgPart, j) in r then 2 else 1), was, Sms, (r, j), now);
    Bind(prep, l, 3, Number(1), was, Sms, (r, j), now);
    Bind(prep, l, 4, Null, was, Sms, (r, j), now);
    Bind(prep, l, 5, Number(if (ErrorType, j) in r then 2 else 1), was, Sms, (r, j), now);
    Bind(prep, l, 6, Null, was, Sms, (r, j), now);
  }

  /** What SS7 does not use. */
  method BindUnused(prep: PreparedStatement, l: nat, r: Record, j: int, now: int, ghost was: seq<(int, Cell)>)
    requires l + 34 <= prep.placeholders
    requires prep.bound == was + BoundTo(l, Cells(Sms, (r, j), now), 6)
    modifies prep
    ensures prep.bound == was + BoundTo(l, Cells(Sms, (r, j), now), 11)
  {
    hide BoundTo, Cells, NumberOr, TextOr, UnsignedOr, HexOr, When;
    Bind(prep, l, 7, Null, was, Sms, (r, j), now);
    Bind(prep, l, 8, Null, was, Sms, (r, j), now);
    Bind(prep, l, 9, Null, was, Sms, (r, j), now);
    Bind(prep, l, 10, Null, was, Sms, (r, j), now);
    Bind(prep, l, 11, Null, was, Sms, (r, j), now);
  }

  /** Global titles and subscriber addresses. */
  method BindAddresses(prep: PreparedStatement, l: nat, r: Record, j: int, now: int, ghost was: seq<(int, Cell)>)
    requires l + 34 <= prep.placeholders
    requires prep.bound == was + BoundTo(l, Cells(Sms, (r, j), now), 11)
    modifies prep
    ensures prep.bound == was + BoundTo(l, Cells(Sms, (r, j), now), 17)
  {
    hide BoundTo, Cells, NumberOr, TextOr, UnsignedOr, HexOr, When;
    Bind(prep, l, 12, TextOr(r, CalledAddress, 0), was, Sms, (r, j), now);
    Bind(prep, l, 13, TextOr(r, CallingAddress, 0), was, Sms, (r, j), now);
    Bind(prep, l, 14, TextOr(r, ScdaDigits, j), was, Sms, (r, j), now);
    Bind(prep, l, 15, TextOr(r, ScoaDigits, j), was, Sms, (r, j), now);
    Bind(prep, l, 16, TextOr(r, ImsiDigits, j), was, Sms, (r, j), now);
    Bind(prep, l, 17, TextOr(r, MsisdnDigits, j), was, Sms, (r, j), now);
  }

  /** Destination, origin, text, time and codings. */
  method BindMessage(prep: PreparedStatement, l: nat, r: Record, j: int, now: int, ghost was: seq<(int, Cell)>)
    requires l + 34 <= prep.placeholders
    requires prep.bound == was + BoundTo(l, Cells(Sms, (r, j), now), 17)
    modifies prep
    ensures prep.bound == was + BoundTo(l, Cells(Sms, (r, j), now), 24)
  {
    hide BoundTo, Cells, NumberOr, TextOr, UnsignedOr, HexOr, When;
    Bind(prep, l, 18, TextOr(r, TpDaDigits, j), was, Sms, (r, j), now);
    Bind(prep, l, 19, TextOr(r, TpOaDigits, j), was, Sms, (r, j), now);
    Bind(prep, l, 20, HexOr(r, TpUd, j), was, Sms, (r, j), now);
    Bind(prep, l, 21, When(r, now), was, Sms, (r, j), now);
    Bind(prep, l, 22, NumberOr(r, TpDcs, j), was, Sms, (r, j), now);
    Bind(prep, l, 23, NumberOr(r, TpDaType, j), was, Sms, (r, j), now);
    Bind(prep, l, 24, NumberOr(r, TpOaType, j), was, Sms, (r, j), now);
  }

  /** Point codes, transactions and application context. */
  method BindTransport(prep: PreparedStatement, l: nat, r: Record, j: int, now: int, ghost was: seq<(int, Cell)>)
    requires l + 34 <= prep.placeholders
    requires prep.bound == was + BoundTo(l, Cells(Sms, (r, j), now), 24)
    modifies prep
    ensures prep.bound == was + BoundTo(l, Cells(Sms, (r, j), now), 29)
  {
    hide BoundTo, Cells, NumberOr, TextOr, UnsignedOr, HexOr, When;
    Bind(prep, l, 25, NumberOr(r, DestinationCode, 0), was, Sms, (r, j), now);
    Bind(prep, l, 26, NumberOr(r, OriginatingCode, 0), was, Sms, (r, j), now);
    Bind(prep, l, 27, UnsignedOr(r, SourceTransaction, 0), was, Sms, (r, j), now);
    Bind(prep, l, 28, UnsignedOr(r, DestinationTransaction, 0), was, Sms, (r, j), now);
    Bind(prep, l, 29, TextOr(r, ContextOid, 0), was, Sms, (r, j), now);
  }

  /** Message parts and errors. */
  method BindOutcome(prep: PreparedStatement, l: nat, r: Record, j: int, now: int, ghost was: seq<(int, Cell)>)
    requires l + 34 <= prep.placeholders
    requires prep.bound == was + BoundTo(l, Cells(Sms, (r, j), now), 29)
    modifies prep
    ensures prep.bound == was + BoundTo(l, Cells(Sms, (r, j), now), 34)
  {
    hide BoundTo, Cells, NumberOr, TextOr, UnsignedOr, HexOr, When;
    Bind(prep, l, 30, NumberOr(r, MsgPart, j), was, Sms, (r, j), now);
    Bind(prep, l, 31, NumberOr(r, MsgParts, j), was, Sms, (r, j), now);
    Bind(prep, l, 32, NumberOr(r, MsgId, j), was, Sms, (r, j), now);
    Bind(prep, l, 33, NumberOr(r, ErrorType, j), was, Sms, (r, j), now);
    Bind(prep, l, 34, NumberOr(r, ErrorCodeOf, j), was, Sms, (r, j), now);
  }

  /** The 34 values of an SMS row. */
  method BindSms(prep: PreparedStatement, l: nat, r: Record, j: int, now: int)
    requires MakesRow(Sms, r, j) && l + 34 <= prep.placeholders
    modifies prep
    ensures prep.bound == old(prep.bound) + BoundTo(l, Cells(Sms, (r, j), now), 34)
  {
    hide BoundTo, Cells, NumberOr, TextOr, UnsignedOr, HexOr, When;
    ghost var was := prep.bound;
    NoneBound(was, l, Cells(Sms, (r, j), now));
    BindDirection(prep, l, r, j, now, was);
    BindUnused(prep, l, r, j, now, was);
    BindAddresses(prep, l, r, j, now, was);
    BindMessage(prep, l, r, j, now, was);
    BindTransport(prep, l, r, j, now, was);
    BindOutcome(prep, l, r, j, now, was);
  }

  /** The 15 values of a routing row. */
  method BindSri(prep: PreparedStatement, l: nat, r: Record, j: int, now: int)
    requires MakesRow(Sri, r, j) && l + 15 <= prep.placeholders
    modifies prep
    ensures prep.bound == old(prep.bound) + BoundTo(l, Cells(Sri, (r, j), now), 15)
  {
    hide BoundTo, Cells, NumberOr, TextOr, UnsignedOr, HexOr, When;
    ghost var was := prep.bound;
    NoneBound(was, l, Cells(Sri, (r, j), now));
    Bind(prep, l, 1, NumberOr(r, OriginatingCode, 0), was, Sri, (r, j), now);
    Bind(prep, l, 2, NumberOr(r, DestinationCode, 0), was, Sri, (r, j), now);
    Bind(prep, l, 3, TextOr(r, CalledAddress, 0), was, Sri, (r, j), now);
    Bind(prep, l, 4, TextOr(r, CallingAddress, 0), was, Sri, (r, j), now);
    Bind(prep, l, 5, UnsignedOr(r, SourceTransaction, 0), was, Sri, (r, j), now);
    Bind(prep, l, 6, UnsignedOr(r, DestinationTransaction, 0), was, Sri, (r, j), now);
    Bind(prep, l, 7, TextOr(r, ContextOid, 0), was, Sri, (r, j), now);
    Bind(prep, l, 8, TextOr(r, ImsiDigits, j), was, Sri, (r, j), now);
    Bind(prep, l, 9, TextOr(r, MsisdnDigits, j), was, Sri, (r, j), now);
    Bind(prep, l, 10, TextOr(r, NnnDigits, j), was, Sri, (r, j), now);
    Bind(prep, l, 11, TextOr(r, AnDigits, j), was, Sri, (r, j), now);
    Bind(prep, l, 12, TextOr(r, ScaDigits, j), was, Sri, (r, j), now);
    Bind(prep, l, 13, When(r, now), was, Sri, (r, j), now);
    Bind(prep, l, 14, NumberOr(r, ErrorType, j), was, Sri, (r, j), now);
    Bind(prep, l, 15, NumberOr(r, ErrorCodeOf, j), was, Sri, (r, j), now);
  }

  // ---------------------------------------------------------------- the batch

  lemma {:induction false} RowsOfMore(kind: Kind, r: Record, n: nat)
    ensures RowsOf(kind, r, n + 1) == if MakesRow(kind, r, n) then RowsOf(kind, r, n) + [(r, n)] else RowsOf(kind, r, n)
  {
    assert RowsOf(kind, r, n) + [] == RowsOf(kind, r, n);
  }

  lemma RowsMore(kind: Kind, data: seq<Record>, i: nat)
    requires i < |data|
    ensures Rows(kind, data[..i + 1]) == Rows(kind, data[..i]) + RowsOf(kind, data[i], Components(data[i]))
  {
    assert data[..i + 1][..i] == data[..i];
  }

  lemma {:induction false} RowsGrow(kind: Kind, r: Record, m: nat, n: nat)
    requires m <= n
    ensures |RowsOf(kind, r, m)| <= |RowsOf(kind, r, n)|
  {
    if m < n {
      RowsGrow(kind, r, m, n - 1);
    }
  }

  lemma {:induction false} AllRowsGrow(kind: Kind, data: seq<Record>, i: nat)
    requires i <= |data|
    ensures |Rows(kind, data[..i])| <= |Rows(kind, data)|
    decreases |data| - i
  {
    if i < |data| {
      RowsMore(kind, data, i);
      AllRowsGrow(kind, data, i + 1);
    } else {
      assert data[..i] == data;
    }
  }

  /** There is a placeholder for every cell of a row that is still to come. */
  lemma RoomForRow(kind: Kind, data: seq<Record>, i: nat, j: nat)
    requires i < |data| && j < Components(data[i]) && MakesRow(kind, data[i], j)
    ensures |Rows(kind, data[..i])| + |RowsOf(kind, data[i], j)| + 1 <= |Rows(kind, data)|
  {
    RowsOfMore(kind, data[i], j);
    RowsGrow(kind, data[i], j + 1, Components(data[i]));
    RowsMore(kind, data, i);
    AllRowsGrow(kind, data, i + 1);
  }

  lemma OneMoreRow(kind: Kind, rows: seq<(Record, int)>, row: (Record, int), now: int)
    ensures Numbered(AllCells(kind, rows + [row], now)) ==
            Numbered(AllCells(kind, rows, now)) + BoundTo(Width(kind) * |rows|, Cells(kind, row, now), Width(kind))
  {
    assert (rows + [row])[..|rows|] == rows;
    NumberedMore(AllCells(kind, rows, now), Cells(kind, row, now), Width(kind));
  }

  /** How far an insert is filled after i records and j components of the next. */
  function Filled(kind: Kind, data: seq<Record>, i: nat, j: nat, now: int): seq<(int, Cell)>
    requires i < |data|
  {
    Numbered(AllCells(kind, Rows(kind, data[..i]) + RowsOf(kind, data[i], j), now))
  }

  lemma NextComponent(kind: Kind, data: seq<Record>, i: nat, j: nat, now: int)
    requires i < |data| && j < Components(data[i])
    ensures var rows := |Rows(kind, data[..i])| + |RowsOf(kind, data[i], j)|;
            && |RowsOf(kind, data[i], j + 1)|
               == |RowsOf(kind, data[i], j)| + (if MakesRow(kind, data[i], j) then 1 else 0)
            && (MakesRow(kind, data[i], j) ==> Width(kind) * rows + Width(kind) <= Width(kind) * |Rows(kind, data)|)
            && Filled(kind, data, i, j + 1, now) ==
                 if !MakesRow(kind, data[i], j) then Filled(kind, data, i, j, now)
                 else
                   Filled(kind, data, i, j, now)
                   + BoundTo(Width(kind) * rows, Cells(kind, (data[i], j), now), Width(kind))
  {
    hide AllCells, Numbered, Cells, BoundTo, Rows, RowsOf, MakesRow;
    RowsOfMore(kind, data[i], j);
    if MakesRow(kind, data[i], j) {
      RoomForRow(kind, data, i, j);
      OneMoreRow(kind, Rows(kind, data[..i]) + RowsOf(kind, data[i], j), (data[i], j), now);
      assert Rows(kind, data[..i]) + RowsOf(kind, data[i], j + 1) ==
             Rows(kind, data[..i]) + RowsOf(kind, data[i], j) + [(data[i], j)];
    }
  }

  lemma NextRecord(kind: Kind, data: seq<Record>, i: nat, now: int)
    requires i < |data|
    ensures Filled(kind, data, i, 0, now) == Numbered(AllCells(kind, Rows(kind, data[..i]), now))
    ensures Filled(kind, data, i, Components(data[i]), now) == Numbered(AllCells(kind, Rows(kind, data[..i + 1]), now))
    ensures |RowsOf(kind, data[i], 0)| == 0
    ensures |Rows(kind, data[..i + 1])| == |Rows(kind, data[..i])| + |RowsOf(kind, data[i], Components(data[i]))|
  {
    RowsMore(kind, data, i);
    assert Rows(kind, data[..i]) + RowsOf(kind, data[i], 0) == Rows(kind, data[..i]);
  }

  lemma NothingFilled(kind: Kind, data: seq<Record>, now: int)
    requires data == []
    ensures Rows(kind, data) == [] && Numbered(AllCells(kind, Rows(kind, data), now)) == []
  {
  }

  /** The k-th row's column c is bound once, at its place, to the value that column has for the row's component. */
  lemma BoundAt(kind: Kind, data: seq<Record>, now: int, k: nat, c: nat)
    requires k < |Rows(kind, data)| && c < Width(kind)
    ensures var all, row := Numbered(AllCells(kind, Rows(kind, data), now)), Rows(kind, data)[k];
            && Width(kind) * k + c < |all|
            && all[Width(kind) * k + c] == (Width(kind) * k + c + 1, ValueOf(ColumnAt(kind, c), row.0, row.1, now))
  {
    hide ValueOf, ColumnAt, AllCells, Rows;
    var cells := AllCells(kind, Rows(kind, data), now);
    CellAt(kind, Rows(kind, data), now, k, c);
    EachOnce(cells, |cells|, Width(kind) * k + c);
  }

  // ---------------------------------------------------------------- what each column of the two tables gets

  /** The columns of both tables by name. */
  datatype Column = DirectionId | SmsSizeTypeId | PduId | FilterActionId | SmsStatusId | FilterExitPoint | SourceIp |
                    DestinationIp | SourcePort | DestinationPort | SystemId | CalledGt | CallingGt | Scda | Scoa
                      | Imsi |
                    Msisdn | SmsDestination | SmsOriginating | SmsText | Timestamp | SmsTextEncId |
                    SmsDestinationEncId | SmsOriginatingEncId | DestinationPointCode | OriginatingPointCode | TcapSid |
                    TcapDid | AppCtxOid | SmsPartnum | SmsParts | SmsMessageId | ErrorTypeId | ErrorCode | Nnn | An
                      | Sca

  /** The column lists of the insert statements; the routing one has a constant before these. */
  function ColumnName(kind: Kind, c: nat): Column
    requires c < Width(kind)
  {
    match kind
    case Sms => SmsName(c)
    case Sri => SriName(c)
  }

  function SmsName(c: nat): Column
    requires c < 34
  {
    match c
    case 0 => DirectionId case 1 => SmsSizeTypeId case 2 => PduId case 3 => FilterActionId case 4 => SmsStatusId
    case 5 => FilterExitPoint case 6 => SourceIp case 7 => DestinationIp case 8 => SourcePort
    case 9 => DestinationPort case 10 => SystemId case 11 => CalledGt case 12 => CallingGt case 13 => Scda
    case 14 => Scoa case 15 => Imsi case 16 => Msisdn case 17 => SmsDestination case 18 => SmsOriginating
    case 19 => SmsText case 20 => Timestamp case 21 => SmsTextEncId case 22 => SmsDestinationEncId
    case 23 => SmsOriginatingEncId case 24 => DestinationPointCode case 25 => OriginatingPointCode case 26 => TcapSid
    case 27 => TcapDid case 28 => AppCtxOid case 29 => SmsPartnum case 30 => SmsParts case 31 => SmsMessageId
    case 32 => ErrorTypeId case _ => ErrorCode
  }

  function SriName(c: nat): Column
    requires c < 15
  {
    match c
    case 0 => OriginatingPointCode case 1 => DestinationPointCode case 2 => CalledGt case 3 => CallingGt
    case 4 => TcapSid case 5 => TcapDid case 6 => AppCtxOid case 7 => Imsi case 8 => Msisdn case 9 => Nnn
    case 10 => An case 11 => Sca case 12 => Timestamp case 13 => ErrorTypeId case _ => ErrorCode
  }

  /** A column that is in both tables gets the same cell in both. */
  lemma SharedColumns(r: Record, j: int, now: int, a: nat, b: nat)
    requires a < Width(Sms) && b < Width(Sri) && ColumnName(Sms, a) == ColumnName(Sri, b)
    ensures Cells(Sms, (r, j), now)[a] == Cells(Sri, (r, j), now)[b]
  {
    hide ValueOf, Cells;
    CellOf(Sms, (r, j), now, a);
    CellOf(Sri, (r, j), now, b);
  }

  /** Text columns: the parameter of the component, or of the record, or null if there is none. */
  lemma TextColumns(kind: Kind, r: Record, j: int, now: int, c: nat)
    requires c < Width(kind)
    ensures var own := match ColumnName(kind, c)
                       case Scda => Some(ScdaDigits)
                       case Scoa => Some(ScoaDigits)
                       case Imsi => Some(ImsiDigits)
                       case Msisdn => Some(MsisdnDigits)
                       case SmsDestination => Some(TpDaDigits)
                       case SmsOriginating => Some(TpOaDigits)
                       case Nnn => Some(NnnDigits)
                       case An => Some(AnDigits)
                       case Sca => Some(ScaDigits)
                       case _ => None;
            own.Some? ==>
              Cells(kind, (r, j), now)[c] ==
              if (own.value, j) in r then Text(r[(own.value, j)].text) else Null
    ensures var shared := match ColumnName(kind, c)
                          case CalledGt => Some(CalledAddress)
                          case CallingGt => Some(CallingAddress)
                          case AppCtxOid => Some(ContextOid)
                          case _ => None;
            shared.Some? ==>
              Cells(kind, (r, j), now)[c] ==
              if (shared.value, 0) in r then Text(r[(shared.value, 0)].text) else Null
  {
    hide NumberOr, UnsignedOr, HexOr, When, Cells;
    CellOf(kind, (r, j), now, c);
  }

  /** Number columns; a transaction id is bound as an unsigned number of 32 bits. */
  lemma NumberColumns(kind: Kind, r: Record, j: int, now: int, c: nat)
    requires c < Width(kind)
    ensures var own := match ColumnName(kind, c)
                       case SmsTextEncId => Some(TpDcs)
                       case SmsDestinationEncId => Some(TpDaType)
                       case SmsOriginatingEncId => Some(TpOaType)
                       case SmsPartnum => Some(MsgPart)
                       case SmsParts => Some(MsgParts)
                       case SmsMessageId => Some(MsgId)
                       case ErrorTypeId => Some(ErrorType)
                       case ErrorCode => Some(ErrorCodeOf)
                       case _ => None;
            own.Some? ==>
              Cells(kind, (r, j), now)[c] ==
              if (own.value, j) in r then Number(r[(own.value, j)].number) else Null
    ensures var shared := match ColumnName(kind, c)
                          case DestinationPointCode => Some(DestinationCode)
                          case OriginatingPointCode => Some(OriginatingCode)
                          case _ => None;
            shared.Some? ==>
              Cells(kind, (r, j), now)[c] ==
              if (shared.value, 0) in r then Number(r[(shared.value, 0)].number) else Null
    ensures var wide := match ColumnName(kind, c)
                        case TcapSid => Some(SourceTransaction)
                        case TcapDid => Some(DestinationTransaction)
                        case _ => None;
            wide.Some? ==>
              Cells(kind, (r, j), now)[c] ==
              if (wide.value, 0) in r then Wide(r[(wide.value, 0)].number % 0x1_0000_0000) else Null
  {
    hide TextOr, HexOr, When, Cells;
    CellOf(kind, (r, j), now, c);
  }

  /** The other columns: 1 or 2 by what the component has, the text in hex, the time, and what SS7 does not use. */
  lemma OtherColumns(kind: Kind, r: Record, j: int, now: int, c: nat)
    requires c < Width(kind)
    ensures var cell := Cells(kind, (r, j), now)[c];
            match ColumnName(kind, c)
            case DirectionId => (TpMti, j) in r ==> cell == Number(if r[(TpMti, j)].number == 0 then 2 else 1)
            case SmsSizeTypeId => cell == Number(if (MsgPart, j) in r then 2 else 1)
            case SmsStatusId => cell == Number(if (ErrorType, j) in r then 2 else 1)
            case PduId => cell == Number(1)
            case SmsText => cell == if (TpUd, j) in r &&
              |r[(TpUd, j)].octets| > 0 then Hex(r[(TpUd, j)].octets) else Null
            case Timestamp =>
              cell == if (TimeOf, 0) in r then Wide(r[(TimeOf, 0)].number % 0x1_0000_0000) else Wide(now)
            case FilterActionId | FilterExitPoint | SourceIp | DestinationIp | SourcePort | DestinationPort
              | SystemId =>
              cell == Null
            case _ => true
  {
    hide NumberOr, TextOr, UnsignedOr, Cells;
    CellOf(kind, (r, j), now, c);
  }

  /** The rows of an insert are the components of the records, as many as each counts, that are invokes: of operation 45
      for a routing row, of 44 or 46 with a TP-MTI for an SMS row. */
  lemma RowsMade(data: seq<Record>, r: Record, j: int)
    ensures var counted := r in data && (ComponentCount, 0) in r && 0 <= j < r[(ComponentCount, 0)].number;
            var invoke := (ComponentType, j) in r && r[(ComponentType, j)].number == 1 && (Opcode, j) in r;
            && ((r, j) in Rows(Sri, data) <==> counted && invoke && r[(Opcode, j)].number == 45)
            && ((r, j) in Rows(Sms, data) <==>
                  counted && invoke && (r[(Opcode, j)].number == 44 || r[(Opcode, j)].number == 46)
                  && (TpMti, j) in r)
  {
    RowIn(Sri, data, r, j);
    RowIn(Sms, data, r, j);
  }

  lemma {:induction false} RowIn(kind: Kind, data: seq<Record>, r: Record, j: int)
    ensures (r, j) in Rows(kind, data) <==> r in data && 0 <= j < Components(r) && MakesRow(kind, r, j)
  {
    hide MakesRow, Components;
    if data != [] {
      var init, last := data[..|data| - 1], data[|data| - 1];
      RowIn(kind, init, r, j);
      RowOfIn(kind, last, Components(last), r, j);
      assert r in data <==> r in init || r == last;
    }
  }

  lemma {:induction false} RowOfIn(kind: Kind, last: Record, n: nat, r: Record, j: int)
    ensures (r, j) in RowsOf(kind, last, n) <==> r == last && 0 <= j < n && MakesRow(kind, r, j)
  {
    if n > 0 {
      RowOfIn(kind, last, n - 1, r, j);
    }
  }

  datatype Connection = Missing | Closed | Open

  class CombinedRecordProcessor {
    /** Counted SMS and routing components. */
    var smsCount: nat
    var sriCount: nat
    var connection: Connection

    constructor (connection: Connection)
      ensures smsCount == sriCount == 0 && this.connection == connection
    {
      smsCount, sriCount, this.connection := 0, 0, connection;
    }

    /** Counts the components of both kinds, prepares and fills both inserts. */
    method Run(data: seq<Record>, now: int) returns (sms: PreparedStatement?, sri: PreparedStatement?, res: int)
      modifies this`smsCount, this`sriCount
      ensures smsCount == old(smsCount) + |Rows(Sms, data)| && sriCount == old(sriCount) + |Rows(Sri, data)|
      ensures Inserted(Sms, data, now, sms) && Inserted(Sri, data, now, sri)
      ensures sms != null ==> fresh(sms)
      ensures sri != null ==> fresh(sri)
      ensures res == ResultOf(Sms, data) + ResultOf(Sri, data)
    {
      hide Rows, RowsOf, AllCells, Numbered, Filled;
      NothingFilled(Sms, data[..0], now);
      NothingFilled(Sri, data[..0], now);
      var tcSms, tcSri := 0, 0;
      var i := 0;
      while i < |data|
        invariant 0 <= i <= |data|
        invariant tcSms == |Rows(Sms, data[..i])| && tcSri == |Rows(Sri, data[..i])|
        invariant smsCount == old(smsCount) + tcSms && sriCount == old(sriCount) + tcSri
      {
        var dbr := data[i];
        NextRecord(Sms, data, i, now);
        NextRecord(Sri, data, i, now);
        if (ComponentCount, 0) in dbr {
          var cc := dbr[(ComponentCount, 0)].number;
          var j := 0;
          while j < cc
            invariant 0 <= j <= Components(dbr)
            invariant tcSms == |Rows(Sms, data[..i])| + |RowsOf(Sms, dbr, j)|
            invariant tcSri == |Rows(Sri, data[..i])| + |RowsOf(Sri, dbr, j)|
            invariant smsCount == old(smsCount) + tcSms && sriCount == old(sriCount) + tcSri
          {
            RowsOfMore(Sms, dbr, j);
            RowsOfMore(Sri, dbr, j);
            if (ComponentType, j) in dbr && dbr[(ComponentType, j)].number == 1 && (Opcode, j) in dbr {
              var tmp := dbr[(Opcode, j)].number;
              if 44 <= tmp <= 46 {
                if tmp == 45 {
                  tcSri, sriCount := tcSri + 1, sriCount + 1;
                } else if (TpMti, j) in dbr {
                  tcSms, smsCount := tcSms + 1, smsCount + 1;
                }
              }
            }
            j := j + 1;
          }
        }
        i := i + 1;
      }
      assert data[..i] == data;
      var resSms, resSri;
      sms, resSms := ProcessSms(data, tcSms, now);
      sri, resSri := ProcessSri(data, tcSri, now);
      res := resSms + resSri;
    }

    /** What an insert leaves behind: no statement without rows or connection; else each placeholder bound once. */
    ghost predicate Inserted(kind: Kind, data: seq<Record>, now: int, prep: PreparedStatement?)
      reads this, prep
    {
      if Rows(kind, data) == [] || connection != Open then prep == null
      else
        prep != null && prep.placeholders == Width(kind) * |Rows(kind, data)| &&
        prep.bound == Numbered(AllCells(kind, Rows(kind, data), now))
    }

    function ResultOf(kind: Kind, data: seq<Record>): int
      reads this
    {
      if Rows(kind, data) == [] then 0
      else
        match connection
        case Missing => 2003
        case Closed => 2013
        case Open => 0
    }

    method ProcessSms(data: seq<Record>, componentCount: nat, now: int) returns (prep: PreparedStatement?, res: int)
      requires componentCount == |Rows(Sms, data)|
      ensures Inserted(Sms, data, now, prep) && res == ResultOf(Sms, data)
      ensures res == if componentCount == 0 || connection == Open then 0
                     else if connection == Missing then 2003 else 2013
      ensures prep != null ==> fresh(prep)
    {
      hide Numbered, AllCells, Cells, Rows, RowsOf, Filled, BoundTo;
      NothingFilled(Sms, data[..0], now);
      if componentCount == 0 {
        return null, 0;
      }
      if connection == Missing {
        return null, 2003;
      }
      if connection == Closed {
        return null, 2013;
      }
      var marks, n := 0, 0;
      while n < componentCount - 1
        invariant 0 <= n <= componentCount - 1 && marks == 34 * n
      {
        marks, n := marks + 34, n + 1;
      }
      prep := new PreparedStatement(marks + 34);
      var cd, i := 0, 0;
      while i < |data|
        invariant 0 <= i <= |data| && cd == |Rows(Sms, data[..i])| && fresh(prep)
        invariant prep.bound == Numbered(AllCells(Sms, Rows(Sms, data[..i]), now))
      {
        var dbr := data[i];
        NextRecord(Sms, data, i, now);
        if (ComponentCount, 0) in dbr {
          var cc := dbr[(ComponentCount, 0)].number;
          var j := 0;
          while j < cc
            invariant 0 <= j <= Components(dbr) && fresh(prep)
            invariant cd == |Rows(Sms, data[..i])| + |RowsOf(Sms, dbr, j)|
            invariant prep.bound == Filled(Sms, data, i, j, now)
          {
            NextComponent(Sms, data, i, j, now);
            if (ComponentType, j) in dbr && dbr[(ComponentType, j)].number == 1 && (Opcode, j) in dbr {
              var tmp := dbr[(Opcode, j)].number;
              if tmp == 44 || tmp == 46 {
                if (TpMti, j) in dbr {
                  var l := 34 * cd;
                  BindSms(prep, l, dbr, j, now);
                  cd := cd + 1;
                }
              }
            }
            j := j + 1;
          }
        }
        i := i + 1;
      }
      assert data[..i] == data;
      res := 0;
    }

    method ProcessSri(data: seq<Record>, componentCount: nat, now: int) returns (prep: PreparedStatement?, res: int)
      requires componentCount == |Rows(Sri, data)|
      ensures Inserted(Sri, data, now, prep) && res == ResultOf(Sri, data)
      ensures res == if componentCount == 0 || connection == Open then 0
                     else if connection == Missing then 2003 else 2013
      ensures prep != null ==> fresh(prep)
    {
      hide Numbered, AllCells, Cells, Rows, RowsOf, Filled, BoundTo;
      NothingFilled(Sri, data[..0], now);
      if componentCount == 0 {
        return null, 0;
      }
      if connection == Missing {
        return null, 2003;
      }
      if connection == Closed {
        return null, 2013;
      }
      var marks, n := 0, 0;
      while n < componentCount - 1
        invariant 0 <= n <= componentCount - 1 && marks == 15 * n
      {
        marks, n := marks + 15, n + 1;
      }
      prep := new PreparedStatement(marks + 15);
      var cd, i := 0, 0;
      while i < |data|
        invariant 0 <= i <= |data| && cd == |Rows(Sri, data[..i])| && fresh(prep)
        invariant prep.bound == Numbered(AllCells(Sri, Rows(Sri, data[..i]), now))
      {
        var dbr := data[i];
        NextRecord(Sri, data, i, now);
        if (ComponentCount, 0) in dbr {
          var cc := dbr[(ComponentCount, 0)].number;
          var j := 0;
          while j < cc
            invariant 0 <= j <= Components(dbr) && fresh(prep)
            invariant cd == |Rows(Sri, data[..i])| + |RowsOf(Sri, dbr, j)|
            invariant prep.bound == Filled(Sri, data, i, j, now)
          {
            NextComponent(Sri, data, i, j, now);
            if (ComponentType, j) in dbr && dbr[(ComponentType, j)].number == 1 && (Opcode, j) in dbr {
              var tmp := dbr[(Opcode, j)].number;
              if tmp == 45 {
                var l := 15 * cd;
                BindSri(prep, l, dbr, j, now);
                cd := cd + 1;
              }
            }
            j := j + 1;
          }
        }
        i := i + 1;
      }
      assert data[..i] == data;
      res := 0;
    }
  }
}

