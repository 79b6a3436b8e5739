/** Packed host rows turned into the tuples of PostgreSQL's binary COPY format, and read back. */
module CopyEncoder {
  import opened Arithmetic
  import opened Bytes
  import opened Endian

  const PG_INT8: nat := 20
  const PG_INT2: nat := 21
  const PG_INT4: nat := 23
  const PG_FLOAT4: nat := 700
  const PG_FLOAT8: nat := 701
  const PG_TIMESTAMP: nat := 1114

  const POSTGRES_EPOCH_JDATE: int := 2451545
  const UNIX_EPOCH_JDATE: int := 2440588
  const USECS_PER_DAY: int := 86400000000
  const USECS_PER_SECOND: int := 1000000

  /** Seconds since 1970 as microseconds since 2000. */
  function UnixToPgTimestamp(t: int): int {
    t * USECS_PER_SECOND + (UNIX_EPOCH_JDATE - POSTGRES_EPOCH_JDATE) * USECS_PER_DAY
  }

  /** The whole seconds since 1970 that v stands for, if it does. */
  function PgToUnixTimestamp(v: int): Option<int> {
    var usecs := v - (UNIX_EPOCH_JDATE - POSTGRES_EPOCH_JDATE) * USECS_PER_DAY;
    if usecs % USECS_PER_SECOND == 0 then Some(usecs / USECS_PER_SECOND) else None
  }

  lemma TimestampInvertible(t: int)
    ensures PgToUnixTimestamp(UnixToPgTimestamp(t)) == Some(t)
  {
  }

  /** 946684800 is 2000-01-01 00:00:00 UTC. */
  lemma EpochsMeet()
    ensures UnixToPgTimestamp(946684800) == 0
  {
  }

  // ---- columns ----

  /** One row of the metadata query. */
  datatype CatalogRow = CatalogRow(oid: nat, length: nat, autoIncrement: bool)

  datatype Column = Column(oid: nat, length: nat, offset: int, autoIncrement: bool)

  function Widths(rows: seq<CatalogRow>): nat {
    if rows == [] then 0 else
      Widths(rows[..|rows| - 1]) + (var r := rows[|rows| - 1]; if r.autoIncrement then 0 else r.length)
  }

  function SentCount(rows: seq<CatalogRow>): nat {
    if rows == [] then 0 else
      SentCount(rows[..|rows| - 1]) + (if rows[|rows| - 1].autoIncrement then 0 else 1)
  }

  /** Every column that is sent starts where the ones sent before it end. */
  ghost predicate Describes(cols: seq<Column>, rows: seq<CatalogRow>) {
    && |cols| == |rows|
    && forall i :: 0 <= i < |rows| ==>
         cols[i] == Column(rows[i].oid, rows[i].length, if rows[i].autoIncrement then -1 else Widths(rows[..i]),
                           rows[i].autoIncrement)
  }

  /** The offset computation of GetTableMetadata. */
  method GetTableMetadata(rows: seq<CatalogRow>) returns (cols: seq<Column>, sent: nat, rowSize: nat)
    ensures Describes(cols, rows) && sent == SentCount(rows) && rowSize == Widths(rows)
  {
    cols, sent, rowSize := [], 0, 0;
    var offset := 0;
    var i := 0;
    while i < |rows|
      invariant 0 <= i <= |rows|
      invariant |cols| == i && Describes(cols, rows[..i])
      invariant offset == rowSize == Widths(rows[..i]) && sent == SentCount(rows[..i])
    {
      hide Describes, Widths, SentCount;
      var r := rows[i];
      NextColumn(cols, rows, i, offset);
      if r.autoIncrement {
        cols := cols + [Column(r.oid, r.length, -1, true)];
      } else {
        cols := cols + [Column(r.oid, r.length, offset, false)];
        offset := offset + r.length;
        rowSize := rowSize + r.length;
        sent := sent + 1;
      }
      i := i + 1;
    }
    assert rows[..|rows|] == rows;
  }

  lemma NextColumn(cols: seq<Column>, rows: seq<CatalogRow>, i: nat, offset: nat)
    requires i < |rows| && Describes(cols, rows[..i]) && offset == Widths(rows[..i])
    ensures var r := rows[i];
            Describes(cols + [Column(r.oid, r.length, if r.autoIncrement then -1 else offset, r.autoIncrement)],
                      rows[..i + 1])
    ensures Widths(rows[..i + 1]) == offset + (if rows[i].autoIncrement then 0 else rows[i].length)
    ensures SentCount(rows[..i + 1]) == SentCount(rows[..i]) + (if rows[i].autoIncrement then 0 else 1)
  {
    var more := rows[..i + 1];
    assert more[..i] == rows[..i];
    forall k | 0 <= k <= i ensures more[..k] == rows[..k] && (k < i ==> rows[..i][..k] == rows[..k]) {
    }
  }

  /** The columns named in the COPY command, in its order. */
  function Sent(cols: seq<Column>): (r: seq<Column>)
    ensures forall c :: c in r ==> c in cols && !c.autoIncrement
    ensures |r| <= |cols|
  {
    if cols == [] then [] else (if cols[0].autoIncrement then [] else [cols[0]]) + Sent(cols[1..])
  }

  /** The type is one the encoder knows, with the length the type has. */
  predicate Supported(c: Column) {
    match c.length
    case 2 => c.oid == PG_INT2
    case 4 => c.oid == PG_INT4 || c.oid == PG_FLOAT4
    case 8 => c.oid == PG_INT8 || c.oid == PG_FLOAT8 || c.oid == PG_TIMESTAMP
    case _ => false
  }

  /** How many bytes the encoder reads and writes for a type, whatever the declared length. */
  function Width(oid: nat): nat {
    if oid == PG_INT8 || oid == PG_FLOAT8 || oid == PG_TIMESTAMP then 8
    else if oid == PG_INT4 || oid == PG_FLOAT4 then 4
    else if oid == PG_INT2 then 2
    else 0
  }

  // ---- one field ----

  /** The host bytes as a time_t. */
  function HostTime(s: seq<byte>, order: Order): (t: int)
    requires |s| == 8
    ensures IsInt64(t)
  {
    HostRoundTrip(s, order);
    EightBytes();
    Signed64(FromHost(s, order))
  }

  function TimestampBytes(s: seq<byte>, order: Order): (r: seq<byte>)
    requires |s| == 8
    ensures |r| == 8
  {
    ToBig(Unsigned64(UnixToPgTimestamp(HostTime(s, order))), 8)
  }

  /** What goes over the wire for the host bytes s of a field. */
  function FieldBytes(oid: nat, s: seq<byte>, order: Order): (r: seq<byte>)
    requires |s| == Width(oid)
    ensures |r| == |s|
  {
    if oid == PG_TIMESTAMP then TimestampBytes(s, order) else ToBig(FromHost(s, order), |s|)
  }

  /** What a reader makes of it: the host bytes again. */
  function FieldValue(oid: nat, w: seq<byte>, order: Order): Option<seq<byte>> {
    if oid == PG_TIMESTAMP then
      if |w| != 8 then None else
        FromBigBounded(w);
        EightBytes();
        match PgToUnixTimestamp(Signed64(FromBig(w)))
        case None => None
        case Some(t) => Some(ToHost(Unsigned64(t), 8, order))
    else Some(ToHost(FromBig(w), |w|, order))
  }

  /** A timestamp whose shifted value does not leave the 64 bits; other types always fit. */
  predicate InRange(oid: nat, s: seq<byte>, order: Order)
    requires |s| == Width(oid)
  {
    oid == PG_TIMESTAMP ==> IsInt64(UnixToPgTimestamp(HostTime(s, order)))
  }

  lemma SignedUnsigned(v: int)
    requires IsInt64(v)
    ensures Signed64(Unsigned64(v)) == v
  {
  }

  lemma HostTimeBack(s: seq<byte>, order: Order)
    requires |s| == 8
    ensures Unsigned64(HostTime(s, order)) == FromHost(s, order)
    ensures ToHost(Unsigned64(HostTime(s, order)), 8, order) == s
  {
    HostRoundTrip(s, order);
    EightBytes();
  }

  /** The value a reader sees, wrapped to 64 bits if it has to be. */
  lemma WireTime(s: seq<byte>, order: Order)
    requires |s| == 8
    ensures FromBig(TimestampBytes(s, order)) == Unsigned64(UnixToPgTimestamp(HostTime(s, order)))
  {
    EightBytes();
    BigRoundTrip(Unsigned64(UnixToPgTimestamp(HostTime(s, order))), 8);
  }

  /** A timestamp is read back exactly when the shift does not overflow. */
  lemma TimestampReadsBack(s: seq<byte>, order: Order)
    requires |s| == 8
    ensures FieldValue(PG_TIMESTAMP, TimestampBytes(s, order), order) == Some(s) <==> InRange(PG_TIMESTAMP, s, order)
  {
    var t := HostTime(s, order);
    var v := UnixToPgTimestamp(t);
    var w := TimestampBytes(s, order);
    hide ToHost, FromHost, ToBig, FromBig, HostTime, TimestampBytes;
    WireTime(s, order);
    HostTimeBack(s, order);
    TimestampInvertible(t);
    if IsInt64(v) {
      SignedUnsigned(v);
    } else {
      var v' := Signed64(Unsigned64(v));
      var back := PgToUnixTimestamp(v');
      if back.Some? && ToHost(Unsigned64(back.value), 8, order) == s {
        LittleBig(Unsigned64(back.value), order);
        assert IsInt64(back.value);
        SignedUnsigned(back.value);
        SignedUnsigned(t);
      }
    }
  }

  lemma LittleBig(u: nat, order: Order)
    requires u < TWO_64
    ensures FromHost(ToHost(u, 8, order), order) == u
  {
    EightBytes();
    BigRoundTrip(u, 8);
    LittleRoundTrip(u, 8);
  }

  /** Whatever the type, the field is read back if it is in range. */
  lemma FieldReadsBack(oid: nat, s: seq<byte>, order: Order)
    requires |s| == Width(oid)
    ensures FieldValue(oid, FieldBytes(oid, s, order), order) == Some(s) <==> InRange(oid, s, order)
  {
    if oid == PG_TIMESTAMP {
      TimestampReadsBack(s, order);
    } else {
      HostRoundTrip(s, order);
    }
  }

  // ---- rows ----

  /** What the encoder reads for the column lies inside the row. */
  predicate ReadsInside(c: Column, rowSize: nat) {
    0 <= c.offset && c.offset + Width(c.oid) <= rowSize
  }

  ghost predicate AllInside(cs: seq<Column>, rowSize: nat) {
    forall i :: 0 <= i < |cs| ==> ReadsInside(cs[i], rowSize)
  }

  function HostField(c: Column, row: seq<byte>): (s: seq<byte>)
    requires ReadsInside(c, |row|)
    ensures |s| == Width(c.oid)
  {
    row[c.offset..c.offset + Width(c.oid)]
  }

  function EncodeField(c: Column, row: seq<byte>, order: Order): seq<byte>
    requires ReadsInside(c, |row|)
  {
    ToBig(c.length, 4) + FieldBytes(c.oid, HostField(c, row), order)
  }

  function EncodeFields(cs: seq<Column>, row: seq<byte>, order: Order): seq<byte>
    requires AllInside(cs, |row|)
  {
    if cs == [] then [] else EncodeField(cs[0], row, order) + EncodeFields(cs[1..], row, order)
  }

  function EncodeRow(cs: seq<Column>, row: seq<byte>, order: Order): seq<byte>
    requires AllInside(cs, |row|)
  {
    ToBig(|cs|, 2) + EncodeFields(cs, row, order)
  }

  /** Row k of the packed data. */
  function RowOf(data: seq<byte>, size: nat, count: nat, k: nat): (row: seq<byte>)
    requires k < count && count * size <= |data|
    ensures |row| == size
  {
    PartInside(k, count, size);
    data[k * size..k * size + size]
  }

  /** Rows k, k + 1, ..., count - 1. */
  function EncodeRows(cs: seq<Column>, data: seq<byte>, size: nat, count: nat, k: nat, order: Order): seq<byte>
    requires k <= count && count * size <= |data| && AllInside(cs, size)
    decreases count - k
  {
    if k == count then [] else
      EncodeRow(cs, RowOf(data, size, count, k), order) + EncodeRows(cs, data, size, count, k + 1, order)
  }

  // ---- the code ----

  method Store(to: array<byte>, at: nat, bytes: seq<byte>)
    requires at + |bytes| <= to.Length
    modifies to
    ensures to[..at + |bytes|] == old(to[..at]) + bytes
  {
    var i := 0;
    while i < |bytes|
      invariant 0 <= i <= |bytes|
      invariant to[..at + i] == old(to[..at]) + bytes[..i]
    {
      to[at + i] := bytes[i];
      assert to[..at + i + 1] == to[..at + i] + [bytes[i]];
      i := i + 1;
    }
  }

  method Write2(to: array<byte>, at: nat, from: seq<byte>, order: Order) returns (n: nat)
    requires at + 2 <= to.Length && |from| == 2
    modifies to
    ensures n == 2 && to[..at + 2] == old(to[..at]) + FieldBytes(PG_INT2, from, order)
  {
    var val := FromHost(from, order);
    Store(to, at, ToBig(val, 2));
    n := 2;
  }

  method Write4(to: array<byte>, at: nat, from: seq<byte>, order: Order) returns (n: nat)
    requires at + 4 <= to.Length && |from| == 4
    modifies to
    ensures n == 4 && to[..at + 4] == old(to[..at]) + FieldBytes(PG_INT4, from, order)
  {
    var val := FromHost(from, order);
    Store(to, at, ToBig(val, 4));
    n := 4;
  }

  method Write8(to: array<byte>, at: nat, from: seq<byte>, order: Order) returns (n: nat)
    requires at + 8 <= to.Length && |from| == 8
    modifies to
    ensures n == 8 && to[..at + 8] == old(to[..at]) + FieldBytes(PG_INT8, from, order)
  {
    var val := FromHost(from, order);
    Store(to, at, ToBig(val, 8));
    n := 8;
  }

  method WriteTimestamp(to: array<byte>, at: nat, from: seq<byte>, order: Order) returns (n: nat)
    requires at + 8 <= to.Length && |from| == 8
    modifies to
    ensures n == 8 && to[..at + 8] == old(to[..at]) + FieldBytes(PG_TIMESTAMP, from, order)
  {
    var uTime := HostTime(from, order);
    var val := UnixToPgTimestamp(uTime);
    Store(to, at, ToBig(Unsigned64(val), 8));
    n := 8;
  }

  /** The length word and the switch over the type; an unknown type writes its length and no data. */
  method ConvertField(to: array<byte>, at: nat, c: Column, row: seq<byte>, order: Order) returns (offset: nat)
    requires ReadsInside(c, |row|) && at + |EncodeField(c, row, order)| <= to.Length
    modifies to
    ensures offset == at + |EncodeField(c, row, order)|
    ensures to[..offset] == old(to[..at]) + EncodeField(c, row, order)
  {
    Store(to, at, ToBig(c.length, 4));
    offset := at + 4;
    var data := row[c.offset..c.offset + Width(c.oid)];
    var n := 0;
    Assoc(old(to[..at]), ToBig(c.length, 4), FieldBytes(c.oid, data, order));
    if c.oid == PG_INT8 || c.oid == PG_FLOAT8 {
      n := Write8(to, offset, data, order);
    } else if c.oid == PG_INT4 || c.oid == PG_FLOAT4 {
      n := Write4(to, offset, data, order);
    } else if c.oid == PG_INT2 {
      n := Write2(to, offset, data, order);
    } else if c.oid == PG_TIMESTAMP {
      n := WriteTimestamp(to, offset, data, order);
    }
    offset := offset + n;
  }

  method ConvertRow(to: array<byte>, at: nat, cols: seq<Column>, sent: nat, row: seq<byte>, order: Order)
    returns (offset: nat)
    requires AllInside(Sent(cols), |row|) && sent == |Sent(cols)|
    requires at + |EncodeRow(Sent(cols), row, order)| <= to.Length
    modifies to
    ensures offset == at + |EncodeRow(Sent(cols), row, order)|
    ensures to[..offset] == old(to[..at]) + EncodeRow(Sent(cols), row, order)
  {
    hide EncodeField, EncodeFields, ToBig, Sent, AllInside, ReadsInside;
    ghost var all := old(to[..at]) + EncodeRow(Sent(cols), row, order);
    Store(to, at, ToBig(sent, 2));
    offset := at + 2;
    assert cols[0..] == cols;
    Assoc(old(to[..at]), ToBig(sent, 2), EncodeFields(Sent(cols), row, order));
    var c := 0;
    while c < |cols|
      invariant 0 <= c <= |cols| && AllInside(Sent(cols[c..]), |row|)
      invariant offset + |EncodeFields(Sent(cols[c..]), row, order)| == |all| <= to.Length
      invariant to[..offset] + EncodeFields(Sent(cols[c..]), row, order) == all
    {
      NextSent(cols, c, row, order);
      if cols[c].autoIncrement {
        c := c + 1;
        continue;
      }
      ghost var rest := EncodeFields(Sent(cols[c + 1..]), row, order);
      Assoc(to[..offset], EncodeField(cols[c], row, order), rest);
      offset := ConvertField(to, offset, cols[c], row, order);
      c := c + 1;
    }
    NoneSent(cols[c..], row, order);
    assert to[..offset] + [] == to[..offset];
  }

  lemma NextSent(cols: seq<Column>, c: nat, row: seq<byte>, order: Order)
    requires c < |cols| && AllInside(Sent(cols[c..]), |row|)
    ensures AllInside(Sent(cols[c + 1..]), |row|)
    ensures cols[c].autoIncrement ==> Sent(cols[c..]) == Sent(cols[c + 1..])
    ensures !cols[c].autoIncrement ==>
              ReadsInside(cols[c], |row|)
              && EncodeFields(Sent(cols[c..]), row, order)
                 == EncodeField(cols[c], row, order) + EncodeFields(Sent(cols[c + 1..]), row, order)
  {
    hide EncodeField, ReadsInside;
    assert cols[c..][1..] == cols[c + 1..];
    var cs, rest := Sent(cols[c..]), Sent(cols[c + 1..]);
    if cols[c].autoIncrement {
      assert [] + rest == rest;
      assert cs == rest;
    } else {
      assert cs == [cols[c]] + rest;
      assert cs[0] == cols[c] && cs[1..] == rest;
      InsideSplit(cs, |row|);
    }
  }

  lemma InsideSplit(cs: seq<Column>, size: nat)
    requires cs != [] && AllInside(cs, size)
    ensures ReadsInside(cs[0], size) && AllInside(cs[1..], size)
  {
    assert forall k :: 0 <= k < |cs[1..]| ==> cs[1..][k] == cs[k + 1];
  }

  lemma NoneSent(cols: seq<Column>, row: seq<byte>, order: Order)
    requires cols == []
    ensures AllInside(Sent(cols), |row|) && EncodeFields(Sent(cols), row, order) == []
  {
  }

  /** The conversion loop of PgInsertData, into a buffer with room for the result. */
  method ConvertRows(to: array<byte>, cols: seq<Column>, sent: nat, data: seq<byte>,
                     rowSize: nat, itemCount: nat, order: Order)
    returns (offset: nat)
    requires AllInside(Sent(cols), rowSize) && sent == |Sent(cols)| && itemCount * rowSize <= |data|
    requires |EncodeRows(Sent(cols), data, rowSize, itemCount, 0, order)| <= to.Length
    modifies to
    ensures offset == |EncodeRows(Sent(cols), data, rowSize, itemCount, 0, order)|
    ensures to[..offset] == EncodeRows(Sent(cols), data, rowSize, itemCount, 0, order)
  {
    hide EncodeRow;
    ghost var all := EncodeRows(Sent(cols), data, rowSize, itemCount, 0, order);
    offset := 0;
    assert to[..0] + all == all;
    var k := 0;
    while k < itemCount
      invariant 0 <= k <= itemCount
      invariant offset + |EncodeRows(Sent(cols), data, rowSize, itemCount, k, order)| == |all| <= to.Length
      invariant to[..offset] + EncodeRows(Sent(cols), data, rowSize, itemCount, k, order) == all
    {
      PartInside(k, itemCount, rowSize);
      var row := data[k * rowSize..k * rowSize + rowSize];
      Assoc(to[..offset], EncodeRow(Sent(cols), row, order),
            EncodeRows(Sent(cols), data, rowSize, itemCount, k + 1, order));
      offset := ConvertRow(to, offset, cols, sent, row, order);
      k := k + 1;
    }
    assert to[..offset] + [] == to[..offset];
  }
}
