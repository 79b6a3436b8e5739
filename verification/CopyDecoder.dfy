/** A reader of binary COPY tuples, and what it reads of the encoder's output. */
module CopyDecoder {
  import opened Bytes
  import opened Endian
  import opened CopyEncoder

  datatype Fields = Fields(values: seq<seq<byte>>, next: nat)

  /** n fields: a 32-bit length and so many bytes each. Lengths with the sign bit are not data. */
  function DecodeFields(s: seq<byte>, i: nat, n: nat): (r: Option<Fields>)
    ensures r.Some? && i <= |s| ==> i <= r.value.next <= |s| && |r.value.values| == n
    decreases n
  {
    if n == 0 then Some(Fields([], i))
    else if i + 4 > |s| then None
    else
      var length := FromBig(s[i..i + 4]);
      if length >= 0x8000_0000 || i + 4 + length > |s| then None else
        match DecodeFields(s, i + 4 + length, n - 1)
        case None => None
        case Some(f) => Some(Fields([s[i + 4..i + 4 + length]] + f.values, f.next))
  }

  /** Tuples to the end of s: a 16-bit field count and the fields. */
  function DecodeTuples(s: seq<byte>, i: nat): Option<seq<seq<seq<byte>>>>
    requires i <= |s|
    decreases |s| - i
  {
    if i == |s| then Some([])
    else if i + 2 > |s| then None
    else
      var count := FromBig(s[i..i + 2]);
      if count >= 0x8000 then None else
        match DecodeFields(s, i + 2, count)
        case None => None
        case Some(f) =>
          match DecodeTuples(s, f.next)
          case None => None
          case Some(rest) => Some([f.values] + rest)
  }

  // ---- the encoder's output decodes ----

  ghost predicate AllSupported(cs: seq<Column>) {
    forall i :: 0 <= i < |cs| ==> Supported(cs[i])
  }

  lemma SupportedWidth(c: Column)
    requires Supported(c)
    ensures c.length == Width(c.oid) && 2 <= c.length <= 8
  {
  }

  /** The values that go over the wire for one row. */
  function Wire(cs: seq<Column>, row: seq<byte>, order: Order): (w: seq<seq<byte>>)
    requires AllInside(cs, |row|)
    ensures |w| == |cs|
    ensures forall i :: 0 <= i < |cs| ==>
              ReadsInside(cs[i], |row|) && w[i] == FieldBytes(cs[i].oid, HostField(cs[i], row), order)
  {
    seq(|cs|, i requires 0 <= i < |cs| =>
      assert ReadsInside(cs[i], |row|);
      FieldBytes(cs[i].oid, HostField(cs[i], row), order))
  }

  lemma Words()
    ensures Pow256(2) == 0x1_0000 && Pow256(4) == 0x1_0000_0000
  {
    assert Pow256(1) == 256;
    assert Pow256(2) == 0x1_0000;
    assert Pow256(3) == 0x100_0000;
  }

  lemma NoFields(s: seq<byte>, i: nat)
    ensures DecodeFields(s, i, 0) == Some(Fields([], i))
  {
  }

  lemma OneField(s: seq<byte>, i: nat, n: nat, length: nat, data: seq<byte>)
    requires n > 0 && At(s, i, ToBig(length, 4)) && At(s, i + 4, data)
    requires FromBig(ToBig(length, 4)) == length == |data| < 0x8000_0000
    requires DecodeFields(s, i + 4 + length, n - 1).Some?
    ensures var f := DecodeFields(s, i + 4 + length, n - 1).value;
            DecodeFields(s, i, n) == Some(Fields([data] + f.values, f.next))
  {
    hide ToBig, FromBig;
  }

  lemma {:induction false} FieldsDecode(s: seq<byte>, i: nat, cs: seq<Column>, row: seq<byte>, order: Order)
    requires AllInside(cs, |row|) && AllSupported(cs)
    requires At(s, i, EncodeFields(cs, row, order))
    ensures DecodeFields(s, i, |cs|) == Some(Fields(Wire(cs, row, order), i + |EncodeFields(cs, row, order)|))
    decreases |cs|
  {
    hide FieldBytes, HostField, ToBig, FromBig, Pow256, Supported, Width, DecodeFields, At;
    if cs == [] {
      NoFields(s, i);
    }
    if cs != [] {
      assert ReadsInside(cs[0], |row|) && Supported(cs[0]);
      var c, rest := cs[0], cs[1..];
      var length, data := ToBig(c.length, 4), FieldBytes(c.oid, HostField(c, row), order);
      SupportedWidth(c);
      Words();
      BigRoundTrip(c.length, 4);
      Assoc(length, data, EncodeFields(rest, row, order));
      AtSplit(s, i, length, data + EncodeFields(rest, row, order));
      AtSplit(s, i + 4, data, EncodeFields(rest, row, order));
      assert forall k :: 0 <= k < |rest| ==> rest[k] == cs[k + 1];
      FieldsDecode(s, i + 4 + c.length, rest, row, order);
      assert Wire(cs, row, order) == [data] + Wire(rest, row, order);
      OneField(s, i, |cs|, c.length, data);
    }
  }

  lemma {:induction false} TuplesDecode(s: seq<byte>, i: nat, cs: seq<Column>,
                                        data: seq<byte>, size: nat, count: nat, k: nat, order: Order)
    requires k <= count && count * size <= |data| && AllInside(cs, size) && AllSupported(cs) && |cs| < 0x8000
    requires i + |EncodeRows(cs, data, size, count, k, order)| == |s|
    requires At(s, i, EncodeRows(cs, data, size, count, k, order))
    ensures var r := DecodeTuples(s, i);
            r.Some? && |r.value| == count - k
            && forall j :: 0 <= j < count - k ==> r.value[j] == Wire(cs, RowOf(data, size, count, k + j), order)
    decreases count - k
  {
    hide EncodeFields, ToBig, FromBig, Pow256, Wire, RowOf, DecodeFields;
    if k < count {
      var row := RowOf(data, size, count, k);
      var head, fields, rest :=
        ToBig(|cs|, 2), EncodeFields(cs, row, order), EncodeRows(cs, data, size, count, k + 1, order);
      Words();
      BigRoundTrip(|cs|, 2);
      Assoc(head, fields, rest);
      AtSplit(s, i, head, fields + rest);
      AtSplit(s, i + 2, fields, rest);
      FieldsDecode(s, i + 2, cs, row, order);
      TuplesDecode(s, i + 2 + |fields|, cs, data, size, count, k + 1, order);
    }
  }

  // ---- sizes ----

  /** What each tuple takes: the count, and a length word and the data of every column. */
  function TupleSize(cs: seq<Column>): nat {
    if cs == [] then 2 else 4 + cs[0].length + TupleSize(cs[1..])
  }

  lemma {:induction false} FieldsSize(cs: seq<Column>, row: seq<byte>, order: Order)
    requires AllInside(cs, |row|) && AllSupported(cs)
    ensures 2 + |EncodeFields(cs, row, order)| == TupleSize(cs)
    decreases |cs|
  {
    if cs != [] {
      assert ReadsInside(cs[0], |row|) && Supported(cs[0]);
      SupportedWidth(cs[0]);
      assert forall k :: 0 <= k < |cs[1..]| ==> cs[1..][k] == cs[k + 1];
      FieldsSize(cs[1..], row, order);
    }
  }

  lemma {:induction false} RowsSize(cs: seq<Column>, data: seq<byte>, size: nat, count: nat, k: nat, order: Order)
    requires k <= count && count * size <= |data| && AllInside(cs, size) && AllSupported(cs)
    ensures |EncodeRows(cs, data, size, count, k, order)| == (count - k) * TupleSize(cs)
    decreases count - k
  {
    hide EncodeFields, TupleSize;
    if k < count {
      FieldsSize(cs, RowOf(data, size, count, k), order);
      RowsSize(cs, data, size, count, k + 1, order);
      var n := TupleSize(cs);
      assert (count - k) * n == (count - (k + 1)) * n + n;
    }
  }

  // ---- the host fields make up the row ----

  function HostFields(cs: seq<Column>, row: seq<byte>): seq<byte>
    requires AllInside(cs, |row|)
  {
    if cs == [] then [] else
      assert ReadsInside(cs[|cs| - 1], |row|);
      HostFields(cs[..|cs| - 1], row) + HostField(cs[|cs| - 1], row)
  }

  lemma {:induction false} SentSnoc(cols: seq<Column>, c: Column)
    ensures Sent(cols + [c]) == Sent(cols) + (if c.autoIncrement then [] else [c])
  {
    if cols == [] {
      assert cols + [c] == [c] && [c][1..] == [];
    } else {
      assert (cols + [c])[1..] == cols[1..] + [c];
      SentSnoc(cols[1..], c);
      AssocOf(if cols[0].autoIncrement then [] else [cols[0]], Sent(cols[1..]), if c.autoIncrement then [] else [c]);
    }
  }

  /** The columns of a table, as GetTableMetadata lays them out, cover its row exactly. */
  lemma {:induction false} FieldsCoverRow(cols: seq<Column>, rows: seq<CatalogRow>, i: nat, row: seq<byte>)
    requires Describes(cols, rows) && AllSupported(Sent(cols)) && i <= |rows| && Widths(rows) <= |row|
    ensures |Sent(cols[..i])| == SentCount(rows[..i]) && Widths(rows[..i]) <= Widths(rows)
    ensures AllInside(Sent(cols[..i]), |row|) && HostFields(Sent(cols[..i]), row) == row[..Widths(rows[..i])]
  {
    hide HostFields, AllInside, Sent, Widths, SentCount, Describes;
    WidthsGrow(rows, i);
    if i == 0 {
      NoneCovered(cols, rows, row);
    } else {
      FieldsCoverRow(cols, rows, i - 1, row);
      PrefixStep(cols, rows, i - 1);
      if !cols[i - 1].autoIncrement {
        SentMember(cols, i - 1);
        SupportedWidth(cols[i - 1]);
        OneMoreCovered(Sent(cols[..i - 1]), cols[i - 1], row);
      } else {
        assert Sent(cols[..i - 1]) + [] == Sent(cols[..i - 1]);
      }
    }
  }

  lemma PrefixStep(cols: seq<Column>, rows: seq<CatalogRow>, i: nat)
    requires Describes(cols, rows) && i < |rows|
    ensures |cols| == |rows|
    ensures var c := cols[i];
            && Sent(cols[..i + 1]) == Sent(cols[..i]) + (if c.autoIncrement then [] else [c])
            && SentCount(rows[..i + 1]) == SentCount(rows[..i]) + (if c.autoIncrement then 0 else 1)
            && Widths(rows[..i + 1]) == Widths(rows[..i]) + (if c.autoIncrement then 0 else c.length)
            && (!c.autoIncrement ==> c.offset == Widths(rows[..i]))
            && c.oid == rows[i].oid && c.length == rows[i].length && c.autoIncrement == rows[i].autoIncrement
  {
    assert cols[..i + 1] == cols[..i] + [cols[i]] && rows[..i + 1][..i] == rows[..i];
    SentSnoc(cols[..i], cols[i]);
  }

  lemma NoneCovered(cols: seq<Column>, rows: seq<CatalogRow>, row: seq<byte>)
    ensures Sent(cols[..0]) == [] && SentCount(rows[..0]) == Widths(rows[..0]) == 0
    ensures AllInside([], |row|) && HostFields([], row) == row[..0]
  {
  }

  lemma OneMoreCovered(cs: seq<Column>, c: Column, row: seq<byte>)
    requires AllInside(cs, |row|) && Supported(c) && 0 <= c.offset && c.offset + c.length <= |row|
    requires HostFields(cs, row) == row[..c.offset]
    ensures AllInside(cs + [c], |row|) && HostFields(cs + [c], row) == row[..c.offset + c.length]
  {
    SupportedWidth(c);
    assert (cs + [c])[..|cs|] == cs;
    assert row[..c.offset] + row[c.offset..c.offset + c.length] == row[..c.offset + c.length];
  }

  lemma {:induction false} WidthsGrow(rows: seq<CatalogRow>, i: nat)
    requires i <= |rows|
    ensures Widths(rows[..i]) <= Widths(rows)
    decreases |rows| - i
  {
    if i == |rows| {
      assert rows[..i] == rows;
    } else {
      WidthsGrow(rows, i + 1);
      assert rows[..i + 1][..i] == rows[..i];
    }
  }

  lemma {:induction false} SentMember(cols: seq<Column>, i: nat)
    requires i < |cols| && !cols[i].autoIncrement && AllSupported(Sent(cols))
    ensures Supported(cols[i])
  {
    if i == 0 {
      assert Sent(cols)[0] == cols[0];
    } else {
      var rest := Sent(cols[1..]);
      var skip := |Sent(cols)| - |rest|;
      assert forall k :: 0 <= k < |rest| ==> rest[k] == Sent(cols)[k + skip];
      SentMember(cols[1..], i - 1);
    }
  }

  // ---- the round trip ----

  /** The tuple gives the row back: its fields make up the row, and each is read back as the bytes
      that came in exactly when it is not a timestamp out of range. */
  ghost predicate ReadsBack(cs: seq<Column>, row: seq<byte>, tuple: seq<seq<byte>>, order: Order) {
    && AllInside(cs, |row|) && HostFields(cs, row) == row && |tuple| == |cs|
    && forall j :: 0 <= j < |cs| ==>
         ReadsInside(cs[j], |row|)
         && var field := HostField(cs[j], row);
            FieldValue(cs[j].oid, tuple[j], order) == Some(field) <==> InRange(cs[j].oid, field, order)
  }

  lemma WireReadsBack(cs: seq<Column>, row: seq<byte>, order: Order)
    requires AllInside(cs, |row|) && HostFields(cs, row) == row
    ensures ReadsBack(cs, row, Wire(cs, row, order), order)
  {
    hide FieldValue, InRange, FieldBytes, HostFields;
    var tuple := Wire(cs, row, order);
    forall j | 0 <= j < |cs|
      ensures ReadsInside(cs[j], |row|)
      ensures FieldValue(cs[j].oid, tuple[j], order) == Some(HostField(cs[j], row)) <==>
                  InRange(cs[j].oid, HostField(cs[j], row), order)
    {
      assert ReadsInside(cs[j], |row|);
      FieldReadsBack(cs[j].oid, HostField(cs[j], row), order);
    }
  }

  /** For any table of supported columns and any packed rows: the output is as long as its tuples
      add up to, and decodes to one tuple for every row, which gives the row back. */
  lemma EncoderRoundTrip(cols: seq<Column>, rows: seq<CatalogRow>, data: seq<byte>, count: nat, order: Order)
    requires Describes(cols, rows) && AllSupported(Sent(cols)) && |Sent(cols)| < 0x8000
    requires count * Widths(rows) <= |data|
    ensures |Sent(cols)| == SentCount(rows) && AllInside(Sent(cols), Widths(rows))
    ensures var cs, size := Sent(cols), Widths(rows);
            var out := EncodeRows(cs, data, size, count, 0, order);
            var tuples := DecodeTuples(out, 0);
            && |out| == count * TupleSize(cs)
            && tuples.Some? && |tuples.value| == count
            && forall k :: 0 <= k < count ==> ReadsBack(cs, RowOf(data, size, count, k), tuples.value[k], order)
  {
    hide DecodeTuples, EncodeRows, HostFields, RowOf, ReadsBack, Describes,
           Wire, Sent, Widths, SentCount, AllInside, AllSupported;
    var cs, size := Sent(cols), Widths(rows);
    Covers(cols, rows, seq(size, _ => NUL));
    var out := EncodeRows(cs, data, size, count, 0, order);
    RowsSize(cs, data, size, count, 0, order);
    assert out[0..] == out;
    TuplesDecode(out, 0, cs, data, size, count, 0, order);
    var tuples := DecodeTuples(out, 0).value;
    forall k | 0 <= k < count
      ensures ReadsBack(cs, RowOf(data, size, count, k), tuples[k], order)
    {
      var row := RowOf(data, size, count, 0 + k);
      Covers(cols, rows, row);
      WireReadsBack(cs, row, order);
      assert tuples[k] == Wire(cs, row, order);
    }
  }

  lemma Covers(cols: seq<Column>, rows: seq<CatalogRow>, row: seq<byte>)
    requires Describes(cols, rows) && AllSupported(Sent(cols)) && |row| == Widths(rows)
    ensures |Sent(cols)| == SentCount(rows) && AllInside(Sent(cols), |row|) && HostFields(Sent(cols), row) == row
  {
    FieldsCoverRow(cols, rows, |rows|, row);
    assert cols[..|rows|] == cols && rows[..|rows|] == rows && row[..|row|] == row;
  }

  // ---- from the catalogue to the tuples ----

  /** The column is sent with a type the encoder knows, or not sent. */
  predicate Encodable(r: CatalogRow) {
    r.autoIncrement || Supported(Column(r.oid, r.length, 0, false))
  }

  lemma {:induction false} EncodableColumns(cols: seq<Column>, rows: seq<CatalogRow>, i: nat)
    requires Describes(cols, rows) && i <= |rows| && forall k :: 0 <= k < |rows| ==> Encodable(rows[k])
    ensures |cols| == |rows| && AllSupported(Sent(cols[..i]))
    ensures |Sent(cols[..i])| <= i && TupleSize(Sent(cols[..i])) == 2 + 4 * SentCount(rows[..i]) + Widths(rows[..i])
  {
    hide Sent, Widths, SentCount, Describes;
    if i == 0 {
      assert |cols| == |rows| by { SameCount(cols, rows); }
      NoneCovered(cols, rows, []);
    } else {
      EncodableColumns(cols, rows, i - 1);
      PrefixStep(cols, rows, i - 1);
      var before := Sent(cols[..i - 1]);
      assert Encodable(rows[i - 1]);
      if !cols[i - 1].autoIncrement {
        assert Supported(cols[i - 1]);
        TupleSizeSnoc(before, cols[i - 1]);
      } else {
        assert before + [] == before;
      }
    }
  }

  lemma SameCount(cols: seq<Column>, rows: seq<CatalogRow>)
    requires Describes(cols, rows)
    ensures |cols| == |rows|
  {
  }

  lemma {:induction false} TupleSizeSnoc(cs: seq<Column>, c: Column)
    ensures TupleSize(cs + [c]) == TupleSize(cs) + 4 + c.length
  {
    if cs == [] {
      assert cs + [c] == [c] && [c][1..] == [];
    } else {
      assert (cs + [c])[1..] == cs[1..] + [c];
      TupleSizeSnoc(cs[1..], c);
    }
  }

  /** NtwrkConvBufSize: the two bytes of one field count, the length of one field for every row, and
      the rows. */
  function ConvBufSize(rowSize: nat, count: nat): nat {
    2 + count * 4 + count * rowSize
  }

  /** That covers the output if and only if no more than one field is sent in all. */
  lemma ConvBufCovers(cols: seq<Column>, catalog: seq<CatalogRow>, data: seq<byte>, count: nat, order: Order)
    requires Describes(cols, catalog) && |catalog| < 0x8000
    requires (forall k :: 0 <= k < |catalog| ==> Encodable(catalog[k])) && count * Widths(catalog) <= |data|
    ensures AllInside(Sent(cols), Widths(catalog))
    ensures var out := EncodeRows(Sent(cols), data, Widths(catalog), count, 0, order);
            |out| <= ConvBufSize(Widths(catalog), count) <==> count * SentCount(catalog) <= 1
  {
    hide Describes, EncodeRows, DecodeTuples, ReadsBack, Sent, Widths, SentCount, AllInside;
    EncodableColumns(cols, catalog, |catalog|);
    assert cols[..|catalog|] == cols && catalog[..|catalog|] == catalog;
    EncoderRoundTrip(cols, catalog, data, count, order);
    OneFieldInAll(count, SentCount(catalog), Widths(catalog));
  }

  lemma OneFieldInAll(count: nat, sent: nat, size: nat)
    ensures count * (2 + 4 * sent + size) <= ConvBufSize(size, count) <==> count * sent <= 1
  {
    var fields := count * sent;
    assert count * (2 + 4 * sent + size) == 2 * count + 4 * fields + count * size;
    if sent >= 1 {
      assert fields == count * (sent - 1) + count && count * (sent - 1) >= 0;
    }
    if count >= 1 && sent >= 2 {
      assert fields == count * (sent - 2) + 2 * count && count * (sent - 2) >= 0;
    }
  }

  /** GetTableMetadata and then the conversion of a buffer of packed rows: ItemCount * (2 + 4 bytes
      for every column sent + RowSize) bytes that decode to the rows, field by field in the order of
      the catalogue's columns that are sent. */
  method EncodeTable(catalog: seq<CatalogRow>, data: seq<byte>, count: nat, order: Order, to: array<byte>)
    returns (offset: nat, ghost cols: seq<Column>)
    requires (forall k :: 0 <= k < |catalog| ==> Encodable(catalog[k])) && |catalog| < 0x8000
    requires count * Widths(catalog) <= |data|
    requires count * (2 + 4 * SentCount(catalog) + Widths(catalog)) <= to.Length
    modifies to
    ensures offset == count * (2 + 4 * SentCount(catalog) + Widths(catalog))
    ensures Describes(cols, catalog) && |Sent(cols)| == SentCount(catalog)
    ensures var tuples := DecodeTuples(to[..offset], 0);
            tuples.Some? && |tuples.value| == count
            && forall k :: 0 <= k < count ==>
                 ReadsBack(Sent(cols), RowOf(data, Widths(catalog), count, k), tuples.value[k], order)
  {
    hide Describes, EncodeRows, DecodeTuples, ReadsBack, RowOf, Sent;
    var columns, sent, rowSize := GetTableMetadata(catalog);
    cols := columns;
    EncodableColumns(cols, catalog, |catalog|);
    assert cols[..|catalog|] == cols && catalog[..|catalog|] == catalog;
    EncoderRoundTrip(cols, catalog, data, count, order);
    offset := ConvertRows(to, columns, sent, data, rowSize, count, order);
    assert to[..offset][0..] == to[..offset];
  }
}
