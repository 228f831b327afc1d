/** Antelope's row files (storage-cfs.c, result.c, relation.c): how the values of a tuple are
    laid out as bytes, appended to a file in pieces, and read back. */
module Storage {

  import opened Bytes
  import opened Lvm

  const ROW_XOR: byte := 0xf6

  datatype Domain = IntDomain | LongDomain

  datatype Attribute = Attribute(name: string, domain: Domain)

  datatype Status = DbOk | GotRow | DbFinished | IndexError | LimitError | NameError | RelationalError

  // ----- Values -----

  function ElementSize(d: Domain): (n: nat)
    ensures n > 0
  {
    if d == IntDomain then 2 else 4
  }

  /** The number whose big-endian bytes these are. */
  function Number(s: seq<byte>): nat {
    if s == [] then 0 else Number(s[..|s| - 1]) * 256 + s[|s| - 1]
  }

  /** The last `n` bytes of a number in two's complement. */
  function LowBytes(v: int, n: nat): (s: seq<byte>)
    ensures |s| == n
    decreases n
  {
    if n == 0 then [] else LowBytes(v / 256, n - 1) + [v % 256]
  }

  /** db_value_to_phy */
  function Encode(d: Domain, v: long): (s: seq<byte>)
    ensures |s| == ElementSize(d)
  {
    LowBytes(v, ElementSize(d))
  }

  /** db_phy_to_value: an INT is read without sign, a LONG is four bytes of a 32-bit long. */
  function Decode(d: Domain, s: seq<byte>): long
    requires |s| == ElementSize(d)
  {
    Wrap(Number(s))
  }

  /** The bytes of a value, the most significant first: two of an INT, four of a LONG. */
  lemma EncodedBytes(v: long)
    ensures Encode(IntDomain, v) == [v / 256 % 256, v % 256]
    ensures Encode(LongDomain, v) == [v / 0x100_0000 % 256, v / 0x1_0000 % 256, v / 256 % 256, v % 256]
  {
    var c, b, a := v / 256, v / 256 / 256, v / 256 / 256 / 256;
    assert b == v / 0x1_0000 && a == v / 0x100_0000;
    assert LowBytes(a, 1) == [] + [a % 256];
    assert LowBytes(b, 2) == LowBytes(a, 1) + [b % 256];
    assert LowBytes(c, 3) == LowBytes(b, 2) + [c % 256];
    assert LowBytes(v, 4) == LowBytes(c, 3) + [v % 256];
    assert LowBytes(c, 1) == [] + [c % 256];
    assert LowBytes(v, 2) == LowBytes(c, 1) + [v % 256];
  }

  /** What a value becomes when it is stored and read back. */
  function Stored(d: Domain, v: long): long {
    if d == IntDomain then v as int % 0x1_0000 else v
  }

  function Power256(n: nat): nat {
    if n == 0 then 1 else 256 * Power256(n - 1)
  }

  lemma {:induction false} LowBytesNumber(v: int, n: nat)
    ensures Power256(n) > 0 && Number(LowBytes(v, n)) == v % Power256(n)
    decreases n
  {
    if n > 0 {
      LowBytesNumber(v / 256, n - 1);
      assert LowBytes(v, n)[..n - 1] == LowBytes(v / 256, n - 1);
      SplitMod(v, Power256(n - 1));
    }
  }

  lemma SplitMod(v: int, p: nat)
    requires p > 0
    ensures v % (256 * p) == v / 256 % p * 256 + v % 256
  {
    var q, r := v / 256 / p, v / 256 % p;
    assert v == 256 * (q * p + r) + v % 256;
    assert v == q * (256 * p) + (r * 256 + v % 256);
    Remainder(v, 256 * p, q, r * 256 + v % 256);
  }

  lemma Remainder(v: int, m: nat, q: int, r: int)
    requires m > 0 && v == q * m + r && 0 <= r < m
    ensures v % m == r
  {
    var d := q - v / m;
    assert d * m == v % m - r;
    SmallMultiple(d, m);
  }

  lemma SmallMultiple(d: int, m: nat)
    requires 0 - m < d * m < m
    ensures d == 0
  {
    assert d >= 1 ==> (d - 1) * m >= 0;
    assert d <= -1 ==> (d + 1) * m <= 0;
  }

  /** Values read back: modulo 2^16 for an INT, unchanged for a LONG. */
  lemma ValueRead(d: Domain, v: long)
    ensures Decode(d, Encode(d, v)) == Stored(d, v)
  {
    LowBytesNumber(v, ElementSize(d));
    Powers();
    hide LowBytes, Number, Power256;
  }

  lemma Powers()
    ensures Power256(2) == 0x1_0000 && Power256(4) == 0x1_0000_0000
  {
    assert Power256(3) == 0x100_0000;
  }

  // ----- Rows -----

  function RowLength(schema: seq<Attribute>): (n: nat)
    ensures schema != [] ==> n > 0
  {
    if schema == [] then 0 else RowLength(schema[..|schema| - 1]) + ElementSize(schema[|schema| - 1].domain)
  }

  /** get_attribute_value_offset */
  function Offset(schema: seq<Attribute>, j: nat): nat
    requires j <= |schema|
  {
    RowLength(schema[..j])
  }

  type Row = seq<long>

  function RowBytes(schema: seq<Attribute>, values: Row): (s: seq<byte>)
    requires |values| == |schema|
    ensures |s| == RowLength(schema)
  {
    if schema == [] then []
    else
      var n := |schema| - 1;
      RowBytes(schema[..n], values[..n]) + Encode(schema[n].domain, values[n])
  }

  lemma {:induction false} OffsetsGrow(schema: seq<Attribute>, j: nat)
    requires j < |schema|
    ensures Offset(schema, j) + ElementSize(schema[j].domain) == Offset(schema, j + 1) <= RowLength(schema)
    decreases |schema|
  {
    var n := |schema| - 1;
    assert schema[..j + 1][..j] == schema[..j];
    if j < n {
      OffsetsGrow(schema[..n], j);
      assert schema[..n][..j + 1] == schema[..j + 1];
    } else {
      assert schema[..j + 1] == schema;
    }
  }

  /** These bytes stand at a position. */
  predicate Piece(s: seq<byte>, at: nat, piece: seq<byte>) {
    at + |piece| <= |s| && s[at..at + |piece|] == piece
  }

  lemma PieceLonger(s: seq<byte>, more: seq<byte>, at: nat, piece: seq<byte>)
    requires Piece(s, at, piece)
    ensures Piece(s + more, at, piece)
  {
  }

  lemma PieceLast(s: seq<byte>, piece: seq<byte>)
    ensures Piece(s + piece, |s|, piece)
  {
  }

  lemma RowUnfolds(schema: seq<Attribute>, values: Row, j: nat)
    requires |values| == |schema| && j < |schema|
    ensures var n := |schema| - 1;
      && RowBytes(schema, values) == RowBytes(schema[..n], values[..n]) + Encode(schema[n].domain, values[n])
      && |RowBytes(schema[..n], values[..n])| == Offset(schema, n)
      && (j < n ==> schema[..n][j] == schema[j] && values[..n][j] == values[j] && Offset(schema[..n], j) == Offset(schema, j))
  {
    hide RowLength, Encode;
    if j < |schema| - 1 {
      assert schema[..|schema| - 1][..j] == schema[..j];
    }
  }

  /** The bytes at an attribute's offset are those of its value. */
  lemma {:induction false} RowBytesAt(schema: seq<Attribute>, values: Row, j: nat)
    requires |values| == |schema| && j < |schema|
    ensures Piece(RowBytes(schema, values), Offset(schema, j), Encode(schema[j].domain, values[j]))
    decreases |schema|
  {
    hide *;
    var n := |schema| - 1;
    RowUnfolds(schema, values, j);
    if j < n {
      RowBytesAt(schema[..n], values[..n], j);
      PieceLonger(RowBytes(schema[..n], values[..n]), Encode(schema[n].domain, values[n]), Offset(schema, j), Encode(schema[j].domain, values[j]));
    } else {
      PieceLast(RowBytes(schema[..n], values[..n]), Encode(schema[n].domain, values[n]));
    }
  }

  // ----- The file -----

  /** Exclusive or of the lowest `n` bits. */
  function Xor(a: nat, b: nat, n: nat): nat {
    if n == 0 then 0 else Xor(a / 2, b / 2, n - 1) * 2 + (if a % 2 != b % 2 then 1 else 0)
  }

  lemma {:induction false} XorTwice(a: nat, b: nat, n: nat)
    requires a < Pow2(n)
    ensures Xor(a, b, n) < Pow2(n) && Xor(Xor(a, b, n), b, n) == a
  {
    if n > 0 {
      XorTwice(a / 2, b / 2, n - 1);
    }
  }

  function Flip(b: byte): byte {
    assert Pow2(8) == 256;
    XorTwice(b, ROW_XOR, 8);
    Xor(b, ROW_XOR, 8)
  }

  lemma FlipTwice(b: byte)
    ensures Flip(Flip(b)) == b
  {
    assert Pow2(8) == 256;
    XorTwice(b, ROW_XOR, 8);
  }

  lemma {:induction false} XorBit(a: nat, b: nat, n: nat, i: nat)
    requires i < n
    ensures Bit(Xor(a, b, n), i) <==> Bit(a, i) != Bit(b, i)
  {
    var x := Xor(a / 2, b / 2, n - 1);
    assert Xor(a, b, n) == 2 * x + (if a % 2 != b % 2 then 1 else 0);
    assert Xor(a, b, n) / 2 == x;
    if i > 0 {
      XorBit(a / 2, b / 2, n - 1, i - 1);
    }
  }

  predicate Bit(a: nat, i: nat) {
    if i == 0 then a % 2 == 1 else Bit(a / 2, i - 1)
  }

  /** Which bits of the last byte of a row change: all but bits 0 and 3. */
  lemma FlippedBits(b: byte, i: nat)
    requires i < 8
    ensures Bit(Flip(b), i) <==> Bit(b, i) != (i != 0 && i != 3)
  {
    XorBit(b, ROW_XOR, 8, i);
    MaskBits(ROW_XOR);
    hide Xor, Bit;
  }

  lemma MaskBits(mask: byte)
    requires mask == 0xf6
    ensures forall i :: 0 <= i < 8 ==> (Bit(mask, i) <==> i != 0 && i != 3)
  {
    assert !Bit(246, 0) && Bit(246, 1) && Bit(246, 2) && !Bit(246, 3) && Bit(246, 4) && Bit(246, 5) && Bit(246, 6) && Bit(246, 7) by {
      assert Bit(123, 0) && Bit(61, 0) && !Bit(30, 0) && Bit(15, 0) && Bit(7, 0) && Bit(3, 0) && Bit(1, 0);
      assert Bit(246, 4) == Bit(123, 3) == Bit(61, 2) == Bit(30, 1) == Bit(15, 0);
      assert Bit(246, 5) == Bit(123, 4) == Bit(61, 3) == Bit(30, 2) == Bit(15, 1) == Bit(7, 0);
      assert Bit(246, 6) == Bit(123, 5) == Bit(61, 4) == Bit(30, 3) == Bit(15, 2) == Bit(7, 1) == Bit(3, 0);
      assert Bit(246, 7) == Bit(123, 6) == Bit(61, 5) == Bit(30, 4) == Bit(15, 3) == Bit(7, 2) == Bit(3, 1) == Bit(1, 0);
    }
  }

  /** The last byte of a row is stored in a changed form. */
  function Masked(s: seq<byte>): (r: seq<byte>)
    ensures |r| == |s|
  {
    if s == [] then [] else s[|s| - 1 := Flip(s[|s| - 1])]
  }

  lemma MaskedTwice(s: seq<byte>)
    ensures Masked(Masked(s)) == s
  {
    if s != [] {
      FlipTwice(s[|s| - 1]);
    }
  }

  /** How many rows a file of this size holds. */
  function RowsIn(schema: seq<Attribute>, size: nat): nat
    requires schema != []
  {
    size / RowLength(schema)
  }

  lemma RowsInFile(schema: seq<Attribute>, k: nat)
    requires schema != []
    ensures RowsIn(schema, RowStart(schema, k)) == k
  {
    Quotient(k, RowLength(schema));
  }

  lemma Quotient(n: nat, len: nat)
    requires len > 0
    ensures n * len / len == n
  {
    var d := n - n * len / len;
    assert d * len == n * len % len;
    SmallMultiple(d, len);
  }

  /** Every row has one value for each attribute. */
  predicate Fits(schema: seq<Attribute>, rows: seq<Row>) {
    forall i :: 0 <= i < |rows| ==> |rows[i]| == |schema|
  }

  /** The file of the rows inserted so far. */
  function FileOf(schema: seq<Attribute>, rows: seq<Row>): (f: seq<byte>)
    requires Fits(schema, rows)
  {
    if rows == [] then [] else FileOf(schema, rows[..|rows| - 1]) + Masked(RowBytes(schema, rows[|rows| - 1]))
  }

  /** Where row `k` starts. */
  function RowStart(schema: seq<Attribute>, k: nat): nat {
    k * RowLength(schema)
  }

  lemma NextStart(schema: seq<Attribute>, k: nat)
    ensures RowStart(schema, k + 1) == RowStart(schema, k) + RowLength(schema)
  {
    hide RowLength;
    Times(k + 1, k + 1, RowLength(schema));
  }

  lemma FileUnfolds(schema: seq<Attribute>, rows: seq<Row>)
    requires Fits(schema, rows)
    ensures rows == [] ==> FileOf(schema, rows) == [] && RowStart(schema, 0) == 0
    ensures rows != [] ==>
      var n := |rows| - 1;
      && Fits(schema, rows[..n]) && |rows[n]| == |schema| && |Masked(RowBytes(schema, rows[n]))| == RowLength(schema)
      && FileOf(schema, rows) == FileOf(schema, rows[..n]) + Masked(RowBytes(schema, rows[n]))
  {
    hide RowLength;
  }

  lemma {:induction false} FileLength(schema: seq<Attribute>, rows: seq<Row>)
    requires Fits(schema, rows)
    ensures |FileOf(schema, rows)| == RowStart(schema, |rows|)
  {
    hide *;
    FileUnfolds(schema, rows);
    if rows != [] {
      FileLength(schema, rows[..|rows| - 1]);
      NextStart(schema, |rows| - 1);
    }
  }

  lemma RowFits(schema: seq<Attribute>, rows: seq<Row>, k: nat)
    requires Fits(schema, rows) && k < |rows|
    ensures |rows[k]| == |schema|
  {
  }

  /** Row `k` of the file. */
  lemma {:induction false} FileAt(schema: seq<Attribute>, rows: seq<Row>, k: nat)
    requires Fits(schema, rows) && k < |rows|
    ensures |rows[k]| == |schema| && Piece(FileOf(schema, rows), RowStart(schema, k), Masked(RowBytes(schema, rows[k])))
    decreases |rows|
  {
    hide *;
    RowFits(schema, rows, k);
    var n := |rows| - 1;
    var front, row := rows[..n], rows[k];
    FileUnfolds(schema, rows);
    if k < n {
      assert front[k] == row;
      FileAt(schema, front, k);
      PieceLonger(FileOf(schema, front), Masked(RowBytes(schema, rows[n])), RowStart(schema, k), Masked(RowBytes(schema, row)));
    } else {
      FileLength(schema, front);
      PieceLast(FileOf(schema, front), Masked(RowBytes(schema, row)));
    }
  }

  lemma Times(a: nat, b: nat, c: nat)
    requires a <= b
    ensures a * c <= b * c
    ensures a > 0 ==> a * c == (a - 1) * c + c
  {
  }

  // ----- A relation -----

  class Relation {
    const schema: seq<Attribute>
    var file: seq<byte>
    var cardinality: nat
    var nextRow: nat
    ghost var inserted: seq<Row>

    ghost predicate Valid()
      reads this
    {
      && Fits(schema, inserted) && file == FileOf(schema, inserted)
      && cardinality == nextRow == |inserted|
    }

    /** relation_create, with the attributes that are added to it */
    constructor (schema: seq<Attribute>)
      ensures Valid() && this.schema == schema && inserted == [] && file == []
    {
      this.schema := schema;
      file, cardinality, nextRow, inserted := [], 0, 0, [];
    }

    /** The loop of relation_insert: the values one after the other in a record. */
    method MakeRecord(values: Row) returns (record: seq<byte>)
      requires |values| == |schema|
      ensures record == RowBytes(schema, values)
    {
      record := [];
      var i := 0;
      while i < |schema|
        invariant i <= |schema| && record == RowBytes(schema[..i], values[..i])
      {
        assert schema[..i + 1][..i] == schema[..i] && values[..i + 1][..i] == values[..i];
        record := record + Encode(schema[i].domain, values[i]);
        i := i + 1;
      }
      assert schema[..i] == schema && values[..i] == values;
    }

    /** storage_put_row: the file takes the row in pieces; `takes` says how many bytes each
        write takes, at least one. */
    method PutRow(record: seq<byte>, takes: nat -> nat)
      modifies this`file
      ensures file == old(file) + Masked(record)
    {
      var row := if record == [] then [] else record[|record| - 1 := Flip(record[|record| - 1])];
      var remaining, i := row, 0;
      while remaining != []
        invariant file + remaining == old(file) + row
        decreases |remaining|
      {
        var r := if 1 <= takes(i) <= |remaining| then takes(i) else |remaining|;
        assert remaining == remaining[..r] + remaining[r..];
        file := file + remaining[..r];
        remaining := remaining[r..];
        i := i + 1;
      }
    }

    /** relation_insert */
    method Insert(values: Row, takes: nat -> nat)
      requires Valid() && |values| == |schema|
      modifies this
      ensures Valid() && inserted == old(inserted) + [values]
    {
      var record := MakeRecord(values);
      cardinality := cardinality + 1;
      nextRow := nextRow + 1;
      PutRow(record, takes);
      inserted := inserted + [values];
      assert inserted[..|inserted| - 1] == old(inserted);
    }

    /** storage_get_row_amount */
    method RowAmount() returns (n: nat)
      requires Valid() && schema != []
      ensures n == |inserted|
    {
      FileLength(schema, inserted);
      RowsInFile(schema, |inserted|);
      hide *;
      n := RowsIn(schema, |file|);
    }

    /** storage_get_row: the bytes of row number `k` as they were put, or the end. */
    method GetRow(k: nat) returns (status: Status, row: seq<byte>)
      requires Valid() && schema != []
      ensures k >= |inserted| ==> status == DbFinished
      ensures k < |inserted| ==> status == DbOk && |inserted[k]| == |schema| && row == RowBytes(schema, inserted[k])
    {
      hide RowBytes, FileOf, RowLength, Fits;
      var n := RowAmount();
      if k >= n {
        return DbFinished, [];
      }
      FileAt(schema, inserted, k);
      var at := k * RowLength(schema);
      row := file[at..at + RowLength(schema)];
      MaskedTwice(RowBytes(schema, inserted[k]));
      row := row[|row| - 1 := Flip(row[|row| - 1])];
      status := DbOk;
    }

    /** relation_get_value: attribute `j` of a row read back is the inserted value, modulo its
        stored width. */
    method GetValue(k: nat, j: nat) returns (status: Status, value: long)
      requires Valid() && j < |schema|
      ensures status == if k < |inserted| then DbOk else DbFinished
      ensures k < |inserted| ==> j < |inserted[k]| && value == Stored(schema[j].domain, inserted[k][j])
    {
      value := 0;
      var row;
      status, row := GetRow(k);
      if status == DbOk {
        value := ValueAt(schema, row, j);
        RowRead(schema, inserted[k], j);
      }
    }
  }

  /** The value of attribute `j` in the bytes of a row. */
  function ValueAt(schema: seq<Attribute>, row: seq<byte>, j: nat): long
    requires j < |schema| && |row| == RowLength(schema)
  {
    OffsetsGrow(schema, j);
    Decode(schema[j].domain, row[Offset(schema, j)..Offset(schema, j) + ElementSize(schema[j].domain)])
  }

  lemma RowRead(schema: seq<Attribute>, values: Row, j: nat)
    requires |values| == |schema| && j < |schema|
    ensures ValueAt(schema, RowBytes(schema, values), j) == Stored(schema[j].domain, values[j])
  {
    RowBytesAt(schema, values, j);
    ValueRead(schema[j].domain, values[j]);
    hide Encode, Decode, RowBytes, Offset;
  }
}
