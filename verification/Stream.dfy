/** Streams that an agent writes, byte by byte, and what the screen makes of them (internal/ingest/frame.go): a
    schema and record batches, laid out as the FlatBuffers of the Arrow Columnar Format lay them out. */
module Stream {
  import opened Options
  import opened FlatBuffers
  import opened Frame

  // ---------------------------------------------------------------- headers as bytes

  /** Byte k of the header of a record batch: the root's offset, the vtable of Message with the slots of its type,
      header and body length, the Message, the vtable of RecordBatch with the slot of its compression, and the
      RecordBatch. */
  function BatchByte(k: nat, bodyLen: int, compressed: bool): Byte
    requires 0 <= bodyLen < 0x1_0000_0000
  {
    if k == 0 then 16
    else if k == 4 then 12 else if k == 10 then 4 else if k == 12 then 8 else if k == 14 then 12
    else if k == 16 then 12 else if k == 20 then 3 else if k == 24 then 24
    else if 28 <= k < 32 then Put32(bodyLen)[k - 28]
    else if k == 36 then 12 else if k == 46 then (if compressed then 4 else 0)
    else if k == 48 then 12
    else 0
  }

  function BatchHeader(bodyLen: int, compressed: bool): (b: seq<Byte>)
    requires 0 <= bodyLen < 0x1_0000_0000
    ensures |b| == 56 && forall k :: 0 <= k < 56 ==> b[k] == BatchByte(k, bodyLen, compressed)
  {
    seq(56, k requires 0 <= k < 56 => BatchByte(k, bodyLen, compressed))
  }

  /** Byte k of the header of a schema: the Message as before; a Schema with the slots of its fields and metadata; one
      Field, with the slots of its children and its metadata, which has one child and three entries; the child, with
      neither; and, last, the schema's own metadata entries. */
  function SchemaByte(k: nat, entries: int): Byte
    requires 0 <= entries < 0x1_0000_0000
  {
    if k == 0 then 16
    else if k == 4 then 12 else if k == 10 then 4 else if k == 12 then 8 else if k == 14 then 12
    else if k == 16 then 12 else if k == 20 then 1 else if k == 24 then 24
    else if k == 36 then 10 else if k == 42 then 4 else if k == 44 then 8
    else if k == 48 then 12 else if k == 52 then 20 else if k == 56 then 88
    else if k == 72 then 1 else if k == 76 then 24
    else if k == 80 then 18 else if k == 94 then 4 else if k == 96 then 8
    else if k == 100 then 20 else if k == 104 then 24 else if k == 108 then 4
    else if k == 112 then 3
    else if k == 128 then 1 else if k == 132 then 8
    else if k == 136 then 4 else if k == 140 then 4
    else if 144 <= k < 148 then Put32(entries)[k - 144]
    else 0
  }

  function SchemaHeader(entries: int): (b: seq<Byte>)
    requires 0 <= entries < 0x1000_0000
    ensures |b| == 148 + 4 * entries && forall k :: 0 <= k < |b| ==> b[k] == SchemaByte(k, entries)
  {
    seq(148 + 4 * entries, k requires 0 <= k < 148 + 4 * entries => SchemaByte(k, entries))
  }

  // ---------------------------------------------------------------- reading them

  /** A field of a table, from the three numbers that say where it is. */
  lemma FieldIs(t: Table, vt: nat, so: int, size: int, rel: int)
    requires Le32(t.b, t.pos) == Some(so) && so < 0x8000_0000 && Le16(t.b, t.pos - so) == Some(size) && size >= 4
    requires vt < size ==> Le16(t.b, t.pos - so + vt) == Some(rel)
    ensures t.Field(vt) ==
      if vt >= size || rel == 0 then Ok(None)
      else if 0 <= t.pos + rel < |t.b| then Ok(Some(t.pos + rel)) else Malformed
  {
    hide Le16, Le32;
  }

  lemma VectorIs(t: Table, vt: nat, p: int, rel: int, n: int)
    requires t.Field(vt) == Ok(Some(p)) && Le32(t.b, p) == Some(rel) && Le32(t.b, p + rel) == Some(n)
    requires 0 <= p + rel && rel <= |t.b| - p && n <= (|t.b| - p - rel - 4) / 4
    ensures t.Vector(vt) == Ok((p + rel + 4, n))
  {
    hide Le32, Table.Field;
  }

  lemma SubTableIs(t: Table, vt: nat, p: int, rel: int)
    requires t.Field(vt) == Ok(Some(p)) && Le32(t.b, p) == Some(rel) && rel < 0x8000_0000 && 0 <= p + rel < |t.b|
    ensures t.SubTable(vt) == Ok(Some(Table(t.b, p + rel, t.wide)))
  {
    hide Le32, Table.Field;
  }

  /** Both headers begin with the same Message. */
  ghost predicate IsMessage(b: seq<Byte>, typ: Byte) {
    && |b| >= 56
    && b[0] == 16 && b[1] == b[2] == b[3] == 0
    && b[4] == 12 && b[5] == 0 && b[10] == 4 && b[11] == 0 && b[12] == 8 && b[13] == 0 && b[14] == 12 && b[15] == 0
    && b[16] == 12 && b[17] == b[18] == b[19] == 0
    && b[20] == typ && b[24] == 24 && b[25] == b[26] == b[27] == 0
    && b[32] == b[33] == b[34] == b[35] == 0
  }

  lemma MessageReads(b: seq<Byte>, typ: Byte, wide: bool)
    requires IsMessage(b, typ)
    ensures Le32(b, 0) == Some(16) && Le32(b, 16) == Some(12) && Le16(b, 4) == Some(12)
    ensures Le16(b, 10) == Some(4) && Le16(b, 12) == Some(8) && Le16(b, 14) == Some(12) && Le32(b, 24) == Some(24)
    ensures Le32(b, 32) == Some(0) && b[20] == typ
  {
  }

  lemma MessageIs(b: seq<Byte>, typ: Byte, wide: bool)
    requires IsMessage(b, typ)
    ensures var root := Table(b, 16, wide);
      && Root(b, wide) == Ok(root)
      && HeaderType(root) == Ok(typ)
      && BodyLength(root) == Ok(Le64(b, 28))
      && root.SubTable(8) == Ok(Some(Table(b, 48, wide)))
  {
    MessageReads(b, typ, wide);
    var root := Table(b, 16, wide);
    hide Le16, Le32, Le64;
    FieldIs(root, 6, 12, 12, 4);
    FieldIs(root, 8, 12, 12, 8);
    FieldIs(root, 10, 12, 12, 12);
    SubTableIs(root, 8, 24, 24);
    hide Table.Field, Table.SubTable;
  }

  lemma BatchIsMessage(bodyLen: int, compressed: bool)
    requires 0 <= bodyLen < 0x1_0000_0000
    ensures IsMessage(BatchHeader(bodyLen, compressed), 3)
  {
    hide BatchHeader, Put32;
  }

  lemma BatchReads(bodyLen: int, compressed: bool)
    requires 0 <= bodyLen < 0x1_0000_0000
    ensures var b := BatchHeader(bodyLen, compressed);
      && Le32(b, 48) == Some(12) && Le16(b, 36) == Some(12) && Le16(b, 46) == Some(if compressed then 4 else 0)
      && Le64(b, 28) == bodyLen
  {
    var b := BatchHeader(bodyLen, compressed);
    assert b[28] == Put32(bodyLen)[0] && b[29] == Put32(bodyLen)[1];
    assert b[30] == Put32(bodyLen)[2] && b[31] == Put32(bodyLen)[3];
    Base256(bodyLen);
    assert Le32(b, 28) == Some(bodyLen) && Le32(b, 32) == Some(0);
    hide BatchHeader;
  }

  /** The header of a batch reads as written. */
  lemma BatchIs(bodyLen: int, compressed: bool, wide: bool)
    requires 0 <= bodyLen < 0x1_0000_0000
    ensures Inspect(BatchHeader(bodyLen, compressed), wide) == Ok(Header(3, compressed, bodyLen))
  {
    var b := BatchHeader(bodyLen, compressed);
    BatchIsMessage(bodyLen, compressed);
    MessageIs(b, 3, wide);
    BatchReads(bodyLen, compressed);
    hide Le16, Le32, Le64, BatchHeader, Root, HeaderType, BodyLength, IsMessage;
    FieldIs(Table(b, 48, wide), 10, 12, 12, if compressed then 4 else 0);
    hide Table.Field, Table.SubTable;
  }

  lemma SchemaIsMessage(entries: int)
    requires 0 <= entries < 0x1000_0000
    ensures IsMessage(SchemaHeader(entries), 1)
  {
    hide SchemaHeader, Put32;
  }

  lemma SchemaReads(entries: int)
    requires 0 <= entries < 0x1000_0000
    ensures var b := SchemaHeader(entries);
      && Le32(b, 48) == Some(12) && Le16(b, 36) == Some(10) && Le16(b, 42) == Some(4) && Le16(b, 44) == Some(8)
      && Le32(b, 52) == Some(20) && Le32(b, 56) == Some(88) && Le32(b, 72) == Some(1) && Le32(b, 76) == Some(24)
  {
    hide SchemaHeader, Put32;
  }

  lemma SchemaHasNoBody(entries: int)
    requires 0 <= entries < 0x1000_0000
    ensures Le64(SchemaHeader(entries), 28) == 0
  {
    hide SchemaHeader, Put32;
    var b := SchemaHeader(entries);
    assert Le32(b, 28) == Some(0) && Le32(b, 32) == Some(0);
  }

  lemma ListsAre(t: Table)
    ensures t.MetadataAt(0) == t.Vector(8) && t.ChildrenAt(0) == t.Vector(6)
  {
    hide Table.Vector;
  }

  lemma FieldReads(entries: int)
    requires 0 <= entries < 0x1000_0000
    ensures var b := SchemaHeader(entries);
      && Le32(b, 100) == Some(20) && Le16(b, 80) == Some(18) && Le16(b, 94) == Some(4) && Le16(b, 96) == Some(8)
      && Le32(b, 104) == Some(24) && Le32(b, 108) == Some(4) && Le32(b, 112) == Some(3)
      && Le32(b, 128) == Some(1) && Le32(b, 132) == Some(8) && Le32(b, 140) == Some(4) && Le16(b, 136) == Some(4)
  {
    hide SchemaHeader, Put32;
  }

  lemma EntriesRead(entries: int)
    requires 0 <= entries < 0x1000_0000
    ensures Le32(SchemaHeader(entries), 144) == Some(entries)
  {
    var b := SchemaHeader(entries);
    assert b[144] == Put32(entries)[0] && b[145] == Put32(entries)[1];
    assert b[146] == Put32(entries)[2] && b[147] == Put32(entries)[3];
    Base256(entries);
    hide SchemaHeader;
  }

  lemma ElementIs(t: Table, first: int, rel: int)
    requires Le32(t.b, first) == Some(rel) && rel <= |t.b| - first - 1
    ensures t.Element(first, 0) == Ok(Table(t.b, first + rel, t.wide))
  {
    hide Le32;
  }

  lemma NothingBelow(t: Table, first: int, depth: nat)
    requires depth <= MAX_SCHEMA_DEPTH
    ensures t.Below(first, 0, depth) == Some(0)
  {
  }

  lemma OneBelow(t: Table, first: int, depth: nat, child: Table, size: nat)
    requires depth <= MAX_SCHEMA_DEPTH && t.Element(first, 0) == Ok(child) && child.Unfolding(depth + 1) == Some(size)
    ensures t.Below(first, 1, depth) == Some(size)
  {
    hide Table.Element, Table.Unfolding;
    NothingBelow(t, first, depth);
  }

  lemma UnfoldingIs(t: Table, depth: nat, a: int, m: int, first: int, n: int, below: nat)
    requires depth <= MAX_SCHEMA_DEPTH && m >= 0 && n >= 0
    requires t.MetadataAt(depth) == Ok((a, m)) && t.ChildrenAt(depth) == Ok((first, n))
    requires t.Below(first, n, depth) == Some(below)
    ensures t.Unfolding(depth) == Some(m + n + below)
  {
    hide Table.MetadataAt, Table.ChildrenAt, Table.Below;
  }

  /** The child: no entries, no children. */
  lemma ChildUnfolds(entries: int, wide: bool)
    requires 0 <= entries < 0x1000_0000
    ensures Table(SchemaHeader(entries), 140, wide).Unfolding(2) == Some(0)
  {
    var t := Table(SchemaHeader(entries), 140, wide);
    FieldReads(entries);
    hide Le16, Le32, SchemaHeader;
    FieldIs(t, 14, 4, 4, 0);
    FieldIs(t, 16, 4, 4, 0);
    NothingBelow(t, 0, 2);
    hide Table.Field;
    assert t.MetadataAt(2) == Ok((0, 0)) && t.ChildrenAt(2) == Ok((0, 0));
    UnfoldingIs(t, 2, 0, 0, 0, 0, 0);
  }

  /** The field: three entries, one child. */
  lemma FieldUnfolds(entries: int, wide: bool)
    requires 0 <= entries < 0x1000_0000
    ensures Table(SchemaHeader(entries), 100, wide).Unfolding(1) == Some(4)
  {
    var b := SchemaHeader(entries);
    var t := Table(b, 100, wide);
    FieldReads(entries);
    ChildUnfolds(entries, wide);
    hide Le16, Le32, SchemaHeader;
    FieldIs(t, 14, 20, 18, 4);
    FieldIs(t, 16, 20, 18, 8);
    hide Table.Field, Table.Unfolding;
    VectorIs(t, 14, 104, 24, 1);
    VectorIs(t, 16, 108, 4, 3);
    assert t.Element(132, 0) == Ok(Table(b, 140, wide));
    hide Table.Vector;
    assert t.MetadataAt(1) == Ok((116, 3)) && t.ChildrenAt(1) == Ok((132, 1));
    OneBelow(t, 132, 1, Table(b, 140, wide), 0);
    UnfoldingIs(t, 1, 116, 3, 132, 1, 0);
  }

  /** The schema: its entries, its field, and what the field holds. */
  lemma SchemaUnfolds(entries: int, wide: bool)
    requires 0 <= entries < 0x1000_0000
    ensures Table(SchemaHeader(entries), 48, wide).Unfolding(0) == Some(entries + 5)
  {
    hide *;
    var b := SchemaHeader(entries);
    var t := Table(b, 48, wide);
    SchemaLists(entries, wide);
    FieldUnfolds(entries, wide);
    OneBelow(t, 76, 0, Table(b, 100, wide), 4);
    UnfoldingIs(t, 0, 148, entries, 76, 1, 4);
  }

  lemma SchemaLists(entries: int, wide: bool)
    requires 0 <= entries < 0x1000_0000
    ensures var b := SchemaHeader(entries);
      var t := Table(b, 48, wide);
      && t.MetadataAt(0) == Ok((148, entries)) && t.ChildrenAt(0) == Ok((76, 1))
      && t.Element(76, 0) == Ok(Table(b, 100, wide))
  {
    hide *;
    var b := SchemaHeader(entries);
    var t := Table(b, 48, wide);
    SchemaReads(entries);
    EntriesRead(entries);
    FieldIs(t, 6, 12, 10, 4);
    FieldIs(t, 8, 12, 10, 8);
    VectorIs(t, 6, 52, 20, 1);
    VectorIs(t, 8, 56, 88, entries);
    ElementIs(t, 76, 24);
    ListsAre(t);
  }

  /** The header of a schema is read exactly when it unfolds to at most 256 nodes. */
  lemma SchemaIs(entries: int, wide: bool)
    requires 0 <= entries < 0x1000_0000
    ensures Inspect(SchemaHeader(entries), wide) ==
      if entries + 5 <= 256 then Ok(Header(1, false, 0)) else Malformed
  {
    var b := SchemaHeader(entries);
    SchemaIsMessage(entries);
    MessageIs(b, 1, wide);
    SchemaHasNoBody(entries);
    SchemaUnfolds(entries, wide);
    hide Le16, Le32, Le64, SchemaHeader, Root, HeaderType, BodyLength, IsMessage, Table.Field, Table.SubTable,
         Table.Unfolding;
    assert MAX_SCHEMA_FIELDS == 256;
    assert SchemaFits(Table(b, 16, wide)) <==> entries + 5 <= 256;
  }

  // ---------------------------------------------------------------- a field in a field

  /** Byte k of the header of a schema of one field, with so many fields one below the other in it: the Message and
      the Schema as before, the vtable of a Field with one child and that of one without, and the Fields. */
  function NestedByte(k: nat, below: nat): Byte
    requires below < 0x100_0000
  {
    if k == 0 then 16
    else if k == 4 then 12 else if k == 10 then 4 else if k == 12 then 8 else if k == 14 then 12
    else if k == 16 then 12 else if k == 20 then 1 else if k == 24 then 24
    else if k == 36 then 10 else if k == 42 then 4
    else if k == 48 then 12 else if k == 52 then 8
    else if k == 60 then 1 else if k == 64 then 28
    else if k == 68 then 18 else if k == 82 then 4
    else if k == 88 then 4
    else if k < 92 || k >= 108 + 16 * below then 0
    else ChainByte((k - 92) / 16, (k - 92) % 16, below)
  }

  /** Byte o of the j-th of these Fields. */
  function ChainByte(j: nat, o: nat, below: nat): Byte
    requires j <= below < 0x100_0000
  {
    if o < 4 then Put32(if j < below then 24 + 16 * j else 4 + 16 * j)[o]
    else if j < below && (o == 4 || o == 12) then 4
    else if j < below && o == 8 then 1
    else 0
  }

  function NestedHeader(below: nat): (b: seq<Byte>)
    requires below < 0x100_0000
    ensures |b| == 108 + 16 * below && forall k :: 0 <= k < |b| ==> b[k] == NestedByte(k, below)
  {
    seq(108 + 16 * below, k requires 0 <= k < 108 + 16 * below => NestedByte(k, below))
  }

  lemma NestedIsMessage(below: nat)
    requires below < 0x100_0000
    ensures IsMessage(NestedHeader(below), 1)
  {
    hide NestedHeader, ChainByte;
  }

  lemma NestedHasNoBody(below: nat)
    requires below < 0x100_0000
    ensures Le64(NestedHeader(below), 28) == 0
  {
    hide NestedHeader, ChainByte;
    var b := NestedHeader(below);
    assert Le32(b, 28) == Some(0) && Le32(b, 32) == Some(0);
  }

  lemma NestedReads(below: nat)
    requires below < 0x100_0000
    ensures var b := NestedHeader(below);
      && Le32(b, 48) == Some(12) && Le16(b, 36) == Some(10) && Le16(b, 42) == Some(4) && Le16(b, 44) == Some(0)
      && Le32(b, 52) == Some(8) && Le32(b, 60) == Some(1) && Le32(b, 64) == Some(28)
      && Le16(b, 68) == Some(18) && Le16(b, 82) == Some(4) && Le16(b, 84) == Some(0) && Le16(b, 88) == Some(4)
  {
    hide NestedHeader, ChainByte;
  }

  lemma ChainAt(below: nat, j: nat, o: nat)
    requires j <= below < 0x100_0000 && o < 16
    ensures 92 + 16 * j + o < |NestedHeader(below)|
    ensures NestedHeader(below)[92 + 16 * j + o] == ChainByte(j, o, below)
  {
    var k := 92 + 16 * j + o;
    assert (k - 92) / 16 == j && (k - 92) % 16 == o;
    hide NestedHeader, ChainByte;
  }

  lemma ChainReads(below: nat, j: nat)
    requires j <= below < 0x100_0000
    ensures var b, p := NestedHeader(below), 92 + 16 * j;
      && Le32(b, p) == Some(if j < below then 24 + 16 * j else 4 + 16 * j)
      && (j < below ==> Le32(b, p + 4) == Some(4) && Le32(b, p + 8) == Some(1) && Le32(b, p + 12) == Some(4))
  {
    hide *;
    var x := if j < below then 24 + 16 * j else 4 + 16 * j;
    ChainFirst(below, j);
    ChainWord(below, j, 0, x);
    if j < below {
      ChainRest(below, j);
      ChainWord(below, j, 4, 4);
      ChainWord(below, j, 8, 1);
      ChainWord(below, j, 12, 4);
    }
  }

  ghost predicate ChainIs(below: nat, j: nat, o: nat, x: int)
    requires j <= below < 0x100_0000 && o <= 12 && 0 <= x < 0x1_0000_0000
  {
    && ChainByte(j, o, below) == Put32(x)[0] && ChainByte(j, o + 1, below) == Put32(x)[1]
    && ChainByte(j, o + 2, below) == Put32(x)[2] && ChainByte(j, o + 3, below) == Put32(x)[3]
  }

  lemma ChainFirst(below: nat, j: nat)
    requires j <= below < 0x100_0000
    ensures ChainIs(below, j, 0, if j < below then 24 + 16 * j else 4 + 16 * j)
  {
  }

  lemma ChainRest(below: nat, j: nat)
    requires j < below < 0x100_0000
    ensures ChainIs(below, j, 4, 4) && ChainIs(below, j, 8, 1) && ChainIs(below, j, 12, 4)
  {
  }

  lemma ChainWord(below: nat, j: nat, o: nat, x: int)
    requires j <= below < 0x100_0000 && o <= 12 && 0 <= x < 0x1_0000_0000 && ChainIs(below, j, o, x)
    ensures Le32(NestedHeader(below), 92 + 16 * j + o) == Some(x)
  {
    hide *;
    ChainGives(below, j, o, x);
    ChainAt(below, j, o);
    ChainAt(below, j, o + 1);
    ChainAt(below, j, o + 2);
    ChainAt(below, j, o + 3);
    WordIs(NestedHeader(below), 92 + 16 * j + o, x);
  }

  lemma ChainGives(below: nat, j: nat, o: nat, x: int)
    requires j <= below < 0x100_0000 && o <= 12 && 0 <= x < 0x1_0000_0000 && ChainIs(below, j, o, x)
    ensures ChainByte(j, o, below) == Put32(x)[0] && ChainByte(j, o + 1, below) == Put32(x)[1]
    ensures ChainByte(j, o + 2, below) == Put32(x)[2] && ChainByte(j, o + 3, below) == Put32(x)[3]
  {
    hide ChainByte, Put32;
  }

  lemma WordIs(b: seq<Byte>, p: int, x: int)
    requires 0 <= p <= |b| - 4 && 0 <= x < 0x1_0000_0000
    requires b[p] == Put32(x)[0] && b[p + 1] == Put32(x)[1] && b[p + 2] == Put32(x)[2] && b[p + 3] == Put32(x)[3]
    ensures Le32(b, p) == Some(x)
  {
    Base256(x);
  }

  lemma ChainLists(below: nat, j: nat, wide: bool)
    requires j <= below < 0x100_0000
    ensures var b := NestedHeader(below);
      var t := Table(b, 92 + 16 * j, wide);
      && t.Vector(16) == Ok((0, 0))
      && (if j < below then t.Vector(14) == Ok((104 + 16 * j, 1))
                            && t.Element(104 + 16 * j, 0) == Ok(Table(b, 108 + 16 * j, wide))
          else t.Vector(14) == Ok((0, 0)))
  {
    hide *;
    var b := NestedHeader(below);
    var t := Table(b, 92 + 16 * j, wide);
    ChainReads(below, j);
    NestedReads(below);
    if j < below {
      FieldIs(t, 14, 24 + 16 * j, 18, 4);
      FieldIs(t, 16, 24 + 16 * j, 18, 0);
      VectorIs(t, 14, 96 + 16 * j, 4, 1);
      NoVector(t, 16);
      ElementIs(t, 104 + 16 * j, 4);
    } else {
      FieldIs(t, 14, 4 + 16 * j, 4, 0);
      FieldIs(t, 16, 4 + 16 * j, 4, 0);
      NoVector(t, 14);
      NoVector(t, 16);
    }
  }

  lemma NoVector(t: Table, vt: nat)
    requires t.Field(vt) == Ok(None)
    ensures t.Vector(vt) == Ok((0, 0))
  {
    hide Table.Field;
  }

  lemma FieldListsAre(t: Table, depth: nat)
    requires depth > 0
    ensures t.MetadataAt(depth) == t.Vector(16) && t.ChildrenAt(depth) == t.Vector(14)
  {
    hide Table.Vector;
  }

  /** A table with one child, which unfolds or does not. */
  lemma OneChildUnfolds(t: Table, depth: nat, a: int, first: int, child: Table)
    requires depth <= 4 && t.MetadataAt(depth) == Ok((a, 0)) && t.ChildrenAt(depth) == Ok((first, 1))
    requires t.Element(first, 0) == Ok(child)
    ensures t.Unfolding(depth) ==
      match child.Unfolding(depth + 1) case None => None case Some(n) => Some(n + 1)
  {
    hide *;
    DeepEnough();
    OneBelowIs(t, first, depth, child);
    match child.Unfolding(depth + 1)
    case None => NothingUnfolds(t, depth, a, first);
    case Some(n) => UnfoldingIs(t, depth, a, 0, first, 1, n);
  }

  lemma NothingUnfolds(t: Table, depth: nat, a: int, first: int)
    requires depth <= MAX_SCHEMA_DEPTH
    requires t.MetadataAt(depth) == Ok((a, 0)) && t.ChildrenAt(depth) == Ok((first, 1))
    requires t.Below(first, 1, depth) == None
    ensures t.Unfolding(depth) == None
  {
    hide Table.MetadataAt, Table.ChildrenAt, Table.Below;
  }

  lemma OneBelowIs(t: Table, first: int, depth: nat, child: Table)
    requires depth <= MAX_SCHEMA_DEPTH && t.Element(first, 0) == Ok(child)
    ensures t.Below(first, 1, depth) == child.Unfolding(depth + 1)
  {
    hide Table.Element, Table.Unfolding;
    NothingBelow(t, first, depth);
  }

  lemma TooDeep(t: Table)
    ensures t.Unfolding(5) == None
  {
  }

  lemma {:induction false} ChainUnfolds(below: nat, j: nat, wide: bool)
    requires j <= below < 0x100_0000 && j <= 4
    ensures Table(NestedHeader(below), 92 + 16 * j, wide).Unfolding(j + 1) ==
      if below <= 3 then Some(below - j) else None
    decreases 5 - j
  {
    hide *;
    var t := Table(NestedHeader(below), 92 + 16 * j, wide);
    if j == 4 {
      TooDeep(t);
    } else {
      ChainLists(below, j, wide);
      FieldListsAre(t, j + 1);
      if j < below {
        ChainUnfolds(below, j + 1, wide);
        OneChildUnfolds(t, j + 1, 0, 104 + 16 * j, Table(NestedHeader(below), 108 + 16 * j, wide));
      } else {
        DeepEnough();
        NothingBelow(t, 0, j + 1);
        UnfoldingIs(t, j + 1, 0, 0, 0, 0, 0);
      }
    }
  }

  lemma DeepEnough()
    ensures MAX_SCHEMA_DEPTH == 4
  {
  }

  lemma NestedUnfolds(below: nat, wide: bool)
    requires below < 0x100_0000
    ensures Table(NestedHeader(below), 48, wide).Unfolding(0) == if below <= 3 then Some(below + 1) else None
  {
    hide *;
    var b := NestedHeader(below);
    var t := Table(b, 48, wide);
    NestedReads(below);
    FieldIs(t, 6, 12, 10, 4);
    FieldIs(t, 8, 12, 10, 0);
    VectorIs(t, 6, 52, 8, 1);
    NoVector(t, 8);
    ElementIs(t, 64, 28);
    ListsAre(t);
    ChainUnfolds(below, 0, wide);
    OneChildUnfolds(t, 0, 0, 64, Table(b, 92, wide));
  }

  /** The header of such a schema is read exactly when at most three fields lie below its field. */
  lemma NestedIs(below: nat, wide: bool)
    requires below < 0x100_0000
    ensures Inspect(NestedHeader(below), wide) == if below <= 3 then Ok(Header(1, false, 0)) else Malformed
  {
    var b := NestedHeader(below);
    NestedIsMessage(below);
    MessageIs(b, 1, wide);
    NestedHasNoBody(below);
    NestedUnfolds(below, wide);
    hide Le16, Le32, Le64, NestedHeader, Root, HeaderType, BodyLength, IsMessage, Table.Field, Table.SubTable,
         Table.Unfolding;
    assert MAX_SCHEMA_FIELDS == 256;
    assert SchemaFits(Table(b, 16, wide)) <==> below <= 3;
  }

  // ---------------------------------------------------------------- whole streams

  /** What an agent may put into a stream: a schema with so many metadata entries of its own, one with fields so deep
      in one another, or a record batch. */
  datatype Part = SchemaPart(entries: nat) | NestedPart(below: nat) | BatchPart(body: seq<Byte>, compressed: bool)

  predicate Writable(p: Part) {
    match p
    case SchemaPart(entries) => entries < 0x1000_0000
    case NestedPart(below) => below < 0x100_0000
    case BatchPart(body, _) => |body| < 0x1_0000_0000
  }

  function HeaderOf(p: Part): (b: seq<Byte>)
    requires Writable(p)
    ensures 0 < |b| < 0xFFFF_FFFF
  {
    match p
    case SchemaPart(entries) => SchemaHeader(entries)
    case NestedPart(below) => NestedHeader(below)
    case BatchPart(body, compressed) => BatchHeader(|body|, compressed)
  }

  function BodyOf(p: Part): seq<Byte> { if p.BatchPart? then p.body else [] }

  /** One message: the continuation marker, the length of the header, the header, the body. */
  function Framed(p: Part): seq<Byte>
    requires Writable(p)
  {
    Put32(0xFFFF_FFFF) + Put32(|HeaderOf(p)|) + HeaderOf(p) + BodyOf(p)
  }

  /** The messages, and the marker that ends a stream. */
  function Written(parts: seq<Part>): seq<Byte>
    requires forall k :: 0 <= k < |parts| ==> Writable(parts[k])
  {
    if parts == [] then Put32(0xFFFF_FFFF) + Put32(0) else Framed(parts[0]) + Written(parts[1..])
  }

  /** Fit to be part k of a submission: a schema of at most 256 nodes, at most four deep, first; then uncompressed
      batches; 32 messages in all. */
  predicate Welcome(p: Part, k: nat) {
    && k < 32
    && match p
       case SchemaPart(entries) => k == 0 && entries + 5 <= 256
       case NestedPart(below) => k == 0 && below + 1 <= 4
       case BatchPart(_, compressed) => k > 0 && !compressed
  }

  lemma FramedReads(before: seq<Byte>, p: Part, after: seq<Byte>)
    requires Writable(p)
    ensures var body, off, n := before + Framed(p) + after, |before|, |HeaderOf(p)|;
      && LengthAt(body, off) == Some((n, off + 8))
      && off + 8 + n + |BodyOf(p)| <= |body| && off + 8 + n + |BodyOf(p)| == |before + Framed(p)|
      && body[off + 8..off + 8 + n] == HeaderOf(p)
  {
    hide HeaderOf, BodyOf, Put32;
    var head, n := HeaderOf(p), |HeaderOf(p)|;
    var marker, length := Put32(0xFFFF_FFFF), Put32(n);
    var rest := head + BodyOf(p) + after;
    var body := before + Framed(p) + after;
    Le32ReadsBack(before, 0xFFFF_FFFF, length + rest);
    Le32ReadsBack(before + marker, n, rest);
    assert body == before + marker + (length + rest) == (before + marker) + length + rest;
    hide Le32;
  }

  lemma HeaderReads(p: Part, wide: bool)
    requires Writable(p)
    ensures Inspect(HeaderOf(p), wide) == match p
      case SchemaPart(entries) => if entries + 5 <= 256 then Ok(Header(1, false, 0)) else Malformed
      case NestedPart(below) => if below + 1 <= 4 then Ok(Header(1, false, 0)) else Malformed
      case BatchPart(body, compressed) => Ok(Header(3, compressed, |body|))
  {
    match p
    case SchemaPart(entries) => SchemaIs(entries, wide);
    case NestedPart(below) => NestedIs(below, wide);
    case BatchPart(body, compressed) => BatchIs(|body|, compressed, wide);
  }

  /** One step of the walk, over a written message. */
  lemma OneWalked(before: seq<Byte>, p: Part, after: seq<Byte>, wide: bool, k: nat)
    requires Writable(p)
    ensures Passes(before + Framed(p) + after, wide, |before|, k) <==>
      Welcome(p, k) && Passes(before + Framed(p) + after, wide, |before + Framed(p)|, k + 1)
  {
    hide *;
    FramedReads(before, p, after);
    HeaderReads(p, wide);
    var n := |HeaderOf(p)|;
    StepOfWalk(before + Framed(p) + after, wide, |before|, k, n, HeaderOf(p));
    WelcomeIs(p, k);
  }

  /** The walk over one message that is all there. */
  lemma StepOfWalk(body: seq<Byte>, wide: bool, off: nat, k: nat, n: int, meta: seq<Byte>)
    requires LengthAt(body, off) == Some((n, off + 8)) && 0 < n && off + 8 + n <= |body|
    requires body[off + 8..off + 8 + n] == meta
    ensures Passes(body, wide, off, k) <==>
      && k + 1 <= 32 && Inspect(meta, wide).Ok?
      && var h := Inspect(meta, wide).value;
         && (h.typ == 1 || h.typ == 3) && (h.typ == 1 <==> k == 0) && !h.compressed
         && 0 <= h.bodyLen <= |body| - (off + 8 + n) && Passes(body, wide, off + 8 + n + h.bodyLen, k + 1)
  {
    hide Inspect, LengthAt;
    assert MAX_MESSAGES == 32 && MESSAGE_SCHEMA == 1 && MESSAGE_RECORD_BATCH == 3;
  }

  lemma WelcomeIs(p: Part, k: nat)
    ensures Welcome(p, k) <==> k < 32 && match p
      case SchemaPart(entries) => k == 0 && entries + 5 <= 256
      case NestedPart(below) => k == 0 && below + 1 <= 4
      case BatchPart(_, compressed) => k != 0 && !compressed
    ensures |BodyOf(p)| == if p.BatchPart? then |p.body| else 0
  {
  }

  lemma EndWalked(before: seq<Byte>, wide: bool, k: nat)
    ensures Passes(before + Written([]), wide, |before|, k)
  {
    var marker, zero := Put32(0xFFFF_FFFF), Put32(0);
    Le32ReadsBack(before, 0xFFFF_FFFF, zero);
    Le32ReadsBack(before + marker, 0, []);
    var body := before + Written([]);
    hide Put32;
    assert body == before + marker + zero == (before + marker) + zero + [];
    hide Le32;
    assert LengthAt(body, |before|) == Some((0, |before| + 8));
    hide LengthAt, Inspect;
  }

  lemma {:induction false} WrittenWalks(before: seq<Byte>, parts: seq<Part>, wide: bool, k: nat)
    requires forall i :: 0 <= i < |parts| ==> Writable(parts[i])
    ensures Passes(before + Written(parts), wide, |before|, k) <==>
      forall i :: 0 <= i < |parts| ==> Welcome(parts[i], k + i)
    decreases |parts|
  {
    hide *;
    if parts == [] {
      EndWalked(before, wide, k);
    } else {
      WrittenSplits(parts);
      var p, rest := parts[0], parts[1..];
      assert before + (Framed(p) + Written(rest)) == before + Framed(p) + Written(rest);
      OneWalked(before, p, Written(rest), wide, k);
      WrittenWalks(before + Framed(p), rest, wide, k + 1);
      AllWelcome(parts, k);
    }
  }

  lemma WrittenSplits(parts: seq<Part>)
    requires parts != [] && forall i :: 0 <= i < |parts| ==> Writable(parts[i])
    ensures Written(parts) == Framed(parts[0]) + Written(parts[1..])
  {
    hide Framed;
  }

  lemma AllWelcome(parts: seq<Part>, k: nat)
    requires parts != []
    ensures (forall i :: 0 <= i < |parts| ==> Welcome(parts[i], k + i)) <==>
      Welcome(parts[0], k) && forall i :: 0 <= i < |parts| - 1 ==> Welcome(parts[1..][i], k + 1 + i)
  {
    hide Welcome;
    if Welcome(parts[0], k) && forall i :: 0 <= i < |parts| - 1 ==> Welcome(parts[1..][i], k + 1 + i) {
      forall i | 0 <= i < |parts| ensures Welcome(parts[i], k + i) {
        if i > 0 {
          assert Welcome(parts[1..][i - 1], k + 1 + (i - 1));
        }
      }
    }
    if forall i :: 0 <= i < |parts| ==> Welcome(parts[i], k + i) {
      assert Welcome(parts[0], k + 0);
      forall i | 0 <= i < |parts| - 1 ensures Welcome(parts[1..][i], k + 1 + i) {
        assert Welcome(parts[i + 1], k + (i + 1));
      }
    }
  }

  /** Of all the streams that can be written so, whatever the bodies of their batches, the screen lets through exactly
      those that begin with a schema of at most 256 nodes, at most four deep, and go on with at most 31 uncompressed
      batches. */
  lemma WrittenStreamsPassExactly(parts: seq<Part>, wide: bool)
    requires forall i :: 0 <= i < |parts| ==> Writable(parts[i])
    ensures Splits(Written(parts), wide) <==> forall i :: 0 <= i < |parts| ==> Welcome(parts[i], i)
  {
    hide *;
    WrittenWalks([], parts, wide, 0);
    PassesIsWellFramed(Written(parts), wide);
    assert [] + Written(parts) == Written(parts);
  }
}
