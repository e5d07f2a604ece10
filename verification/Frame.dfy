/** Screening an Arrow IPC stream before it is read (internal/ingest/frame.go), after the "Encapsulated
    message format" of the Arrow Columnar Format. */
module Frame {
  import opened Options
  import opened FlatBuffers

  const MAX_MESSAGES: nat := 32
  const CONTINUATION: int := 0xFFFF_FFFF

  const VT_MESSAGE_HEADER_TYPE: nat := 6
  const VT_MESSAGE_HEADER: nat := 8
  const VT_MESSAGE_BODY_LENGTH: nat := 10
  const VT_BATCH_COMPRESSION: nat := 10

  const MESSAGE_SCHEMA: int := 1
  const MESSAGE_RECORD_BATCH: int := 3

  datatype Header = Header(typ: int, compressed: bool, bodyLen: int)

  function Le64(b: seq<Byte>, off: int): int
    requires 0 <= off <= |b| - 8
  {
    var x := Le32(b, off).value + 0x1_0000_0000 * Le32(b, off + 4).value;
    if x >= 0x8000_0000_0000_0000 then x - 0x1_0000_0000_0000_0000 else x
  }

  function Root(b: seq<Byte>, wide: bool): Result<Table> {
    var off := Le32(b, 0);
    if off.None? || off.value >= |b| then Malformed else Ok(Table(b, off.value, wide))
  }

  function HeaderType(root: Table): Result<int> {
    match root.Field(VT_MESSAGE_HEADER_TYPE)
    case Malformed => Malformed
    case Ok(None) => Ok(0)
    case Ok(Some(p)) => Ok(root.b[p])
  }

  function BodyLength(root: Table): Result<int> {
    match root.Field(VT_MESSAGE_BODY_LENGTH)
    case Malformed => Malformed
    case Ok(None) => Ok(0)
    case Ok(Some(p)) => if p + 8 > |root.b| then Malformed else Ok(Le64(root.b, p))
  }

  /** Whether the schema a message carries, if any, unfolds to no more nodes than allowed. */
  predicate SchemaFits(root: Table) {
    match root.SubTable(VT_MESSAGE_HEADER)
    case Malformed => false
    case Ok(None) => true
    case Ok(Some(schema)) => schema.Unfolding(0).Some? && schema.Unfolding(0).value <= MAX_SCHEMA_FIELDS
  }

  function Compressed(root: Table): Result<bool> {
    match root.SubTable(VT_MESSAGE_HEADER)
    case Malformed => Malformed
    case Ok(None) => Malformed
    case Ok(Some(batch)) =>
      match batch.Field(VT_BATCH_COMPRESSION)
      case Malformed => Malformed
      case Ok(p) => Ok(p.Some?)
  }

  /** What one message header says, when all of it can be read. */
  function Inspect(meta: seq<Byte>, wide: bool): Result<Header> {
    match Root(meta, wide)
    case Malformed => Malformed
    case Ok(root) =>
      match (HeaderType(root), BodyLength(root))
      case (Ok(typ), Ok(n)) =>
        if typ == MESSAGE_SCHEMA then (if SchemaFits(root) then Ok(Header(typ, false, n)) else Malformed)
        else if typ == MESSAGE_RECORD_BATCH then
          (match Compressed(root) case Malformed => Malformed case Ok(c) => Ok(Header(typ, c, n)))
        else Ok(Header(typ, false, n))
      case _ => Malformed
  }

  method InspectMessage(meta: seq<Byte>, wide: bool) returns (hdr: Result<Header>)
    ensures hdr == Inspect(meta, wide)
  {
    var root := Root(meta, wide);
    if root.Malformed? { return Malformed; }
    var typ := HeaderType(root.value);
    if typ.Malformed? { return Malformed; }
    var bodyLen := BodyLength(root.value);
    if bodyLen.Malformed? { return Malformed; }
    var compressed := false;
    if typ.value == MESSAGE_SCHEMA {
      var schema := root.value.SubTable(VT_MESSAGE_HEADER);
      if schema.Malformed? { return Malformed; }
      if schema.value.Some? {
        var ok, _, _ := schema.value.value.CountNodes(MAX_SCHEMA_FIELDS, 0);
        if !ok { return Malformed; }
      }
    }
    if typ.value == MESSAGE_RECORD_BATCH {
      var batch := root.value.SubTable(VT_MESSAGE_HEADER);
      if batch.Malformed? || batch.value.None? { return Malformed; }
      var c := batch.value.value.Field(VT_BATCH_COMPRESSION);
      if c.Malformed? { return Malformed; }
      compressed := c.value.Some?;
    }
    return Ok(Header(typ.value, compressed, bodyLen.value));
  }

  // ---------------------------------------------------------------- what a well-framed stream is

  /** The length of the message at `off`, after a continuation marker if there is one, and where its
      header begins. */
  function LengthAt(body: seq<Byte>, off: int): Option<(int, int)> {
    match Le32(body, off)
    case None => None
    case Some(n) =>
      if n != CONTINUATION then Some((n, off + 4))
      else match Le32(body, off + 4) case None => None case Some(m) => Some((m, off + 8))
  }

  /** One message: where it starts, where its header lies and where its body ends. */
  datatype Message = Message(start: int, head: int, headLen: int, end: int)

  /** The message is all there, and is a schema or an uncompressed record batch as required. */
  ghost predicate Sound(body: seq<Byte>, wide: bool, m: Message, schema: bool) {
    && 0 <= m.start < m.head < m.head + m.headLen <= m.end <= |body|
    && LengthAt(body, m.start) == Some((m.headLen, m.head))
    && var h := Inspect(body[m.head..m.head + m.headLen], wide);
       && h.Ok?
       && h.value == Header(if schema then MESSAGE_SCHEMA else MESSAGE_RECORD_BATCH, false, m.end - m.head - m.headLen)
  }

  function EndOf(from: int, msgs: seq<Message>): int {
    if msgs == [] then from else msgs[|msgs| - 1].end
  }

  predicate Placed(from: int, msgs: seq<Message>, i: int)
    requires 0 <= i < |msgs|
  {
    msgs[i].start == if i == 0 then from else msgs[i - 1].end
  }

  /** `msgs` are laid end to end from `from`, up to the end of the body or an end-of-stream marker. The
      first of the whole stream, and only that one, is a schema. */
  ghost predicate WellFramed(body: seq<Byte>, wide: bool, from: int, before: nat, msgs: seq<Message>) {
    && (forall i :: 0 <= i < |msgs| ==> Sound(body, wide, msgs[i], before + i == 0))
    && (forall i :: 0 <= i < |msgs| ==> Placed(from, msgs, i))
    && var end := EndOf(from, msgs);
       end >= |body| || (LengthAt(body, end).Some? && LengthAt(body, end).value.0 == 0)
  }

  // ---------------------------------------------------------------- the screen

  /** The walk from an offset, having seen some messages. */
  predicate Passes(body: seq<Byte>, wide: bool, off: int, messages: nat)
    requires off >= 0
    decreases |body| - off
  {
    if off >= |body| then true
    else
      match LengthAt(body, off)
      case None => false
      case Some((n, head)) =>
        if n == 0 then true
        else if messages + 1 > MAX_MESSAGES || n > |body| - head then false
        else
          match Inspect(body[head..head + n], wide)
          case Malformed => false
          case Ok(h) =>
            && (h.typ == MESSAGE_SCHEMA || h.typ == MESSAGE_RECORD_BATCH)
            && (h.typ == MESSAGE_SCHEMA <==> messages == 0)
            && !h.compressed
            && 0 <= h.bodyLen <= |body| - head - n
            && Passes(body, wide, head + n + h.bodyLen, messages + 1)
  }

  /** The body splits into at most MAX_MESSAGES messages. */
  ghost predicate Splits(body: seq<Byte>, wide: bool) {
    exists msgs :: |msgs| <= MAX_MESSAGES && WellFramed(body, wide, 0, 0, msgs)
  }

  /** `screenFrames` says yes exactly to the bodies that split into messages. */
  method ScreenFrames(body: seq<Byte>, wide: bool) returns (ok: bool)
    ensures ok <==> Splits(body, wide)
  {
    hide Inspect, WellFramed, Splits;
    PassesIsWellFramed(body, wide);
    var off, messages := 0, 0;
    while off < |body|
      invariant 0 <= off
      invariant Passes(body, wide, off, messages) == Passes(body, wide, 0, 0)
      decreases |body| - off
    {
      var n := Le32(body, off);
      if n.None? { return false; }
      off := off + 4;
      if n.value == CONTINUATION {
        n := Le32(body, off);
        if n.None? { return false; }
        off := off + 4;
      }
      if n.value == 0 { return true; }
      messages := messages + 1;
      if messages > MAX_MESSAGES { return false; }
      if n.value > |body| - off { return false; }
      var meta := body[off..off + n.value];
      off := off + n.value;
      var hdr := InspectMessage(meta, wide);
      SchemaIsNotCompressed(meta, wide);
      if hdr.Malformed? { return false; }
      if hdr.value.typ == MESSAGE_SCHEMA {
        if messages != 1 { return false; }
      } else if hdr.value.typ == MESSAGE_RECORD_BATCH {
        if messages == 1 { return false; }
        if hdr.value.compressed { return false; }
      } else {
        return false;
      }
      if hdr.value.bodyLen < 0 || hdr.value.bodyLen > |body| - off { return false; }
      off := off + hdr.value.bodyLen;
    }
    return true;
  }

  lemma SchemaIsNotCompressed(meta: seq<Byte>, wide: bool)
    ensures Inspect(meta, wide).Ok? && Inspect(meta, wide).value.typ == MESSAGE_SCHEMA ==>
      !Inspect(meta, wide).value.compressed
  {
  }

  /** A stream the walk accepts splits into messages. */
  lemma {:induction false} PassesSplits(body: seq<Byte>, wide: bool, off: int, messages: nat)
        returns (msgs: seq<Message>)
    requires off >= 0 && messages <= MAX_MESSAGES && Passes(body, wide, off, messages)
    ensures messages + |msgs| <= MAX_MESSAGES && WellFramed(body, wide, off, messages, msgs)
    decreases |body| - off
  {
    hide Inspect, LengthAt;
    msgs := [];
    if off < |body| && LengthAt(body, off).value.0 != 0 {
      LengthAdvances(body, off);
      var (n, head) := LengthAt(body, off).value;
      SchemaIsNotCompressed(body[head..head + n], wide);
      var h := Inspect(body[head..head + n], wide).value;
      var m := Message(off, head, n, head + n + h.bodyLen);
      var rest := PassesSplits(body, wide, m.end, messages + 1);
      msgs := [m] + rest;
      PrependMessage(body, wide, messages, m, rest);
    }
  }

  lemma LengthAdvances(body: seq<Byte>, off: int)
    requires 0 <= off
    ensures LengthAt(body, off).Some? ==> off < LengthAt(body, off).value.1 && LengthAt(body, off).value.0 >= 0
  {
  }

  lemma PrependMessage(body: seq<Byte>, wide: bool, before: nat, m: Message, rest: seq<Message>)
    requires Sound(body, wide, m, before == 0) && WellFramed(body, wide, m.end, before + 1, rest)
    ensures WellFramed(body, wide, m.start, before, [m] + rest)
  {
    hide Inspect, LengthAt, Sound;
    var msgs := [m] + rest;
    forall i | 0 <= i < |msgs|
      ensures Sound(body, wide, msgs[i], before + i == 0)
      ensures Placed(m.start, msgs, i)
    {
      if i > 0 {
        assert msgs[i] == rest[i - 1] && Placed(m.end, rest, i - 1);
        assert i > 1 ==> msgs[i - 1] == rest[i - 2];
      }
    }
  }

  lemma FirstMessage(body: seq<Byte>, wide: bool, from: int, before: nat, msgs: seq<Message>)
    requires msgs != [] && WellFramed(body, wide, from, before, msgs)
    ensures Sound(body, wide, msgs[0], before == 0) && msgs[0].start == from
    ensures WellFramed(body, wide, msgs[0].end, before + 1, msgs[1..])
  {
    hide Inspect, LengthAt, Sound;
    var rest := msgs[1..];
    assert Sound(body, wide, msgs[0], before + 0 == 0) && Placed(from, msgs, 0);
    forall i | 0 <= i < |rest|
      ensures Sound(body, wide, rest[i], before + 1 + i == 0)
      ensures Placed(msgs[0].end, rest, i)
    {
      assert Sound(body, wide, msgs[i + 1], before + (i + 1) == 0) && Placed(from, msgs, i + 1);
    }
  }

  /** A stream that splits into messages is one the walk accepts. */
  lemma {:induction false} SplitsPass(body: seq<Byte>, wide: bool, off: int, messages: nat, msgs: seq<Message>)
    requires off >= 0 && messages + |msgs| <= MAX_MESSAGES && WellFramed(body, wide, off, messages, msgs)
    ensures Passes(body, wide, off, messages)
    decreases |msgs|
  {
    hide Inspect, LengthAt;
    if msgs != [] {
      hide WellFramed;
      FirstMessage(body, wide, off, messages, msgs);
      SplitsPass(body, wide, msgs[0].end, messages + 1, msgs[1..]);
    }
  }

  /** The walk and the layout agree, both ways. */
  lemma PassesIsWellFramed(body: seq<Byte>, wide: bool)
    ensures Passes(body, wide, 0, 0) <==> Splits(body, wide)
  {
    hide Passes, WellFramed;
    if Passes(body, wide, 0, 0) {
      var msgs := PassesSplits(body, wide, 0, 0);
    }
    if exists msgs :: |msgs| <= MAX_MESSAGES && WellFramed(body, wide, 0, 0, msgs) {
      var msgs :| |msgs| <= MAX_MESSAGES && WellFramed(body, wide, 0, 0, msgs);
      SplitsPass(body, wide, 0, 0, msgs);
    }
  }
}
