/** Bounds-checked reads of a FlatBuffers table (internal/ingest/frame.go): tables, vtables, vectors
    and the budgeted count of a schema's nodes. Every index Dafny accepts here is inside the slice. */
module FlatBuffers {
  import opened Options

  type Byte = x: int | 0 <= x < 256

  datatype Result<T> = Ok(value: T) | Malformed

  const MAX_SCHEMA_FIELDS: int := 256
  const MAX_SCHEMA_DEPTH: nat := 4

  const VT_SCHEMA_FIELDS: nat := 6
  const VT_SCHEMA_METADATA: nat := 8
  const VT_FIELD_CHILDREN: nat := 14
  const VT_FIELD_METADATA: nat := 16

  function Le16(b: seq<Byte>, off: int): (r: Option<int>)
    ensures r.Some? <==> 0 <= off <= |b| - 2
    ensures r.Some? ==> 0 <= r.value < 0x1_0000
  {
    if off < 0 || off > |b| - 2 then None
    else
      var lo: int, hi: int := b[off], b[off + 1];
      Some(lo + 0x100 * hi)
  }

  function Le32(b: seq<Byte>, off: int): (r: Option<int>)
    ensures r.Some? <==> 0 <= off <= |b| - 4
    ensures r.Some? ==> 0 <= r.value < 0x1_0000_0000
  {
    if off < 0 || off > |b| - 4 then None
    else
      var b0: int, b1: int, b2: int, b3: int := b[off], b[off + 1], b[off + 2], b[off + 3];
      Some(b0 + 0x100 * b1 + 0x1_0000 * b2 + 0x100_0000 * b3)
  }

  /** Little-endian, as a writer puts a 32-bit value. */
  function Put32(x: int): (four: seq<Byte>)
    requires 0 <= x < 0x1_0000_0000
    ensures |four| == 4
  {
    [x % 0x100, x / 0x100 % 0x100, x / 0x1_0000 % 0x100, x / 0x100_0000]
  }

  lemma Base256(x: int)
    requires 0 <= x < 0x1_0000_0000
    ensures x == x % 0x100 + 0x100 * (x / 0x100 % 0x100) + 0x1_0000 * (x / 0x1_0000 % 0x100)
              + 0x100_0000 * (x / 0x100_0000)
  {
    var y := x / 0x100;
    var z := y / 0x100;
    assert x / 0x1_0000 == z && x / 0x100_0000 == z / 0x100;
    assert x == 0x100 * y + x % 0x100 && y == 0x100 * z + y % 0x100 && z == 0x100 * (z / 0x100) + z % 0x100;
  }

  lemma BytesInPlace(before: seq<Byte>, four: seq<Byte>, after: seq<Byte>)
    requires |four| == 4
    ensures var b0: int, b1: int, b2: int, b3: int := four[0], four[1], four[2], four[3];
      Le32(before + four + after, |before|) == Some(b0 + 0x100 * b1 + 0x1_0000 * b2 + 0x100_0000 * b3)
  {
    var b := before + four + after;
    assert b[|before|] == four[0] && b[|before| + 1] == four[1];
    assert b[|before| + 2] == four[2] && b[|before| + 3] == four[3];
  }

  /** Reading gives back what was written, wherever it lies. */
  lemma Le32ReadsBack(before: seq<Byte>, x: int, after: seq<Byte>)
    requires 0 <= x < 0x1_0000_0000
    ensures Le32(before + Put32(x) + after, |before|) == Some(x)
  {
    hide Le32;
    Base256(x);
    BytesInPlace(before, Put32(x), after);
  }

  function Signed32(x: int): int { if x >= 0x8000_0000 then x - 0x1_0000_0000 else x }

  /** A table inside a byte slice. `wide` says whether Go's int has 64 bits on this machine: with 32, an
      unsigned offset of 2^31 or more converts to a negative one. */
  datatype Table = Table(b: seq<Byte>, pos: int, wide: bool) {

    function ToInt(x: int): int { if wide then x else Signed32(x) }

    /** Where the field with vtable offset vt lies; None when it is absent. */
    function Field(vt: nat): (r: Result<Option<int>>)
      ensures r.Ok? && r.value.Some? ==> 0 <= r.value.value < |b|
    {
      var so := Le32(b, pos);
      if so.None? then Malformed
      else
        var vtable := pos - Signed32(so.value);
        var size := Le16(b, vtable);
        if size.None? || size.value < 4 then Malformed
        else if vt >= size.value then Ok(None)
        else
          var rel := Le16(b, vtable + vt);
          if rel.None? then Malformed
          else if rel.value == 0 then Ok(None)
          else
            var p := pos + rel.value;
            if p < 0 || p >= |b| then Malformed else Ok(Some(p))
    }

    function SubTable(vt: nat): (r: Result<Option<Table>>)
      ensures r.Ok? && r.value.Some? ==> r.value.value.b == b && 0 <= r.value.value.pos < |b|
    {
      match Field(vt)
      case Malformed => Malformed
      case Ok(None) => Ok(None)
      case Ok(Some(p)) =>
        var rel := Le32(b, p);
        if rel.None? then Malformed
        else
          var at := p + ToInt(rel.value);
          if at < 0 || at >= |b| then Malformed else Ok(Some(Table(b, at, wide)))
    }

    /** First element and count of a vector of four-byte elements; none of them when it is absent. */
    function Vector(vt: nat): (r: Result<(int, int)>)
      ensures r.Ok? ==> 0 <= r.value.1 && (r.value.1 > 0 ==> 0 <= r.value.0 && r.value.0 + 4 * r.value.1 <= |b|)
    {
      match Field(vt)
      case Malformed => Malformed
      case Ok(None) => Ok((0, 0))
      case Ok(Some(p)) =>
        var rel := Le32(b, p);
        if rel.None? || rel.value > |b| - p then Malformed
        else
          var vec := p + rel.value;
          var count := Le32(b, vec);
          if count.None? || count.value > (|b| - vec - 4) / 4 then Malformed else Ok((vec + 4, count.value))
    }

    function Element(first: int, i: int): (r: Result<Table>)
      ensures r.Ok? ==> r.value.b == b && 0 <= r.value.pos < |b|
    {
      var at := first + 4 * i;
      var rel := Le32(b, at);
      if rel.None? || rel.value > |b| - at - 1 then Malformed else Ok(Table(b, at + rel.value, wide))
    }

    function MetadataAt(depth: nat): Result<(int, int)> {
      Vector(if depth == 0 then VT_SCHEMA_METADATA else VT_FIELD_METADATA)
    }

    function ChildrenAt(depth: nat): Result<(int, int)> {
      Vector(if depth == 0 then VT_SCHEMA_FIELDS else VT_FIELD_CHILDREN)
    }

    /** The size of the tree this table unfolds to: its metadata entries and children, each counted as
        often as it is referred to, and everything below them. None when something met on the way is
        malformed or lies deeper than MAX_SCHEMA_DEPTH. No budget is involved. */
    function Unfolding(depth: nat): Option<nat>
      decreases MAX_SCHEMA_DEPTH + 1 - depth, 0
    {
      if depth > MAX_SCHEMA_DEPTH then None
      else
        match (MetadataAt(depth), ChildrenAt(depth))
        case (Ok((_, m)), Ok((first, n))) =>
          (match Below(first, n, depth)
           case None => None
           case Some(below) => Some(m + n + below))
        case _ => None
    }

    /** The unfoldings of the first i children together. */
    function Below(first: int, i: nat, depth: nat): Option<nat>
      requires depth <= MAX_SCHEMA_DEPTH
      decreases MAX_SCHEMA_DEPTH - depth, i + 1
    {
      if i == 0 then Some(0)
      else
        match Element(first, i - 1)
        case Malformed => None
        case Ok(child) =>
          match (Below(first, i - 1, depth), child.Unfolding(depth + 1))
          case (Some(x), Some(y)) => Some(x + y)
          case _ => None
    }

    lemma {:induction false} BelowPrefix(first: int, i: nat, n: nat, depth: nat)
      requires depth <= MAX_SCHEMA_DEPTH && i <= n
      ensures Below(first, i, depth).None? ==> Below(first, n, depth).None?
      ensures Below(first, n, depth).Some? ==> Below(first, i, depth).value <= Below(first, n, depth).value
      decreases n
    {
      hide Table.Unfolding, Table.Element;
      if i < n { BelowPrefix(first, i, n - 1, depth); }
    }

    /** `countNodes`: accepts exactly when the whole unfolding is well formed, shallow enough and within
        the budget, and then has spent its size; either way the calls it makes are bounded by the
        budget, however much the buffer shares tables. */
    method CountNodes(budget: int, depth: nat) returns (ok: bool, left: int, ghost calls: nat)
      requires budget >= 0
      ensures ok <==> Unfolding(depth).Some? && Unfolding(depth).value <= budget
      ensures ok ==> left == budget - Unfolding(depth).value && calls <= 1 + budget - left
      ensures calls <= 1 + budget
      decreases if depth > MAX_SCHEMA_DEPTH then 0 else MAX_SCHEMA_DEPTH + 1 - depth
    {
      hide Table.Element, Table.Vector;
      calls := 1;
      left := budget;
      if depth > MAX_SCHEMA_DEPTH {
        return false, left, calls;
      }
      var meta := MetadataAt(depth);
      if meta.Malformed? {
        return false, left, calls;
      }
      left := left - meta.value.1;
      if left < 0 {
        return false, left, calls;
      }
      var list := ChildrenAt(depth);
      if list.Malformed? {
        return false, left, calls;
      }
      var (first, n) := list.value;
      left := left - n;
      if left < 0 {
        return false, left, calls;
      }
      ghost var start := left;
      for i := 0 to n
        invariant Below(first, i, depth).Some? && left == start - Below(first, i, depth).value >= 0
        invariant calls <= 1 + i + start - left
      {
        BelowPrefix(first, i + 1, n, depth);
        var child := Element(first, i);
        if child.Malformed? {
          return false, left, calls;
        }
        var fits;
        ghost var before, made := left, 0;
        fits, left, made := child.value.CountNodes(left, depth + 1);
        calls := calls + made;
        if !fits {
          return false, left, calls;
        }
      }
      return true, left, calls;
    }
  }
}
