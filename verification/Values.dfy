/** Column metadata, conditions and the byte-level comparison they use
    (src/common/common.h, src/system/sm_meta.h, src/index/ix_index_handle.h). */
module Values {
  import opened Bytes
  import opened Wrappers

  datatype ColType = TypeInt | TypeFloat | TypeString

  datatype CompOp = OpEq | OpNe | OpLt | OpGt | OpLe | OpGe

  datatype TabCol = TabCol(tab: string, col: string)

  datatype ColMeta = ColMeta(tab: string, name: string, colType: ColType, len: nat, offset: nat, index: bool)

  /** A literal: four bytes for a number, the characters for a string. */
  datatype Value = Value(colType: ColType, bytes: seq<bv8>)

  datatype Condition = Condition(lhs: TabCol, op: CompOp, rhsIsVal: bool, rhs: TabCol, val: Value)

  /** Value::init_raw: none where the original asserts or throws StringOverflowError. */
  function Raw(v: Value, len: nat): (r: Option<seq<bv8>>)
    ensures r.Some? ==> |r.value| == len
  {
    if v.colType == TypeString then
      if len < |v.bytes| then None else Some(v.bytes + seq(len - |v.bytes|, _ => 0))
    else if len == 4 && |v.bytes| == 4 then Some(v.bytes) else None
  }

  /** memcpy of `raw` into a buffer. */
  function Patch(b: seq<bv8>, offset: nat, raw: seq<bv8>): (r: seq<bv8>)
    requires offset + |raw| <= |b|
    ensures |r| == |b|
    ensures r[offset..][..|raw|] == raw
    ensures forall i :: 0 <= i < |b| && !(offset <= i < offset + |raw|) ==> r[i] == b[i]
  {
    b[..offset] + raw + b[offset + |raw|..]
  }

  // Comparison.

  function Sign(x: int): int {
    if x < 0 then -1 else if x > 0 then 1 else 0
  }

  function Word(b: seq<bv8>): int
    requires |b| >= 4
  {
    b[0] as int + 0x100 * b[1] as int + 0x1_0000 * b[2] as int + 0x100_0000 * b[3] as int
  }

  function Int32(b: seq<bv8>): int
    requires |b| >= 4
  {
    if Word(b) >= 0x8000_0000 then Word(b) - 0x1_0000_0000 else Word(b)
  }

  predicate IsNaN(b: seq<bv8>)
    requires |b| >= 4
  {
    Word(b) % 0x8000_0000 > 0x7F80_0000
  }

  /** The order of IEEE 754 single-precision numbers as an integer: sign and magnitude. */
  function FloatKey(b: seq<bv8>): int
    requires |b| >= 4
  {
    if Word(b) >= 0x8000_0000 then -(Word(b) - 0x8000_0000) else Word(b)
  }

  /** memcmp, up to the size of its result. */
  function MemCmp(a: seq<bv8>, b: seq<bv8>, len: nat): int
    requires |a| >= len && |b| >= len
    decreases len
  {
    if len == 0 then 0
    else if a[0] != b[0] then Sign(a[0] as int - b[0] as int)
    else MemCmp(a[1..], b[1..], len - 1)
  }

  /** The number of bytes `ix_compare` reads from each side. */
  function Width(t: ColType, len: nat): nat {
    if t == TypeString then len else 4
  }

  /** ix_compare on one column. The operands stand for pointers: only their first bytes are read. */
  function IxCompare(a: seq<bv8>, b: seq<bv8>, t: ColType, len: nat): int
    requires |a| >= Width(t, len) && |b| >= Width(t, len)
  {
    match t
    case TypeInt => Sign(Int32(a) - Int32(b))
    case TypeFloat => if IsNaN(a) || IsNaN(b) then 0 else Sign(FloatKey(a) - FloatKey(b))
    case TypeString => MemCmp(a, b, len)
  }

  function OpHolds(op: CompOp, cmp: int): bool {
    match op
    case OpEq => cmp == 0
    case OpNe => cmp != 0
    case OpLt => cmp < 0
    case OpGt => cmp > 0
    case OpLe => cmp <= 0
    case OpGe => cmp >= 0
  }

  /** The map `swap_op` of the planner. */
  function SwapOp(op: CompOp): CompOp {
    match op
    case OpEq => OpEq
    case OpNe => OpNe
    case OpLt => OpGt
    case OpGt => OpLt
    case OpLe => OpGe
    case OpGe => OpLe
  }

  function Mirror(c: Condition): Condition {
    c.(lhs := c.rhs, rhs := c.lhs, op := SwapOp(c.op))
  }

  lemma {:induction false} MemCmpAntisymmetric(a: seq<bv8>, b: seq<bv8>, len: nat)
    requires |a| >= len && |b| >= len
    ensures MemCmp(a, b, len) == -MemCmp(b, a, len)
    decreases len
  {
    if len == 0 || a[0] != b[0] {
    } else {
      MemCmpAntisymmetric(a[1..], b[1..], len - 1);
    }
  }

  lemma SwappedComparison(a: seq<bv8>, b: seq<bv8>, t: ColType, len: nat, op: CompOp)
    requires |a| >= Width(t, len) && |b| >= Width(t, len)
    ensures OpHolds(SwapOp(op), IxCompare(b, a, t, len)) == OpHolds(op, IxCompare(a, b, t, len))
  {
    if t == TypeString {
      MemCmpAntisymmetric(a, b, len);
    }
  }

  lemma {:induction false} MemCmpPrefix(a: seq<bv8>, b: seq<bv8>, a': seq<bv8>, b': seq<bv8>, len: nat)
    requires |a| >= len && |b| >= len && |a'| >= len && |b'| >= len
    requires a[..len] == a'[..len] && b[..len] == b'[..len]
    ensures MemCmp(a, b, len) == MemCmp(a', b', len)
    decreases len
  {
    if len == 0 {
    } else {
      assert a[0] == a[..len][0] && a'[0] == a'[..len][0] && b[0] == b[..len][0] && b'[0] == b'[..len][0];
      assert a[1..][..len - 1] == a[..len][1..] && a'[1..][..len - 1] == a'[..len][1..];
      assert b[1..][..len - 1] == b[..len][1..] && b'[1..][..len - 1] == b'[..len][1..];
      MemCmpPrefix(a[1..], b[1..], a'[1..], b'[1..], len - 1);
    }
  }

  lemma WordPrefix(a: seq<bv8>, a': seq<bv8>)
    requires |a| >= 4 && |a'| >= 4 && a[..4] == a'[..4]
    ensures Word(a) == Word(a')
  {
    assert a[0] == a[..4][0] && a[1] == a[..4][1] && a[2] == a[..4][2] && a[3] == a[..4][3];
    assert a'[0] == a'[..4][0] && a'[1] == a'[..4][1] && a'[2] == a'[..4][2] && a'[3] == a'[..4][3];
  }

  /** A comparison depends only on the bytes of the two columns. */
  lemma ComparePrefix(a: seq<bv8>, b: seq<bv8>, a': seq<bv8>, b': seq<bv8>, t: ColType, len: nat)
    requires |a| >= Width(t, len) && |b| >= Width(t, len) && |a'| >= Width(t, len) && |b'| >= Width(t, len)
    requires a[..Width(t, len)] == a'[..Width(t, len)] && b[..Width(t, len)] == b'[..Width(t, len)]
    ensures IxCompare(a, b, t, len) == IxCompare(a', b', t, len)
  {
    hide MemCmp, Word;
    if t == TypeString {
      MemCmpPrefix(a, b, a', b', len);
    } else {
      WordPrefix(a, a');
      WordPrefix(b, b');
    }
  }

  // Numbers as bytes.

  predicate Int32Range(n: int) {
    -0x8000_0000 <= n < 0x8000_0000
  }

  /** The bytes of a 32-bit int, lowest first. */
  function Encode(n: int): (b: seq<bv8>)
    requires Int32Range(n)
    ensures |b| == 4
  {
    var u := if n < 0 then n + 0x1_0000_0000 else n;
    [(u % 0x100) as bv8, (u / 0x100 % 0x100) as bv8, (u / 0x1_0000 % 0x100) as bv8, (u / 0x100_0000) as bv8]
  }

  lemma BytesRead(b: seq<bv8>, u: nat)
    requires u < 0x1_0000_0000 && |b| == 4
    requires b == [(u % 0x100) as bv8, (u / 0x100 % 0x100) as bv8, (u / 0x1_0000 % 0x100) as bv8,
             (u / 0x100_0000) as bv8]
    ensures b[0] as int + 0x100 * b[1] as int + 0x1_0000 * b[2] as int + 0x100_0000 * b[3] as int == u
  {
    ByteReads(u % 0x100);
    ByteReads(u / 0x100 % 0x100);
    ByteReads(u / 0x1_0000 % 0x100);
    ByteReads(u / 0x100_0000);
    FourDigits(u);
  }

  /** The four bytes are the digits of the number to the base 256, lowest first, in two's complement. */
  lemma EncodeBytes(n: int)
    requires Int32Range(n)
    ensures
      var b := Encode(n);
      b[0] as int + 0x100 * b[1] as int + 0x1_0000 * b[2] as int + 0x100_0000 * b[3] as int
      == if n < 0 then n + 0x1_0000_0000 else n
  {
    BytesRead(Encode(n), if n < 0 then n + 0x1_0000_0000 else n);
    hide Encode;
  }

  /** The one 32-bit number whose digits the bytes are. */
  lemma Int32Bytes(b: seq<bv8>)
    requires |b| >= 4
    ensures Int32Range(Int32(b))
    ensures
      var u := b[0] as int + 0x100 * b[1] as int + 0x1_0000 * b[2] as int + 0x100_0000 * b[3] as int;
      Int32(b) == u || Int32(b) == u - 0x1_0000_0000
  {
  }

  lemma EncodeReads(n: int)
    requires Int32Range(n)
    ensures Int32(Encode(n)) == n
  {
    hide Encode, Int32, Word;
    EncodeBytes(n);
    Int32Bytes(Encode(n));
  }

  // Columns.

  /** AbstractExecutor::get_col: the first column of that name. */
  function GetCol(cols: seq<ColMeta>, target: TabCol): (r: Option<ColMeta>)
    ensures r.Some? ==> r.value in cols && r.value.tab == target.tab && r.value.name == target.col
  {
    if cols == [] then None
    else if cols[0].tab == target.tab && cols[0].name == target.col then Some(cols[0])
    else GetCol(cols[1..], target)
  }

  /** A column's bytes are the first that a comparison reads from its offset on. */
  lemma FieldPrefix(rec: seq<bv8>, col: ColMeta)
    requires Fits(col, |rec|)
    ensures col.offset <= |rec| && |rec[col.offset..]| >= Width(col.colType, col.len)
    ensures Width(col.colType, col.len) == col.len && rec[col.offset..][..col.len] == Field(rec, col)
  {
  }

  /** The column found is the first of that table and name. */
  lemma {:induction false} GetColFirst(cols: seq<ColMeta>, target: TabCol) returns (k: nat)
    requires GetCol(cols, target).Some?
    ensures k < |cols| && GetCol(cols, target).value == cols[k]
    ensures cols[k].tab == target.tab && cols[k].name == target.col
    ensures forall j :: 0 <= j < k ==> cols[j].tab != target.tab || cols[j].name != target.col
  {
    if cols[0].tab == target.tab && cols[0].name == target.col {
      k := 0;
    } else {
      k := GetColFirst(cols[1..], target);
      k := k + 1;
      assert forall j :: 1 <= j < k ==> cols[j] == cols[1..][j - 1];
    }
  }

  /** No column is found if and only if none has that table and name. */
  lemma {:induction false} GetColNone(cols: seq<ColMeta>, target: TabCol)
    ensures GetCol(cols, target).None? <==> forall c :: c in cols ==> c.tab != target.tab || c.name != target.col
  {
    if cols == [] {
    } else {
      GetColNone(cols[1..], target);
      assert forall c :: c in cols <==> c == cols[0] || c in cols[1..];
    }
  }

  /** The bytes a column occupies lie inside a record of `n` bytes. */
  predicate Fits(col: ColMeta, n: nat) {
    col.offset + col.len <= n && (col.colType == TypeString || col.len == 4)
  }

  predicate AllFit(cols: seq<ColMeta>, n: nat) {
    forall col :: col in cols ==> Fits(col, n)
  }

  /** The bytes of a column. */
  function Field(rec: seq<bv8>, col: ColMeta): (r: seq<bv8>)
    requires col.offset + col.len <= |rec|
    ensures |r| == col.len
  {
    rec[col.offset..col.offset + col.len]
  }

  /** The condition's columns are among these; if not, get_col throws ColumnNotFoundError. */
  predicate Present(c: Condition, cols: seq<ColMeta>) {
    GetCol(cols, c.lhs).Some? && (c.rhsIsVal || GetCol(cols, c.rhs).Some?)
  }

  /** What the analyzer establishes for a condition, so far as these columns show it: types and lengths agree. */
  predicate Comparable(c: Condition, cols: seq<ColMeta>) {
    Present(c, cols) ==>
      var l := GetCol(cols, c.lhs).value;
      if c.rhsIsVal then c.val.colType == l.colType && Raw(c.val, l.len).Some?
      else GetCol(cols, c.rhs).value.colType == l.colType && GetCol(cols, c.rhs).value.len == l.len
  }

  predicate AllComparable(conds: seq<Condition>, cols: seq<ColMeta>) {
    forall c :: c in conds ==> Comparable(c, cols)
  }

  predicate Resolves(c: Condition, cols: seq<ColMeta>, n: nat) {
    AllFit(cols, n) && Present(c, cols) && Comparable(c, cols)
  }

  /** SeqScanExecutor::eval_cond on columns that are there. */
  function EvalCond(rec: seq<bv8>, c: Condition, cols: seq<ColMeta>): bool
    requires Resolves(c, cols, |rec|)
  {
    var l := GetCol(cols, c.lhs).value;
    var rhs := if c.rhsIsVal then Raw(c.val, l.len).value else rec[GetCol(cols, c.rhs).value.offset..];
    OpHolds(c.op, IxCompare(rec[l.offset..], rhs, l.colType, l.len))
  }

  /** SeqScanExecutor::eval_conds: the conditions in order, up to the first that is false. None if one of
      them throws. */
  function Judge(rec: seq<bv8>, conds: seq<Condition>, cols: seq<ColMeta>): Option<bool>
    requires AllFit(cols, |rec|) && AllComparable(conds, cols)
  {
    if conds == [] then Some(true)
    else if !Present(conds[0], cols) then None
    else if !EvalCond(rec, conds[0], cols) then Some(false)
    else Judge(rec, conds[1..], cols)
  }

  predicate CondTrue(rec: seq<bv8>, c: Condition, cols: seq<ColMeta>)
    requires AllFit(cols, |rec|) && Comparable(c, cols)
  {
    Present(c, cols) && EvalCond(rec, c, cols)
  }

  /** The condition that throws is the first missing one, and it throws if and only if all before it are true. */
  lemma {:induction false} JudgeExact(rec: seq<bv8>, conds: seq<Condition>, cols: seq<ColMeta>)
    requires AllFit(cols, |rec|) && AllComparable(conds, cols)
    ensures Judge(rec, conds, cols) == Some(true) <==> forall c :: c in conds ==> CondTrue(rec, c, cols)
    ensures Judge(rec, conds, cols) == None <==>
            exists k ::
              && 0 <= k < |conds| && !Present(conds[k], cols)
              && forall j :: 0 <= j < k ==> CondTrue(rec, conds[j], cols)
  {
    if conds == [] {
    } else {
      var rest := conds[1..];
      JudgeExact(rec, rest, cols);
      hide Present, EvalCond, Comparable, AllFit;
      assert forall c :: c in conds <==> c == conds[0] || c in rest;
      if CondTrue(rec, conds[0], cols) {
        if k :| 0 <= k < |rest| && !Present(rest[k], cols) && forall j :: 0 <= j < k ==> CondTrue(rec, rest[j], cols) {
          assert !Present(conds[k + 1], cols);
          assert forall j :: 0 <= j < k + 1 ==> CondTrue(rec, conds[j], cols);
        }
        if k :|
          && 0 <= k < |conds| && !Present(conds[k], cols)
          && forall j :: 0 <= j < k ==> CondTrue(rec, conds[j], cols)
        {
          assert k > 0 && !Present(rest[k - 1], cols);
          assert forall j :: 0 <= j < k - 1 ==> CondTrue(rec, rest[j], cols) by {
            assert forall j :: 0 <= j < k - 1 ==> rest[j] == conds[j + 1];
          }
        }
      }
    }
  }
}
