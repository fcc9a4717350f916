/** What comparisons and literals mean: ints as numbers, floats by their value, strings by their first difference
    (src/index/ix_index_handle.h, src/common/common.h, src/execution/executor_seq_scan.h). */
module Comparison {
  import opened Wrappers
  import opened Values

  predicate Compares(op: CompOp, x: int, y: int) {
    match op
    case OpEq => x == y
    case OpNe => x != y
    case OpLt => x < y
    case OpGt => x > y
    case OpLe => x <= y
    case OpGe => x >= y
  }

  /** Two ints compare as numbers. */
  lemma IntComparison(x: int, y: int, op: CompOp)
    requires Int32Range(x) && Int32Range(y)
    ensures OpHolds(op, IxCompare(Encode(x), Encode(y), TypeInt, 4)) <==> Compares(op, x, y)
  {
    EncodeReads(x);
    EncodeReads(y);
    hide Encode, Int32;
  }

  // Strings.

  /** The strings differ first at `k`. */
  predicate FirstDiffer(a: seq<bv8>, b: seq<bv8>, k: nat)
    requires |a| == |b|
  {
    k < |a| && a[k] != b[k] && forall j :: 0 <= j < k ==> a[j] == b[j]
  }

  /** The first string is the smaller: where they differ first, it has the smaller byte. */
  ghost predicate StringLess(a: seq<bv8>, b: seq<bv8>)
    requires |a| == |b|
  {
    exists k: nat :: FirstDiffer(a, b, k) && a[k] < b[k]
  }

  lemma {:induction false} MemCmpDiffer(a: seq<bv8>, b: seq<bv8>, len: nat) returns (k: nat)
    requires |a| >= len && |b| >= len
    ensures MemCmp(a, b, len) == 0 ==> a[..len] == b[..len]
    ensures MemCmp(a, b, len) != 0 ==>
              FirstDiffer(a[..len], b[..len], k) && (MemCmp(a, b, len) < 0 <==> a[k] < b[k])
    decreases len
  {
    if len == 0 || a[0] != b[0] {
      k := 0;
    } else {
      k := MemCmpDiffer(a[1..], b[1..], len - 1);
      forall j | 0 <= j < len ensures a[..len][j] == if j == 0 then a[0] else a[1..][..len - 1][j - 1] {
      }
      forall j | 0 <= j < len ensures b[..len][j] == if j == 0 then b[0] else b[1..][..len - 1][j - 1] {
      }
      k := k + 1;
    }
  }

  lemma OneFirst(a: seq<bv8>, b: seq<bv8>, j: nat, k: nat)
    requires |a| == |b| && FirstDiffer(a, b, j) && FirstDiffer(a, b, k)
    ensures j == k
  {
  }

  /** Strings compare byte by byte, unsigned; what lies behind their length is not read. */
  lemma StringComparison(a: seq<bv8>, b: seq<bv8>, len: nat)
    requires |a| >= len && |b| >= len
    ensures IxCompare(a, b, TypeString, len) < 0 <==> StringLess(a[..len], b[..len])
    ensures IxCompare(a, b, TypeString, len) > 0 <==> StringLess(b[..len], a[..len])
    ensures IxCompare(a, b, TypeString, len) == 0 <==> a[..len] == b[..len]
  {
    var k := MemCmpDiffer(a, b, len);
    hide MemCmp;
    var s, t := a[..len], b[..len];
    if MemCmp(a, b, len) != 0 {
      assert FirstDiffer(t, s, k);
      forall j: nat | FirstDiffer(s, t, j) || FirstDiffer(t, s, j) ensures j == k {
        OneFirst(s, t, j, k);
      }
      assert s[k] != t[k];
    }
  }

  // Floats.

  function Pow2(n: nat): (r: nat)
    ensures r > 0
  {
    if n == 0 then 1 else 2 * Pow2(n - 1)
  }

  const FRACTION_SIZE: nat := 0x80_0000

  /** IEEE 754 single precision without the sign: the number that exponent and fraction stand for, in units of 2 to
      the power of -149, the smallest there is. The two infinities come out larger than every number. */
  function Magnitude(u: nat): (r: int)
    ensures r >= 0
  {
    var exponent, fraction := u / FRACTION_SIZE, u % FRACTION_SIZE;
    if exponent == 0 then fraction else (FRACTION_SIZE + fraction) * Pow2(exponent - 1)
  }

  /** The number, in those units. */
  function FloatValue(b: seq<bv8>): int
    requires |b| >= 4
  {
    var u: int := b[0] as int + 0x100 * b[1] as int + 0x1_0000 * b[2] as int + 0x100_0000 * b[3] as int;
    if u < 0x8000_0000 then Magnitude(u) else -Magnitude(u - 0x8000_0000)
  }

  lemma MulLess(x: nat, y: nat, p: nat)
    requires x < y && 0 < p
    ensures x * p < y * p
  {
  }

  lemma DivideNext(u: nat)
    ensures u % FRACTION_SIZE + 1 < FRACTION_SIZE ==>
              (u + 1) / FRACTION_SIZE == u / FRACTION_SIZE && (u + 1) % FRACTION_SIZE == u % FRACTION_SIZE + 1
    ensures u % FRACTION_SIZE + 1 == FRACTION_SIZE ==>
              (u + 1) / FRACTION_SIZE == u / FRACTION_SIZE + 1 && (u + 1) % FRACTION_SIZE == 0
  {
  }

  lemma MagnitudeNext(u: nat)
    ensures Magnitude(u) < Magnitude(u + 1)
  {
    DivideNext(u);
    var exponent, fraction := u / FRACTION_SIZE, u % FRACTION_SIZE;
    if exponent > 0 {
      var p := Pow2(exponent - 1);
      if fraction + 1 < FRACTION_SIZE {
        MulLess(FRACTION_SIZE + fraction, FRACTION_SIZE + fraction + 1, p);
      } else {
        assert Pow2(exponent) == 2 * p;
        MulLess(FRACTION_SIZE + fraction, 2 * FRACTION_SIZE, p);
        assert 2 * FRACTION_SIZE * p == FRACTION_SIZE * (2 * p);
      }
    }
  }

  lemma {:induction false} MagnitudeGrows(u: nat, v: nat)
    requires u < v
    ensures Magnitude(u) < Magnitude(v)
    decreases v
  {
    MagnitudeNext(v - 1);
    if u < v - 1 {
      MagnitudeGrows(u, v - 1);
    }
  }

  lemma MagnitudeOrder(s: nat, t: nat)
    ensures Magnitude(s) < Magnitude(t) <==> s < t
    ensures Magnitude(s) == 0 <==> s == 0
  {
    assert Magnitude(0) == 0;
    hide Magnitude;
    if s < t {
      MagnitudeGrows(s, t);
    } else if t < s {
      MagnitudeGrows(t, s);
    }
    if s > 0 {
      MagnitudeGrows(0, s);
    }
  }

  /** Sign and magnitude. */
  lemma FloatParts(b: seq<bv8>) returns (negative: bool, s: int)
    requires |b| >= 4
    ensures s >= 0
    ensures FloatValue(b) == if negative then -Magnitude(s) else Magnitude(s)
    ensures FloatKey(b) == if negative then -s else s
  {
    hide Magnitude;
    negative := Word(b) >= 0x8000_0000;
    s := if negative then Word(b) - 0x8000_0000 else Word(b);
  }

  /** The integer order of sign and magnitude is the order of the numbers. */
  lemma FloatKeyOrder(a: seq<bv8>, b: seq<bv8>)
    requires |a| >= 4 && |b| >= 4
    ensures FloatKey(a) < FloatKey(b) <==> FloatValue(a) < FloatValue(b)
  {
    hide *;
    var p, s := FloatParts(a);
    var q, t := FloatParts(b);
    MagnitudeOrder(s, t);
    MagnitudeOrder(t, s);
  }

  /** Not a number: the largest exponent, and a fraction. */
  lemma NaNIs(b: seq<bv8>)
    requires |b| >= 4
    ensures
      var u := b[0] as int + 0x100 * b[1] as int + 0x1_0000 * b[2] as int + 0x100_0000 * b[3] as int;
      IsNaN(b) <==> u / FRACTION_SIZE % 0x100 == 0xFF && u % FRACTION_SIZE != 0
  {
    NaNBits(Word(b));
    hide FRACTION_SIZE;
  }

  lemma NaNBits(u: nat)
    requires u < 0x1_0000_0000
    ensures u % 0x8000_0000 > 0x7F80_0000 <==> u / FRACTION_SIZE % 0x100 == 0xFF && u % FRACTION_SIZE != 0
  {
    var exponent, fraction := u / FRACTION_SIZE, u % FRACTION_SIZE;
    assert u == exponent * FRACTION_SIZE + fraction && exponent < 0x200;
    var sign := if exponent < 0x100 then 0 else 1;
    assert u % 0x8000_0000 == u - sign * 0x8000_0000;
  }

  /** Floats that are numbers compare by their value, the two zeros alike; what is not a number compares equal to
      everything. */
  lemma FloatComparison(a: seq<bv8>, b: seq<bv8>, op: CompOp)
    requires |a| >= 4 && |b| >= 4
    ensures !IsNaN(a) && !IsNaN(b) ==>
              (OpHolds(op, IxCompare(a, b, TypeFloat, 4)) <==> Compares(op, FloatValue(a), FloatValue(b)))
    ensures IsNaN(a) || IsNaN(b) ==> IxCompare(a, b, TypeFloat, 4) == 0
  {
    FloatKeyOrder(a, b);
    FloatKeyOrder(b, a);
    hide FloatKey, FloatValue, IsNaN;
  }

  // Literals.

  /** The characters come first, zeros fill the rest. */
  predicate PaddedTo(b: seq<bv8>, chars: seq<bv8>, len: nat) {
    |chars| <= len == |b| && b[..|chars|] == chars && forall i :: |chars| <= i < len ==> b[i] == 0
  }

  /** The bytes a literal has as an operand or in a column of `len` bytes. */
  ghost predicate IsLiteral(b: seq<bv8>, v: Value, len: nat) {
    if v.colType == TypeString then PaddedTo(b, v.bytes, len) else b == v.bytes && |b| == len == 4
  }

  lemma OnlyPadding(a: seq<bv8>, b: seq<bv8>, chars: seq<bv8>, len: nat)
    requires PaddedTo(a, chars, len) && PaddedTo(b, chars, len)
    ensures a == b
  {
    forall i | 0 <= i < len ensures a[i] == b[i] {
      if i < |chars| {
        assert a[i] == a[..|chars|][i] && b[i] == b[..|chars|][i];
      }
    }
  }

  /** A number is its four bytes, in a column of four; a string is padded with zeros, and is refused if and only
      if it is longer than the column. */
  lemma LiteralBytes(v: Value, len: nat)
    ensures Raw(v, len).Some? ==> IsLiteral(Raw(v, len).value, v, len)
    ensures Raw(v, len).None? <==> if v.colType == TypeString then |v.bytes| > len else len != 4 || |v.bytes| != 4
  {
  }

  // Conditions.

  /** What a comparison of two columns' bytes means. */
  ghost predicate Means(t: ColType, op: CompOp, a: seq<bv8>, b: seq<bv8>)
    requires |a| == |b| && (t == TypeString || |a| == 4)
  {
    match t
    case TypeInt => Compares(op, Int32(a), Int32(b))
    case TypeFloat => if IsNaN(a) || IsNaN(b) then Compares(op, 0, 0) else Compares(op, FloatValue(a), FloatValue(b))
    case TypeString =>
      match op
      case OpEq => a == b
      case OpNe => a != b
      case OpLt => StringLess(a, b)
      case OpGt => StringLess(b, a)
      case OpLe => a == b || StringLess(a, b)
      case OpGe => a == b || StringLess(b, a)
  }

  lemma ComparisonMeans(a: seq<bv8>, b: seq<bv8>, t: ColType, len: nat, op: CompOp)
    requires |a| >= Width(t, len) && |b| >= Width(t, len) && (t == TypeString || len == 4)
    ensures OpHolds(op, IxCompare(a, b, t, len)) <==> Means(t, op, a[..len], b[..len])
  {
    var x, y := a[..len], b[..len];
    ComparePrefix(a, b, x, y, t, len);
    match t {
      case TypeInt =>
      case TypeFloat => FloatComparison(x, y, op);
      case TypeString => StringComparison(x, y, len);
    }
    hide MemCmp, Int32, FloatKey, FloatValue, IsNaN, StringLess;
    assert x[..len] == x && y[..len] == y;
  }

  /** The bytes are those on the right of the condition: the literal's, or the other column's. */
  ghost predicate IsRight(b: seq<bv8>, rec: seq<bv8>, c: Condition, cols: seq<ColMeta>)
    requires Resolves(c, cols, |rec|)
  {
    if c.rhsIsVal then IsLiteral(b, c.val, GetCol(cols, c.lhs).value.len)
    else b == Field(rec, GetCol(cols, c.rhs).value)
  }

  lemma RightBytes(b: seq<bv8>, rec: seq<bv8>, c: Condition, cols: seq<ColMeta>)
    requires Resolves(c, cols, |rec|) && IsRight(b, rec, c, cols)
    ensures
      var l := GetCol(cols, c.lhs).value;
      && |b| == l.len && Fits(l, |rec|)
      && (c.rhsIsVal ==> Raw(c.val, l.len) == Some(b))
      && (!c.rhsIsVal ==>
           Fits(GetCol(cols, c.rhs).value, |rec|) && rec[GetCol(cols, c.rhs).value.offset..][..l.len] == b)
  {
    var len := GetCol(cols, c.lhs).value.len;
    LiteralBytes(c.val, len);
    if c.rhsIsVal && c.val.colType == TypeString {
      OnlyPadding(Raw(c.val, len).value, b, c.val.bytes, len);
    }
    hide GetCol, Raw;
  }

  /** A condition on a record means what it says of the column's bytes and of those on the right, for every type
      and operator. */
  lemma CondMeans(rec: seq<bv8>, c: Condition, cols: seq<ColMeta>, b: seq<bv8>)
    requires Resolves(c, cols, |rec|) && IsRight(b, rec, c, cols)
    ensures
      var l := GetCol(cols, c.lhs).value;
      && Fits(l, |rec|) && |b| == l.len
      && (EvalCond(rec, c, cols) <==> Means(l.colType, c.op, Field(rec, l), b))
  {
    var l := GetCol(cols, c.lhs).value;
    RightBytes(b, rec, c, cols);
    hide GetCol, IsRight, Raw, Means;
    FieldPrefix(rec, l);
    if c.rhsIsVal {
      assert b[..l.len] == b;
      ComparisonMeans(rec[l.offset..], b, l.colType, l.len, c.op);
    } else {
      var r := GetCol(cols, c.rhs).value;
      FieldPrefix(rec, r);
      ComparisonMeans(rec[l.offset..], rec[r.offset..], l.colType, l.len, c.op);
    }
  }

  /** In particular: an int column that encodes x, against an int literal or column that encodes y. */
  lemma IntCondMeans(rec: seq<bv8>, c: Condition, cols: seq<ColMeta>, x: int, y: int)
    requires Resolves(c, cols, |rec|) && Int32Range(x) && Int32Range(y)
    requires
      var l := GetCol(cols, c.lhs).value;
      && l.colType == TypeInt && Fits(l, |rec|) && Field(rec, l) == Encode(x)
      && if c.rhsIsVal then c.val.bytes == Encode(y)
         else Fits(GetCol(cols, c.rhs).value, |rec|) && Field(rec, GetCol(cols, c.rhs).value) == Encode(y)
    ensures EvalCond(rec, c, cols) <==> Compares(c.op, x, y)
  {
    CondMeans(rec, c, cols, Encode(y));
    EncodeReads(x);
    EncodeReads(y);
    hide Encode, Int32, EvalCond;
  }
}
