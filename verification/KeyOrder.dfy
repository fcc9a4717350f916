/** The order of index keys over several columns (ix_compare in src/index/ix_index_handle.h). */
module KeyOrder {
  import opened Values

  datatype KeyCol = KeyCol(colType: ColType, len: nat)

  /** The key holds every column; numbers take four bytes. */
  predicate KeyFits(key: seq<bv8>, cols: seq<KeyCol>) {
    cols == []
    || (&& |key| >= cols[0].len && (cols[0].colType == TypeString || cols[0].len == 4)
        && KeyFits(key[cols[0].len..], cols[1..]))
  }

  /** Some float column of the key is not a number. */
  predicate HasNaN(key: seq<bv8>, cols: seq<KeyCol>)
    requires KeyFits(key, cols)
  {
    cols != []
    && ((cols[0].colType == TypeFloat && IsNaN(key)) || HasNaN(key[cols[0].len..], cols[1..]))
  }

  /** The first column that differs decides. */
  function KeyCompare(a: seq<bv8>, b: seq<bv8>, cols: seq<KeyCol>): int
    requires KeyFits(a, cols) && KeyFits(b, cols)
  {
    if cols == [] then 0
    else
      var res := IxCompare(a, b, cols[0].colType, cols[0].len);
      if res != 0 then res else KeyCompare(a[cols[0].len..], b[cols[0].len..], cols[1..])
  }

  /** ix_compare: the loop with a running offset. */
  method CompareKeys(a: seq<bv8>, b: seq<bv8>, cols: seq<KeyCol>) returns (res: int)
    requires KeyFits(a, cols) && KeyFits(b, cols)
    ensures res == KeyCompare(a, b, cols)
  {
    var offset: nat := 0;
    var i := 0;
    while i < |cols|
      invariant i <= |cols| && offset <= |a| && offset <= |b|
      invariant KeyFits(a[offset..], cols[i..]) && KeyFits(b[offset..], cols[i..])
      invariant KeyCompare(a, b, cols) == KeyCompare(a[offset..], b[offset..], cols[i..])
    {
      assert |a[offset..]| >= cols[i].len && |b[offset..]| >= cols[i].len by {
        assert cols[i..][0] == cols[i];
      }
      res := IxCompare(a[offset..], b[offset..], cols[i].colType, cols[i].len);
      if res != 0 {
        return;
      }
      assert cols[i..][1..] == cols[i + 1..];
      assert a[offset..][cols[i].len..] == a[offset + cols[i].len..];
      assert b[offset..][cols[i].len..] == b[offset + cols[i].len..];
      offset := offset + cols[i].len;
      i := i + 1;
    }
    return 0;
  }

  /** Where column `k` starts. */
  function Offset(cols: seq<KeyCol>, k: nat): nat
    requires k <= |cols|
  {
    if k == 0 then 0 else cols[0].len + Offset(cols[1..], k - 1)
  }

  /** What the comparison of column `k` gives. */
  function ColumnCompare(a: seq<bv8>, b: seq<bv8>, cols: seq<KeyCol>, k: nat): int
    requires KeyFits(a, cols) && KeyFits(b, cols) && k < |cols|
  {
    if k == 0 then IxCompare(a, b, cols[0].colType, cols[0].len)
    else ColumnCompare(a[cols[0].len..], b[cols[0].len..], cols[1..], k - 1)
  }

  lemma DropTwice(a: seq<bv8>, n: nat, k: nat)
    requires n + k <= |a|
    ensures a[n..][k..] == a[n + k..]
  {
  }

  /** It is the comparison of the bytes that stand at the column's place in the two keys. */
  lemma {:induction false} ColumnAt(a: seq<bv8>, b: seq<bv8>, cols: seq<KeyCol>, k: nat)
    requires KeyFits(a, cols) && KeyFits(b, cols) && k < |cols|
    ensures
      var at, t, len := Offset(cols, k), cols[k].colType, cols[k].len;
      && at + len <= |a| && at + len <= |b| && (t == TypeString || len == 4)
      && ColumnCompare(a, b, cols, k) == IxCompare(a[at..], b[at..], t, len)
  {
    hide IxCompare;
    if k == 0 {
      assert a[0..] == a && b[0..] == b;
    } else {
      var n, at := cols[0].len, Offset(cols[1..], k - 1);
      ColumnAt(a[n..], b[n..], cols[1..], k - 1);
      DropTwice(a, n, at);
      DropTwice(b, n, at);
    }
  }

  /** The first column that compares unequal decides; keys without one are equal. */
  lemma {:induction false} FirstColumnDecides(a: seq<bv8>, b: seq<bv8>, cols: seq<KeyCol>) returns (k: nat)
    requires KeyFits(a, cols) && KeyFits(b, cols)
    ensures k <= |cols| && forall j :: 0 <= j < k ==> ColumnCompare(a, b, cols, j) == 0
    ensures KeyCompare(a, b, cols) == if k < |cols| then ColumnCompare(a, b, cols, k) else 0
    ensures k < |cols| ==> ColumnCompare(a, b, cols, k) != 0
  {
    if cols == [] || IxCompare(a, b, cols[0].colType, cols[0].len) != 0 {
      k := 0;
    } else {
      var n := cols[0].len;
      k := FirstColumnDecides(a[n..], b[n..], cols[1..]);
      forall j | 0 <= j < k + 1 ensures ColumnCompare(a, b, cols, j) == 0 {
        assert j > 0 ==> ColumnCompare(a[n..], b[n..], cols[1..], j - 1) == 0;
      }
      k := k + 1;
    }
  }

  /** Comparing the other way round changes the sign, for all keys. */
  lemma {:induction false} KeyCompareAntisymmetric(a: seq<bv8>, b: seq<bv8>, cols: seq<KeyCol>)
    requires KeyFits(a, cols) && KeyFits(b, cols)
    ensures KeyCompare(a, b, cols) == -KeyCompare(b, a, cols)
  {
    if cols == [] {
    } else {
      if cols[0].colType == TypeString {
        MemCmpAntisymmetric(a, b, cols[0].len);
      }
      KeyCompareAntisymmetric(a[cols[0].len..], b[cols[0].len..], cols[1..]);
    }
  }

  // When the order is transitive.

  lemma {:induction false} MemCmpTransitive(a: seq<bv8>, b: seq<bv8>, c: seq<bv8>, len: nat)
    requires |a| >= len && |b| >= len && |c| >= len
    requires MemCmp(a, b, len) <= 0 && MemCmp(b, c, len) <= 0
    ensures MemCmp(a, c, len) <= 0
    ensures MemCmp(a, c, len) == 0 ==> MemCmp(a, b, len) == 0 && MemCmp(b, c, len) == 0
    decreases len
  {
    if len == 0 {
    } else {
      if a[0] == b[0] && b[0] == c[0] {
        MemCmpTransitive(a[1..], b[1..], c[1..], len - 1);
      }
    }
  }

  /** Among keys without NaN the order is transitive, with equality only between keys that are both equal to
      the one between them. */
  lemma {:induction false} KeyCompareTransitive(a: seq<bv8>, b: seq<bv8>, c: seq<bv8>, cols: seq<KeyCol>)
    requires KeyFits(a, cols) && KeyFits(b, cols) && KeyFits(c, cols)
    requires !HasNaN(a, cols) && !HasNaN(b, cols) && !HasNaN(c, cols)
    requires KeyCompare(a, b, cols) <= 0 && KeyCompare(b, c, cols) <= 0
    ensures KeyCompare(a, c, cols) <= 0
    ensures KeyCompare(a, c, cols) == 0 ==> KeyCompare(a, b, cols) == 0 && KeyCompare(b, c, cols) == 0
  {
    if cols == [] {
    } else {
      if cols[0].colType == TypeString {
        MemCmpTransitive(a, b, c, cols[0].len);
      }
      var t, len := cols[0].colType, cols[0].len;
      if IxCompare(a, b, t, len) == 0 && IxCompare(b, c, t, len) == 0 {
        KeyCompareTransitive(a[len..], b[len..], c[len..], cols[1..]);
      }
    }
  }

  /** No two ordered keys go wrong around `b`. */
  ghost predicate TransitiveThrough(b: seq<bv8>, cols: seq<KeyCol>)
    requires KeyFits(b, cols)
  {
    forall a, c ::
      KeyFits(a, cols) && KeyFits(c, cols) && !HasNaN(a, cols) && !HasNaN(c, cols)
      && KeyCompare(a, b, cols) <= 0 && KeyCompare(b, c, cols) <= 0
      ==> KeyCompare(a, c, cols) <= 0
  }

  const ZERO: seq<bv8> := [0, 0, 0, 0]
  const ONE: seq<bv8> := [0, 0, 0x80, 0x3F]
  const NAN: seq<bv8> := [0, 0, 0xC0, 0x7F]

  /** The key with its first NaN replaced by `first` and the later ones by zero. */
  function Filled(b: seq<bv8>, cols: seq<KeyCol>, first: seq<bv8>): (r: seq<bv8>)
    requires KeyFits(b, cols)
  {
    if cols == [] then b
    else if cols[0].colType == TypeFloat && IsNaN(b) then first + Filled(b[4..], cols[1..], ZERO)
    else b[..cols[0].len] + Filled(b[cols[0].len..], cols[1..], first)
  }

  lemma FloatBytes()
    ensures !IsNaN(ZERO) && !IsNaN(ONE) && IsNaN(NAN) && FloatKey(ZERO) == 0 && FloatKey(ONE) == 0x3F80_0000
  {
    assert Word(ZERO) == 0 && Word(ONE) == 0x3F80_0000 && Word(NAN) == 0x7FC0_0000;
  }

  /** Only the first column's bytes matter to the first comparison. */
  lemma FirstColumn(a: seq<bv8>, x: seq<bv8>, rest: seq<bv8>, t: ColType, len: nat)
    requires |x| == len && (t == TypeString || len == 4) && a == x + rest
    ensures a[..len] == x && a[len..] == rest
    ensures t != TypeString ==> Word(a) == Word(x) && IsNaN(a) == IsNaN(x)
  {
    if t != TypeString {
      assert a[..4] == x[..4];
      WordPrefix(a, x);
    }
  }

  lemma {:induction false} MemCmpSame(a: seq<bv8>, b: seq<bv8>, len: nat)
    requires |a| >= len && |b| >= len && a[..len] == b[..len]
    ensures MemCmp(a, b, len) == 0
    decreases len
  {
    if len == 0 {
    } else {
      assert a[0] == a[..len][0] && b[0] == b[..len][0];
      assert a[1..][..len - 1] == a[..len][1..] && b[1..][..len - 1] == b[..len][1..];
      MemCmpSame(a[1..], b[1..], len - 1);
    }
  }

  lemma SameColumnEqual(a: seq<bv8>, b: seq<bv8>, t: ColType, len: nat)
    requires |a| >= Width(t, len) && |b| >= Width(t, len) && a[..Width(t, len)] == b[..Width(t, len)]
    ensures IxCompare(a, b, t, len) == 0
  {
    if t == TypeString {
      MemCmpSame(a, b, len);
    } else {
      WordPrefix(a, b);
    }
  }

  /** Filling NaNs gives a key without any, which compares equal to the original in both directions. */
  lemma {:induction false} FilledEqual(b: seq<bv8>, cols: seq<KeyCol>, first: seq<bv8>)
    requires KeyFits(b, cols) && |first| == 4 && !IsNaN(first)
    ensures KeyFits(Filled(b, cols, first), cols) && !HasNaN(Filled(b, cols, first), cols)
    ensures KeyCompare(Filled(b, cols, first), b, cols) == 0 && KeyCompare(b, Filled(b, cols, first), cols) == 0
    decreases |cols|
  {
    if cols == [] {
    } else {
      FloatBytes();
      var t, len := cols[0].colType, cols[0].len;
      var nan := t == TypeFloat && IsNaN(b);
      var x := if nan then first else b[..len];
      var rest := Filled(b[len..], cols[1..], if nan then ZERO else first);
      var a := Filled(b, cols, first);
      assert a == x + rest;
      FirstColumn(a, x, rest, t, len);
      FilledEqual(b[len..], cols[1..], if nan then ZERO else first);
      if !nan {
        SameColumnEqual(a, b, t, len);
        SameColumnEqual(b, a, t, len);
        if t == TypeFloat {
          WordPrefix(a, b);
        }
      }
    }
  }

  /** If there is a NaN to fill, a larger filling makes a larger key. */
  lemma {:induction false} FilledOrdered(b: seq<bv8>, cols: seq<KeyCol>)
    requires KeyFits(b, cols) && HasNaN(b, cols)
    requires KeyFits(Filled(b, cols, ONE), cols) && KeyFits(Filled(b, cols, ZERO), cols)
    ensures KeyCompare(Filled(b, cols, ONE), Filled(b, cols, ZERO), cols) > 0
    decreases |cols|
  {
    FloatBytes();
    var t, len := cols[0].colType, cols[0].len;
    var one, zero := Filled(b, cols, ONE), Filled(b, cols, ZERO);
    if t == TypeFloat && IsNaN(b) {
      var rest := Filled(b[4..], cols[1..], ZERO);
      FirstColumn(one, ONE, rest, t, 4);
      FirstColumn(zero, ZERO, rest, t, 4);
    } else {
      var restOne, restZero := Filled(b[len..], cols[1..], ONE), Filled(b[len..], cols[1..], ZERO);
      FirstColumn(one, b[..len], restOne, t, len);
      FirstColumn(zero, b[..len], restZero, t, len);
      SameColumnEqual(one, zero, t, len);
      FilledOrdered(b[len..], cols[1..]);
    }
  }

  /** The order is transitive through a key if and only if the key holds no NaN: a NaN compares equal to a
      larger and to a smaller number. */
  lemma TransitiveThroughIff(b: seq<bv8>, cols: seq<KeyCol>)
    requires KeyFits(b, cols)
    ensures TransitiveThrough(b, cols) <==> !HasNaN(b, cols)
  {
    if HasNaN(b, cols) {
      FloatBytes();
      FilledEqual(b, cols, ONE);
      FilledEqual(b, cols, ZERO);
      FilledOrdered(b, cols);
    } else {
      forall a, c | KeyFits(a, cols) && KeyFits(c, cols) && !HasNaN(a, cols) && !HasNaN(c, cols)
          && KeyCompare(a, b, cols) <= 0 && KeyCompare(b, c, cols) <= 0
        ensures KeyCompare(a, c, cols) <= 0
      {
        KeyCompareTransitive(a, b, c, cols);
      }
    }
  }

  ghost predicate NoFloats(cols: seq<KeyCol>) {
    forall i :: 0 <= i < |cols| ==> cols[i].colType != TypeFloat
  }

  /** Columns as the catalog declares them. */
  predicate ColsOk(cols: seq<KeyCol>) {
    forall col :: col in cols ==> col.colType == TypeString || col.len == 4
  }

  lemma {:induction false} NoFloatsNoNaN(key: seq<bv8>, cols: seq<KeyCol>)
    requires KeyFits(key, cols) && NoFloats(cols)
    ensures !HasNaN(key, cols)
  {
    if cols == [] {
    } else {
      NoFloatsNoNaN(key[cols[0].len..], cols[1..]);
    }
  }

  /** A key with a NaN in every float column. */
  function NaNKey(cols: seq<KeyCol>): seq<bv8> {
    if cols == [] then []
    else (if cols[0].colType == TypeFloat then NAN else seq(cols[0].len, _ => 0)) + NaNKey(cols[1..])
  }

  lemma {:induction false} NaNKeyHasNaN(cols: seq<KeyCol>)
    requires ColsOk(cols)
    ensures KeyFits(NaNKey(cols), cols)
    ensures !NoFloats(cols) ==> HasNaN(NaNKey(cols), cols)
  {
    if cols == [] {
    } else {
      FloatBytes();
      var t, len, rest := cols[0].colType, cols[0].len, NaNKey(cols[1..]);
      var x: seq<bv8> := if t == TypeFloat then NAN else seq(len, _ => 0);
      FirstColumn(NaNKey(cols), x, rest, t, len);
      NaNKeyHasNaN(cols[1..]);
    }
  }

  /** The order is transitive over all keys of these columns. */
  ghost predicate Transitive(cols: seq<KeyCol>) {
    forall a, b, c ::
      KeyFits(a, cols) && KeyFits(b, cols) && KeyFits(c, cols)
      && KeyCompare(a, b, cols) <= 0 && KeyCompare(b, c, cols) <= 0
      ==> KeyCompare(a, c, cols) <= 0
  }

  /** The order is transitive over all keys of given columns if and only if none of the columns is a float. */
  lemma TransitiveIffNoFloats(cols: seq<KeyCol>)
    requires ColsOk(cols)
    ensures Transitive(cols) <==> NoFloats(cols)
  {
    if NoFloats(cols) {
      forall a, b, c | KeyFits(a, cols) && KeyFits(b, cols) && KeyFits(c, cols)
          && KeyCompare(a, b, cols) <= 0 && KeyCompare(b, c, cols) <= 0
        ensures KeyCompare(a, c, cols) <= 0
      {
        NoFloatsNoNaN(a, cols);
        NoFloatsNoNaN(b, cols);
        NoFloatsNoNaN(c, cols);
        KeyCompareTransitive(a, b, c, cols);
      }
    } else {
      NaNKeyHasNaN(cols);
      TransitiveThroughIff(NaNKey(cols), cols);
    }
  }
}
