/** DELETE and UPDATE: the rids are collected first, then the records are changed
    (src/portal.h, src/execution/executor_delete.h, src/execution/executor_update.h). */
module Dml {
  import opened Wrappers
  import opened Values
  import opened Comparison
  import opened HeapFile
  import opened Scan

  datatype SetClause = SetClause(col: string, rhs: Value)

  datatype SetError = ColumnNotFound(col: string) | IncompatibleType(col: string) | BadValue(col: string)

  /** TabMeta::get_col: the first column of that name. */
  function ColNamed(cols: seq<ColMeta>, name: string): (r: Option<ColMeta>)
    ensures r.Some? ==> r.value in cols && r.value.name == name
    ensures r.None? ==> forall col :: col in cols ==> col.name != name
  {
    if cols == [] then None
    else if cols[0].name == name then Some(cols[0])
    else ColNamed(cols[1..], name)
  }

  /** What applying a set clause throws, if anything. */
  function Fault(clause: SetClause, cols: seq<ColMeta>): Option<SetError> {
    match ColNamed(cols, clause.col)
    case None => Some(ColumnNotFound(clause.col))
    case Some(col) =>
      if col.colType != clause.rhs.colType then Some(IncompatibleType(clause.col))
      else if Raw(clause.rhs, col.len).None? then Some(BadValue(clause.col))
      else None
  }

  predicate ClauseOk(clause: SetClause, cols: seq<ColMeta>, n: nat) {
    AllFit(cols, n) && Fault(clause, cols) == None
  }

  predicate ClausesOk(clauses: seq<SetClause>, cols: seq<ColMeta>, n: nat) {
    forall i :: 0 <= i < |clauses| ==> ClauseOk(clauses[i], cols, n)
  }

  function Target(clause: SetClause, cols: seq<ColMeta>): ColMeta
    requires Fault(clause, cols) == None
  {
    ColNamed(cols, clause.col).value
  }

  function SetOne(rec: Record, clause: SetClause, cols: seq<ColMeta>): (r: Record)
    requires ClauseOk(clause, cols, |rec|)
    ensures |r| == |rec|
  {
    Patch(rec, Target(clause, cols).offset, Raw(clause.rhs, Target(clause, cols).len).value)
  }

  /** The set clauses applied in order. */
  function SetAll(rec: Record, clauses: seq<SetClause>, cols: seq<ColMeta>): (r: Record)
    requires ClausesOk(clauses, cols, |rec|)
    ensures |r| == |rec|
    decreases |clauses|
  {
    if clauses == [] then rec
    else SetOne(SetAll(rec, clauses[..|clauses| - 1], cols), clauses[|clauses| - 1], cols)
  }

  lemma SetNothing(rec: Record, clauses: seq<SetClause>, cols: seq<ColMeta>)
    ensures ClausesOk(clauses[..0], cols, |rec|) && SetAll(rec, clauses[..0], cols) == rec
  {
  }

  lemma SetNext(rec: Record, clauses: seq<SetClause>, cols: seq<ColMeta>, i: nat)
    requires i < |clauses| && ClausesOk(clauses[..i], cols, |rec|) && ClauseOk(clauses[i], cols, |rec|)
    ensures ClausesOk(clauses[..i + 1], cols, |rec|)
    ensures SetAll(rec, clauses[..i + 1], cols) == SetOne(SetAll(rec, clauses[..i], cols), clauses[i], cols)
  {
    assert clauses[..i + 1][..i] == clauses[..i];
    assert forall j :: 0 <= j <= i ==> clauses[..i + 1][j] == if j < i then clauses[..i][j] else clauses[i];
  }

  predicate Disjoint(a: ColMeta, b: ColMeta) {
    a.offset + a.len <= b.offset || b.offset + b.len <= a.offset
  }

  lemma SetOneReads(rec: Record, clause: SetClause, cols: seq<ColMeta>, col: ColMeta)
    requires ClauseOk(clause, cols, |rec|) && col.offset + col.len <= |rec|
    ensures Field(SetOne(rec, clause, cols), Target(clause, cols)) == Raw(clause.rhs, Target(clause, cols).len).value
    ensures Disjoint(col, Target(clause, cols)) ==> Field(SetOne(rec, clause, cols), col) == Field(rec, col)
  {
  }

  lemma TargetFits(clause: SetClause, cols: seq<ColMeta>, n: nat)
    requires ClauseOk(clause, cols, n)
    ensures Target(clause, cols).offset + Target(clause, cols).len <= n
  {
  }

  /** After an UPDATE a column holds the value of the last clause that sets it. */
  lemma {:induction false} LastSetWins(rec: Record, clauses: seq<SetClause>, cols: seq<ColMeta>, k: nat)
    requires ClausesOk(clauses, cols, |rec|) && k < |clauses|
    requires forall j :: k < j < |clauses| ==> Disjoint(Target(clauses[k], cols), Target(clauses[j], cols))
    ensures Field(SetAll(rec, clauses, cols), Target(clauses[k], cols))
            == Raw(clauses[k].rhs, Target(clauses[k], cols).len).value
    decreases |clauses|
  {
    var n := |clauses| - 1;
    SetAllLast(rec, clauses, cols);
    TargetFits(clauses[k], cols, |rec|);
    hide *;
    SetOneReads(SetAll(rec, clauses[..n], cols), clauses[n], cols, Target(clauses[k], cols));
    if k < n {
      FirstClauses(clauses, cols, k, n);
      LastSetWins(rec, clauses[..n], cols, k);
    }
  }

  /** A column set to an int shows that int, a column set to a float its bytes, and a column set to a string its
      characters followed by zeros. */
  lemma SetColumnShows(rec: Record, clauses: seq<SetClause>, cols: seq<ColMeta>, k: nat)
    requires ClausesOk(clauses, cols, |rec|) && k < |clauses|
    requires forall j :: k < j < |clauses| ==> Disjoint(Target(clauses[k], cols), Target(clauses[j], cols))
    ensures Fault(clauses[k], cols) == None
    ensures
      var col, v := Target(clauses[k], cols), clauses[k].rhs;
      && col.offset + col.len <= |rec| && col in cols && col.name == clauses[k].col && col.colType == v.colType
      && var b := Field(SetAll(rec, clauses, cols), col);
        && IsLiteral(b, v, col.len)
        && forall n :: Int32Range(n) && v.colType == TypeInt && v.bytes == Encode(n) ==> Int32(b) == n
  {
    assert ClauseOk(clauses[k], cols, |rec|);
    LastSetWins(rec, clauses, cols, k);
    TargetFits(clauses[k], cols, |rec|);
    var col, v := Target(clauses[k], cols), clauses[k].rhs;
    LiteralBytes(v, col.len);
    hide Raw, SetAll, Field, Encode, Int32, ClausesOk;
    forall n | Int32Range(n) && v.colType == TypeInt && v.bytes == Encode(n) ensures Int32(v.bytes) == n {
      EncodeReads(n);
    }
  }

  /** A clause is faulty if and only if there is no column of its name, or the first one is of another type than the
      literal, or the literal does not fit it: a string longer than the column, a number in a column that does
      not have four bytes. */
  lemma FaultExact(clause: SetClause, cols: seq<ColMeta>)
    ensures Fault(clause, cols) == None <==>
      exists k ::
        && 0 <= k < |cols| && cols[k].name == clause.col && (forall j :: 0 <= j < k ==> cols[j].name != clause.col)
        && cols[k].colType == clause.rhs.colType
        && if clause.rhs.colType == TypeString then |clause.rhs.bytes| <= cols[k].len
           else cols[k].len == 4 == |clause.rhs.bytes|
  {
    hide Raw;
    if ColNamed(cols, clause.col).Some? {
      var k := FirstNamed(cols, clause.col);
      LiteralBytes(clause.rhs, cols[k].len);
    }
  }

  lemma {:induction false} FirstNamed(cols: seq<ColMeta>, name: string) returns (k: nat)
    requires ColNamed(cols, name).Some?
    ensures k < |cols| && ColNamed(cols, name).value == cols[k] && cols[k].name == name
    ensures forall j :: 0 <= j < k ==> cols[j].name != name
  {
    if cols[0].name == name {
      k := 0;
    } else {
      k := FirstNamed(cols[1..], name);
      k := k + 1;
      assert forall j :: 1 <= j < k ==> cols[j] == cols[1..][j - 1];
    }
  }

  lemma FirstClauses(clauses: seq<SetClause>, cols: seq<ColMeta>, k: nat, n: nat)
    requires k < n <= |clauses| && forall i :: 0 <= i < |clauses| ==> Fault(clauses[i], cols) == None
    requires forall j :: k < j < |clauses| ==> Disjoint(Target(clauses[k], cols), Target(clauses[j], cols))
    ensures
      var first := clauses[..n];
      && |first| == n && first[k] == clauses[k]
      && (forall i :: 0 <= i < n ==> Fault(first[i], cols) == None)
      && forall j :: k < j < n ==> Disjoint(Target(first[k], cols), Target(first[j], cols))
  {
    hide *;
  }

  lemma SetAllLast(rec: Record, clauses: seq<SetClause>, cols: seq<ColMeta>)
    requires clauses != [] && ClausesOk(clauses, cols, |rec|)
    ensures
      var n := |clauses| - 1;
      && ClausesOk(clauses[..n], cols, |rec|) && ClauseOk(clauses[n], cols, |rec|)
      && (forall i :: 0 <= i < |clauses| ==> Fault(clauses[i], cols) == None)
      && SetAll(rec, clauses, cols) == SetOne(SetAll(rec, clauses[..n], cols), clauses[n], cols)
  {
  }

  /** The columns no clause sets keep their bytes. */
  lemma {:induction false} UnsetColumnsStay(rec: Record, clauses: seq<SetClause>, cols: seq<ColMeta>, col: ColMeta)
    requires ClausesOk(clauses, cols, |rec|) && col.offset + col.len <= |rec|
    requires forall j :: 0 <= j < |clauses| ==> Disjoint(col, Target(clauses[j], cols))
    ensures Field(SetAll(rec, clauses, cols), col) == Field(rec, col)
    decreases |clauses|
  {
    if clauses == [] {
    } else {
      var n := |clauses| - 1;
      UnsetColumnsStay(rec, clauses[..n], cols, col);
      SetOneReads(SetAll(rec, clauses[..n], cols), clauses[n], cols, col);
    }
  }

  // What the executors do to the table.

  ghost function Minus(m: map<Rid, Record>, rids: seq<Rid>): (r: map<Rid, Record>)
    ensures r == m - (set i | 0 <= i < |rids| :: rids[i])
  {
    if rids == [] then m else Minus(m, rids[..|rids| - 1]) - {rids[|rids| - 1]}
  }

  /** Replace the records under `rids`, in order, by what the set clauses make of them. */
  ghost function Replaced(m: map<Rid, Record>, rids: seq<Rid>, clauses: seq<SetClause>, cols: seq<ColMeta>, n: nat)
    : (r: map<Rid, Record>)
    requires ClausesOk(clauses, cols, n)
    requires forall rid :: rid in m ==> |m[rid]| == n
    ensures r.Keys == m.Keys && forall rid :: rid in r ==> |r[rid]| == n
  {
    if rids == [] then m
    else
      var before := Replaced(m, rids[..|rids| - 1], clauses, cols, n);
      var rid := rids[|rids| - 1];
      if rid in before then before[rid := SetAll(before[rid], clauses, cols)] else before
  }

  lemma ReplaceNext(m: map<Rid, Record>, rids: seq<Rid>, clauses: seq<SetClause>, cols: seq<ColMeta>, n: nat, i: nat)
    requires ClausesOk(clauses, cols, n) && i < |rids| && rids[i] in m
    requires forall rid :: rid in m ==> |m[rid]| == n
    ensures
      var before := Replaced(m, rids[..i], clauses, cols, n);
      rids[i] in before && |before[rids[i]]| == n &&
      Replaced(m, rids[..i + 1], clauses, cols, n) == before[rids[i] := SetAll(before[rids[i]], clauses, cols)]
  {
    assert rids[..i + 1][..i] == rids[..i];
  }

  lemma LastRid(rids: seq<Rid>)
    requires rids != [] && Ascending(rids)
    ensures
      var k := |rids| - 1;
      Ascending(rids[..k]) && rids[k] !in rids[..k] && forall rid :: rid in rids <==> rid in rids[..k] || rid == rids[k]
  {
    assert rids == rids[..|rids| - 1] + [rids[|rids| - 1]];
  }

  lemma {:induction false} ReplacedOnce(m: map<Rid, Record>, rids: seq<Rid>, clauses: seq<SetClause>,
                                        cols: seq<ColMeta>, n: nat)
    requires ClausesOk(clauses, cols, n)
    requires forall rid :: rid in m ==> |m[rid]| == n
    requires Ascending(rids)
    ensures Replaced(m, rids, clauses, cols, n)
            == map rid | rid in m :: if rid in rids then SetAll(m[rid], clauses, cols) else m[rid]
  {
    if rids == [] {
    } else {
      var k := |rids| - 1;
      LastRid(rids);
      hide SetAll, ClausesOk, Ascending;
      ReplacedOnce(m, rids[..k], clauses, cols, n);
    }
  }

  class DeleteExecutor {
    const file: RmFileHandle
    const rids: seq<Rid>

    constructor (file: RmFileHandle, rids: seq<Rid>)
      ensures this.file == file && this.rids == rids
    {
      this.file, this.rids := file, rids;
    }

    /** Delete the listed records, up to the first that names a page the file does not have, which throws. */
    method Next() returns (r: Result<(), Error>)
      requires file.Valid() && forall i :: 0 <= i < |rids| ==> ValidSlot(file.capacity, rids[i])
      modifies file
      ensures file.Valid() && file.numPages == old(file.numPages)
      ensures r.Ok? <==> OnPages(rids, file.numPages)
      ensures r.Ok? ==> Contents(file.Abs()) == Minus(old(Contents(file.Abs())), rids)
      ensures r.Err? ==>
        exists k ::
          && 0 <= k < |rids| && rids[k].pageNo >= file.numPages && OnPages(rids[..k], file.numPages)
          && Contents(file.Abs()) == Minus(old(Contents(file.Abs())), rids[..k])
    {
      hide PagesOk, ChainOk, Contents;
      for i := 0 to |rids|
        invariant file.Valid() && file.numPages == old(file.numPages) && OnPages(rids[..i], file.numPages)
        invariant Contents(file.Abs()) == Minus(old(Contents(file.Abs())), rids[..i])
      {
        DeleteRefines(file.Abs(), rids[i]);
        r := file.DeleteRecord(rids[i]);
        if r.Err? {
          return;
        }
        assert rids[..i + 1][..i] == rids[..i];
      }
      assert rids[..|rids|] == rids;
      r := Ok(());
    }
  }

  /** The file has the pages that the rids name. */
  predicate OnPages(rids: seq<Rid>, numPages: int) {
    forall i :: 0 <= i < |rids| ==> rids[i].pageNo < numPages
  }

  class UpdateExecutor {
    const file: RmFileHandle
    const cols: seq<ColMeta>
    const clauses: seq<SetClause>
    const rids: seq<Rid>

    constructor (file: RmFileHandle, cols: seq<ColMeta>, clauses: seq<SetClause>, rids: seq<Rid>)
      ensures this.file == file && this.cols == cols && this.clauses == clauses && this.rids == rids
    {
      this.file, this.cols, this.clauses, this.rids := file, cols, clauses, rids;
    }

    /** The inner loop over the set clauses: the first faulty one throws. */
    method Change(rec: Record) returns (r: Result<Record, SetError>)
      requires AllFit(cols, |rec|)
      ensures r.Ok? <==> ClausesOk(clauses, cols, |rec|)
      ensures r.Ok? ==> r.value == SetAll(rec, clauses, cols)
      ensures r.Err? ==>
                exists i ::
                  && 0 <= i < |clauses| && ClausesOk(clauses[..i], cols, |rec|)
                  && Fault(clauses[i], cols) == Some(r.error)
    {
      var rec' := rec;
      SetNothing(rec, clauses, cols);
      hide SetAll;
      for i := 0 to |clauses|
        invariant ClausesOk(clauses[..i], cols, |rec|)
        invariant rec' == SetAll(rec, clauses[..i], cols) && |rec'| == |rec|
      {
        var col := ColNamed(cols, clauses[i].col);
        if col.None? {
          return Err(ColumnNotFound(clauses[i].col));
        }
        if col.value.colType != clauses[i].rhs.colType {
          return Err(IncompatibleType(clauses[i].col));
        }
        var raw := Raw(clauses[i].rhs, col.value.len);
        if raw.None? {
          return Err(BadValue(clauses[i].col));
        }
        rec' := rec'[..col.value.offset] + raw.value + rec'[col.value.offset + col.value.len..];
        SetNext(rec, clauses, cols, i);
      }
      assert clauses[..|clauses|] == clauses;
      return Ok(rec');
    }

    /** Read, change and write back one record, or throw before writing. */
    method ChangeRecord(rid: Rid) returns (r: Result<(), SetError>)
      requires file.Valid() && rid in Contents(file.Abs()) && AllFit(cols, file.recordSize)
      modifies file
      ensures |old(Contents(file.Abs()))[rid]| == file.recordSize
      ensures file.Valid() && (r.Ok? <==> ClausesOk(clauses, cols, file.recordSize))
      ensures r.Ok? ==>
                Contents(file.Abs())
                == old(Contents(file.Abs()))[rid := SetAll(old(Contents(file.Abs()))[rid], clauses, cols)]
      ensures r.Err? ==> file.Abs() == old(file.Abs())
    {
      hide PagesOk, ChainOk, Contents, SetAll, ClausesOk, AllFit;
      Found(file.Abs(), rid);
      var got := file.GetRecord(rid);
      var rec := Change(got.value.value);
      if rec.Err? {
        return Err(rec.error);
      }
      UpdateOutcome(file.Abs(), rid, rec.value);
      var done := file.UpdateRecord(rid, rec.value);
      return Ok(());
    }

    /** Either every listed record is changed, or the first one throws and nothing has changed. */
    method Next() returns (r: Result<(), SetError>)
      requires file.Valid() && AllFit(cols, file.recordSize)
      requires forall i :: 0 <= i < |rids| ==> rids[i] in Contents(file.Abs())
      modifies file
      ensures file.Valid()
      ensures forall rid :: rid in old(Contents(file.Abs())) ==> |old(Contents(file.Abs()))[rid]| == file.recordSize
      ensures r.Err? <==> rids != [] && !ClausesOk(clauses, cols, file.recordSize)
      ensures Contents(file.Abs()) ==
              if ClausesOk(clauses, cols, file.recordSize)
              then Replaced(old(Contents(file.Abs())), rids, clauses, cols, file.recordSize)
              else old(Contents(file.Abs()))
    {
      RecordSizes(file.Abs());
      ghost var m := Contents(file.Abs());
      ghost var ok := ClausesOk(clauses, cols, file.recordSize);
      assert ok ==> Replaced(m, rids[..0], clauses, cols, file.recordSize) == m;
      hide PagesOk, ChainOk, Contents, SetAll, Replaced, ClausesOk, AllFit;
      for i := 0 to |rids|
        invariant file.Valid() && (i > 0 ==> ok)
        invariant Contents(file.Abs()) == if ok then Replaced(m, rids[..i], clauses, cols, file.recordSize) else m
      {
        if ok {
          ReplaceNext(m, rids, clauses, cols, file.recordSize, i);
        }
        r := ChangeRecord(rids[i]);
        if r.Err? {
          return;
        }
      }
      assert rids[..|rids|] == rids;
      return Ok(());
    }
  }

  lemma RecordSizes(h: HeapFile)
    requires PagesOk(h)
    ensures forall rid :: rid in Contents(h) ==> |Contents(h)[rid]| == h.recordSize
  {
    ContentsAt(h);
  }

  lemma Found(h: HeapFile, rid: Rid)
    requires PagesOk(h) && rid in Contents(h)
    ensures ValidSlot(h.capacity, rid) && rid.pageNo < h.numPages
    ensures Get(h, rid) == Ok(Some(Contents(h)[rid])) && |Contents(h)[rid]| == h.recordSize
  {
    ContentsAt(h);
    StoredRecord(h, rid);
  }

  lemma UpdateOutcome(h: HeapFile, rid: Rid, rec: Record)
    requires Inv(h) && rid in Contents(h) && |rec| == h.recordSize
    ensures ValidSlot(h.capacity, rid) && Update(h, rid, rec).Ok?
    ensures Inv(Update(h, rid, rec).value) && Contents(Update(h, rid, rec).value) == Contents(h)[rid := rec]
  {
    Found(h, rid);
    UpdateRefines(h, rid, rec);
    assert rec[..h.recordSize] == rec;
  }

  // Whole statements.

  lemma RowsStored(h: HeapFile, conds: seq<Condition>, cols: seq<ColMeta>)
    requires Scannable(h, conds, cols)
    ensures
      var rows := Sift(h, AllRids(h), conds, cols).rids;
      forall i :: 0 <= i < |rows| ==>
        rows[i] in Contents(h) && ValidSlot(h.capacity, rows[i]) && rows[i].pageNo < h.numPages
  {
    ScanVisitsEachOnce(h);
    SiftExact(h, AllRids(h), conds, cols);
    var rows := Sift(h, AllRids(h), conds, cols).rids;
    forall i | 0 <= i < |rows|
      ensures rows[i] in Contents(h) && ValidSlot(h.capacity, rows[i]) && rows[i].pageNo < h.numPages
    {
      assert rows[i] in rows;
      Found(h, rows[i]);
    }
  }

  /** Scan first, collecting the rids. */
  method SelectRids(file: RmFileHandle, conds: seq<Condition>, cols: seq<ColMeta>) returns (ok: bool, rids: seq<Rid>)
    requires Scannable(file.Abs(), conds, cols)
    ensures ok <==> !Sift(file.Abs(), AllRids(file.Abs()), conds, cols).thrown
    ensures ok ==> rids == Sift(file.Abs(), AllRids(file.Abs()), conds, cols).rids
  {
    hide PagesOk, Contents, Sift, Verdict;
    var scan := new SeqScanExecutor(file, conds, cols);
    ok, rids := CollectRids(scan);
  }

  /** No record makes a condition throw. */
  ghost predicate Quiet(h: HeapFile, conds: seq<Condition>, cols: seq<ColMeta>)
    requires Scannable(h, conds, cols)
  {
    forall rid :: rid in Contents(h) ==> Verdict(h, rid, conds, cols) != None
  }

  ghost predicate NoneSelected(h: HeapFile, conds: seq<Condition>, cols: seq<ColMeta>)
    requires Scannable(h, conds, cols)
  {
    forall rid :: rid in Contents(h) ==> !Selected(h, rid, conds, cols)
  }

  lemma ScanQuietIff(h: HeapFile, conds: seq<Condition>, cols: seq<ColMeta>)
    requires Scannable(h, conds, cols)
    ensures
      var rows := Sift(h, AllRids(h), conds, cols);
      && (rows.thrown <==> !Quiet(h, conds, cols))
      && (!rows.thrown ==> (rows.rids == [] <==> NoneSelected(h, conds, cols)))
  {
    RowsExact(h, conds, cols);
    NonEmptyHasMember(Sift(h, AllRids(h), conds, cols).rids);
  }

  lemma DeletedRows(h: HeapFile, conds: seq<Condition>, cols: seq<ColMeta>)
    requires Scannable(h, conds, cols) && !Sift(h, AllRids(h), conds, cols).thrown
    ensures Minus(Contents(h), Sift(h, AllRids(h), conds, cols).rids)
            == map rid | rid in Contents(h) && !Selected(h, rid, conds, cols) :: Contents(h)[rid]
  {
    RowsExact(h, conds, cols);
  }

  /** DELETE leaves exactly the records that did not satisfy the conditions before it ran; if a condition
      throws, it throws before anything is deleted. */
  method DeleteStatement(file: RmFileHandle, conds: seq<Condition>, cols: seq<ColMeta>) returns (ok: bool)
    requires file.Valid() && Scannable(file.Abs(), conds, cols)
    modifies file
    ensures file.Valid()
    ensures ok <==> old(Quiet(file.Abs(), conds, cols))
    ensures !ok ==> file.Abs() == old(file.Abs())
    ensures ok ==>
              Contents(file.Abs())
              == old(map rid | rid in Contents(file.Abs()) && !Selected(file.Abs(), rid, conds, cols)
                       :: Contents(file.Abs())[rid])
  {
    ScanQuietIff(file.Abs(), conds, cols);
    hide PagesOk, ChainOk, Contents, Sift, Minus, Verdict, Selected, Quiet;
    RowsStored(file.Abs(), conds, cols);
    var rids;
    ok, rids := SelectRids(file, conds, cols);
    if !ok {
      return;
    }
    DeletedRows(file.Abs(), conds, cols);
    var exec := new DeleteExecutor(file, rids);
    var r := exec.Next();
  }

  /** Every selected record with the set clauses applied; the others as they are. */
  ghost function Updated(h: HeapFile, conds: seq<Condition>, cols: seq<ColMeta>, clauses: seq<SetClause>)
    : map<Rid, Record>
    requires Scannable(h, conds, cols) && ClausesOk(clauses, cols, h.recordSize)
  {
    RecordSizes(h);
    map rid | rid in Contents(h) ::
      if Selected(h, rid, conds, cols) then SetAll(Contents(h)[rid], clauses, cols) else Contents(h)[rid]
  }

  lemma UpdatedRows(h: HeapFile, conds: seq<Condition>, cols: seq<ColMeta>, clauses: seq<SetClause>)
    requires Scannable(h, conds, cols) && !Sift(h, AllRids(h), conds, cols).thrown
    requires ClausesOk(clauses, cols, h.recordSize)
    ensures forall rid :: rid in Contents(h) ==> |Contents(h)[rid]| == h.recordSize
    ensures Replaced(Contents(h), Sift(h, AllRids(h), conds, cols).rids, clauses, cols, h.recordSize)
            == Updated(h, conds, cols, clauses)
  {
    hide PagesOk, Contents, Sift, Verdict, SetAll, ClausesOk, Replaced, AllRids, Selected;
    RecordSizes(h);
    RowsExact(h, conds, cols);
    ReplacedOnce(Contents(h), Sift(h, AllRids(h), conds, cols).rids, clauses, cols, h.recordSize);
  }

  /** UPDATE applies the set clauses once to exactly the records that satisfied the conditions before
      it ran; the rids and all other records stay. It throws if and only if a condition throws, or some
      record is selected and a clause is faulty; then nothing has changed. */
  method UpdateStatement(file: RmFileHandle, conds: seq<Condition>, cols: seq<ColMeta>, clauses: seq<SetClause>)
    returns (ok: bool)
    requires file.Valid() && Scannable(file.Abs(), conds, cols)
    modifies file
    ensures file.Valid()
    ensures ok <==>
            && old(Quiet(file.Abs(), conds, cols))
            && (ClausesOk(clauses, cols, file.recordSize) || old(NoneSelected(file.Abs(), conds, cols)))
    ensures Contents(file.Abs()) ==
            if ok && ClausesOk(clauses, cols, file.recordSize) then old(Updated(file.Abs(), conds, cols, clauses))
            else old(Contents(file.Abs()))
  {
    ScanQuietIff(file.Abs(), conds, cols);
    RowsStored(file.Abs(), conds, cols);
    hide *;
    var rids;
    ok, rids := SelectRids(file, conds, cols);
    if !ok {
      return;
    }
    if ClausesOk(clauses, cols, file.recordSize) {
      UpdatedRows(file.Abs(), conds, cols, clauses);
    }
    var exec := new UpdateExecutor(file, cols, clauses, rids);
    var r := exec.Next();
    ok := r.Ok?;
  }
}
