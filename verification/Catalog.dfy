/** The catalog as text: the << and >> operators of the metadata structures
    (src/system/sm_meta.h, src/defs.h). */
module Catalog {
  import opened Wrappers
  import opened Values

  datatype IndexMeta = IndexMeta(tab: string, colTotLen: int, colNum: int, cols: seq<ColMeta>)

  datatype TabMeta = TabMeta(name: string, cols: seq<ColMeta>, indexes: seq<IndexMeta>)

  datatype DbMeta = DbMeta(name: string, tabs: map<string, TabMeta>)

  // Characters and streams.

  predicate IsSpace(c: char) {
    c == ' ' || c == '\n' || c == '\t' || c == '\r' || c == (11 as char) || c == (12 as char)
  }

  predicate IsDigit(c: char) {
    '0' <= c <= '9'
  }

  /** The text ends here or goes on with white space. */
  predicate Delimited(s: string) {
    s == "" || IsSpace(s[0])
  }

  /** What an extraction yields: a value and the text that is left, or none if it sets failbit. */
  type Read<T> = Option<(T, string)>

  function SkipSpace(s: string): string {
    if s != "" && IsSpace(s[0]) then SkipSpace(s[1..]) else s
  }

  function WordLength(s: string): (n: nat)
    ensures n <= |s| && (forall i :: 0 <= i < n ==> !IsSpace(s[i])) && (n < |s| ==> IsSpace(s[n]))
  {
    if s == "" || IsSpace(s[0]) then 0 else 1 + WordLength(s[1..])
  }

  /** Extraction of a string. */
  function ReadWord(s: string): (r: Read<string>)
    ensures r.Some? ==> NameOk(r.value.0)
  {
    var t := SkipSpace(s);
    var n := WordLength(t);
    if n == 0 then None else Some((t[..n], t[n..]))
  }

  function DigitsLength(s: string): (n: nat)
    ensures n <= |s| && (forall i :: 0 <= i < n ==> IsDigit(s[i])) && (n < |s| ==> !IsDigit(s[n]))
  {
    if s == "" || !IsDigit(s[0]) then 0 else 1 + DigitsLength(s[1..])
  }

  function DigitValue(c: char): (d: nat)
    requires IsDigit(c)
    ensures d < 10
  {
    c as int - '0' as int
  }

  function DigitsValue(s: string): nat
    requires forall i :: 0 <= i < |s| ==> IsDigit(s[i])
  {
    if s == "" then 0 else 10 * DigitsValue(s[..|s| - 1]) + DigitValue(s[|s| - 1])
  }

  function Signed(negative: bool, n: int): int {
    if negative then -n else n
  }

  /** As many digits as follow, with the sign already read. */
  function ReadDigits(s: string, negative: bool, lo: int, hi: int): (r: Read<int>)
    ensures r.Some? ==> lo <= r.value.0 < hi
  {
    var n := DigitsLength(s);
    var magnitude := DigitsValue(s[..n]);
    var value := Signed(negative, magnitude);
    if n == 0 || !(lo <= value < hi) then None else Some((value, s[n..]))
  }

  /** Extraction of an integer from `lo` to below `hi`: an optional sign, then digits. */
  function ReadNumber(s: string, lo: int, hi: int): (r: Read<int>)
    ensures r.Some? ==> lo <= r.value.0 < hi
  {
    var t := SkipSpace(s);
    if t != "" && (t[0] == '-' || t[0] == '+') then ReadDigits(t[1..], t[0] == '-', lo, hi)
    else ReadDigits(t, false, lo, hi)
  }

  function ReadInt(s: string): Read<int> {
    ReadNumber(s, -0x8000_0000, 0x8000_0000)
  }

  /** A length or offset; the model keeps them non-negative. */
  function ReadNat(s: string): Read<int> {
    ReadNumber(s, 0, 0x8000_0000)
  }

  /** size_t. */
  function ReadSize(s: string): Read<int> {
    ReadNumber(s, 0, 0x1_0000_0000_0000_0000)
  }

  function PrintNat(n: nat): (r: string)
    ensures r != "" && forall i :: 0 <= i < |r| ==> IsDigit(r[i])
  {
    (if n < 10 then "" else PrintNat(n / 10)) + [(n % 10 + '0' as int) as char]
  }

  function PrintInt(n: int): string {
    if n < 0 then "-" + PrintNat(-n) else PrintNat(n)
  }

  // Names and digits survive.

  predicate NameOk(w: string) {
    w != "" && forall i :: 0 <= i < |w| ==> !IsSpace(w[i])
  }

  lemma {:induction false} WordLengthIs(w: string, rest: string)
    requires (forall i :: 0 <= i < |w| ==> !IsSpace(w[i])) && Delimited(rest)
    ensures WordLength(w + rest) == |w|
  {
    if w == "" {
      assert w + rest == rest;
    } else {
      assert (w + rest)[1..] == w[1..] + rest;
      WordLengthIs(w[1..], rest);
    }
  }

  lemma WordReads(w: string, rest: string)
    requires NameOk(w) && Delimited(rest)
    ensures ReadWord(w + rest) == Some((w, rest))
  {
    WordLengthIs(w, rest);
    assert SkipSpace(w + rest) == w + rest;
  }

  lemma {:induction false} DigitsLengthIs(w: string, rest: string)
    requires (forall i :: 0 <= i < |w| ==> IsDigit(w[i])) && Delimited(rest)
    ensures DigitsLength(w + rest) == |w|
  {
    if w == "" {
      assert w + rest == rest;
    } else {
      assert (w + rest)[1..] == w[1..] + rest;
      DigitsLengthIs(w[1..], rest);
    }
  }

  lemma {:induction false} PrintNatValue(n: nat)
    ensures DigitsValue(PrintNat(n)) == n
  {
    var r := PrintNat(n);
    if n >= 10 {
      PrintNatValue(n / 10);
      assert r[..|r| - 1] == PrintNat(n / 10);
    } else {
      assert r[..|r| - 1] == "";
    }
  }

  lemma DigitsRead(n: nat, negative: bool, rest: string, lo: int, hi: int)
    requires Delimited(rest) && lo <= Signed(negative, n) < hi
    ensures ReadDigits(PrintNat(n) + rest, negative, lo, hi) == Some((Signed(negative, n), rest))
  {
    var digits := PrintNat(n);
    PrintNatValue(n);
    DigitsLengthIs(digits, rest);
    hide PrintNat, DigitsValue, DigitsLength;
    assert (digits + rest)[..|digits|] == digits && (digits + rest)[|digits|..] == rest;
  }

  lemma NumberReads(n: int, rest: string, lo: int, hi: int)
    requires lo <= n < hi && Delimited(rest)
    ensures ReadNumber(PrintInt(n) + rest, lo, hi) == Some((n, rest))
  {
    hide PrintNat, ReadDigits;
    var s, digits := PrintInt(n) + rest, PrintNat(if n < 0 then -n else n);
    DigitsRead(if n < 0 then -n else n, n < 0, rest, lo, hi);
    assert IsDigit(digits[0]);
    if n < 0 {
      assert SkipSpace(s) == s && s[0] == '-';
      assert s[1..] == digits + rest;
    } else {
      assert s == digits + rest && s[0] == digits[0];
      assert SkipSpace(s) == s;
    }
  }

  /** White space in front of a value is skipped. */
  lemma SpaceSkipped(c: char, s: string, lo: int, hi: int)
    requires IsSpace(c)
    ensures ReadWord([c] + s) == ReadWord(s) && ReadNumber([c] + s, lo, hi) == ReadNumber(s, lo, hi)
  {
    assert ([c] + s)[1..] == s;
  }

  // Printing.

  function TypeCode(t: ColType): nat {
    match t case TypeInt => 0 case TypeFloat => 1 case TypeString => 2
  }

  function PrintCol(c: ColMeta): string {
    c.tab + " " + c.name + " " + PrintInt(TypeCode(c.colType)) + " " + PrintInt(c.len) + " "
    + PrintInt(c.offset) + " " + PrintInt(if c.index then 1 else 0)
  }

  /** The loop of an index: each column after a line break. */
  function PrintIndexCols(cols: seq<ColMeta>): string {
    if cols == [] then "" else PrintIndexCols(cols[..|cols| - 1]) + ("\n" + PrintCol(cols[|cols| - 1]))
  }

  function PrintIndex(x: IndexMeta): string {
    x.tab + " " + PrintInt(x.colTotLen) + " " + PrintInt(x.colNum) + PrintIndexCols(x.cols)
  }

  /** The loops of a table: each column or index followed by a line break. */
  function PrintCols(cols: seq<ColMeta>): string {
    if cols == [] then "" else PrintCols(cols[..|cols| - 1]) + (PrintCol(cols[|cols| - 1]) + "\n")
  }

  function PrintIndexes(xs: seq<IndexMeta>): string {
    if xs == [] then "" else PrintIndexes(xs[..|xs| - 1]) + (PrintIndex(xs[|xs| - 1]) + "\n")
  }

  function PrintTab(t: TabMeta): string {
    t.name + "\n" + PrintInt(|t.cols|) + "\n" + PrintCols(t.cols) + PrintInt(|t.indexes|) + "\n" +
        PrintIndexes(t.indexes)
  }

  /** The tables in the order `keys`; `std::map` iterates in ascending order of its keys. */
  function PrintTabs(tabs: map<string, TabMeta>, keys: seq<string>): string
    requires forall i :: 0 <= i < |keys| ==> keys[i] in tabs
  {
    if keys == [] then "" else PrintTabs(tabs, keys[..|keys| - 1]) + (PrintTab(tabs[keys[|keys| - 1]]) + "\n")
  }

  predicate Enumerates(keys: seq<string>, tabs: map<string, TabMeta>) {
    && (forall i, j :: 0 <= i < j < |keys| ==> keys[i] != keys[j])
    && (forall i :: 0 <= i < |keys| ==> keys[i] in tabs)
    && (forall key :: key in tabs ==> key in keys)
  }

  function PrintDb(d: DbMeta, keys: seq<string>): string
    requires Enumerates(keys, d.tabs)
  {
    d.name + "\n" + PrintInt(|d.tabs|) + "\n" + PrintTabs(d.tabs, keys)
  }

  // Reading.

  function ReadCol(s: string): Read<ColMeta> {
    match ReadWord(s) case None => None case Some((tab, s1)) =>
    match ReadWord(s1) case None => None case Some((name, s2)) =>
    match ReadInt(s2) case None => None case Some((code, s3)) =>
    match ReadNat(s3) case None => None case Some((len, s4)) =>
    match ReadNat(s4) case None => None case Some((offset, s5)) =>
    match ReadInt(s5) case None => None case Some((flag, s6)) =>
      if 0 <= code <= 2 && 0 <= flag <= 1 then
        Some((ColMeta(tab, name, if code == 0 then TypeInt else if code == 1 then TypeFloat else TypeString,
                      len, offset, flag == 1), s6))
      else None
  }

  /** The loop that reads `n` columns. */
  function ReadCols(s: string, n: nat): Read<seq<ColMeta>> {
    if n == 0 then Some(([], s))
    else
      match ReadCols(s, n - 1) case None => None case Some((cols, s1)) =>
      match ReadCol(s1) case None => None case Some((col, s2)) => Some((cols + [col], s2))
  }

  function ReadIndex(s: string): Read<IndexMeta> {
    match ReadWord(s) case None => None case Some((tab, s1)) =>
    match ReadInt(s1) case None => None case Some((total, s2)) =>
    match ReadInt(s2) case None => None case Some((num, s3)) =>
    match ReadCols(s3, if num < 0 then 0 else num) case None => None case Some((cols, s4)) =>
      Some((IndexMeta(tab, total, num, cols), s4))
  }

  function ReadIndexes(s: string, n: nat): Read<seq<IndexMeta>> {
    if n == 0 then Some(([], s))
    else
      match ReadIndexes(s, n - 1) case None => None case Some((xs, s1)) =>
      match ReadIndex(s1) case None => None case Some((x, s2)) => Some((xs + [x], s2))
  }

  function ReadTab(s: string): Read<TabMeta> {
    match ReadWord(s) case None => None case Some((name, s1)) =>
    match ReadSize(s1) case None => None case Some((n, s2)) =>
    match ReadCols(s2, n) case None => None case Some((cols, s3)) =>
    match ReadSize(s3) case None => None case Some((k, s4)) =>
    match ReadIndexes(s4, k) case None => None case Some((indexes, s5)) => Some((TabMeta(name, cols, indexes), s5))
  }

  /** The loop that reads `n` tables into a map, keyed by the name each table carries. */
  function ReadTabs(s: string, n: nat): Read<map<string, TabMeta>> {
    if n == 0 then Some((map[], s))
    else
      match ReadTabs(s, n - 1) case None => None case Some((tabs, s1)) =>
      match ReadTab(s1) case None => None case Some((tab, s2)) => Some((tabs[tab.name := tab], s2))
  }

  function ReadDb(s: string): Read<DbMeta> {
    match ReadWord(s) case None => None case Some((name, s1)) =>
    match ReadSize(s1) case None => None case Some((n, s2)) =>
    match ReadTabs(s2, n) case None => None case Some((tabs, s3)) => Some((DbMeta(name, tabs), s3))
  }

  // What can be read back.

  predicate ColOk(c: ColMeta) {
    NameOk(c.tab) && NameOk(c.name) && c.len < 0x8000_0000 && c.offset < 0x8000_0000
  }

  predicate IntOk(n: int) {
    -0x8000_0000 <= n < 0x8000_0000
  }

  predicate SizeOk(n: int) {
    0 <= n < 0x1_0000_0000_0000_0000
  }

  /** The declared number of columns is the real one. */
  predicate IndexOk(x: IndexMeta) {
    && NameOk(x.tab) && IntOk(x.colTotLen) && IntOk(x.colNum)
    && |x.cols| == (if x.colNum < 0 then 0 else x.colNum)
    && forall i :: 0 <= i < |x.cols| ==> ColOk(x.cols[i])
  }

  predicate TabOk(t: TabMeta) {
    && NameOk(t.name) && SizeOk(|t.cols|) && SizeOk(|t.indexes|)
    && (forall i :: 0 <= i < |t.cols| ==> ColOk(t.cols[i]))
    && forall i :: 0 <= i < |t.indexes| ==> IndexOk(t.indexes[i])
  }

  /** Every table is filed under its own name. */
  predicate DbOk(d: DbMeta) {
    && NameOk(d.name) && SizeOk(|d.tabs|)
    && forall key :: key in d.tabs ==> d.tabs[key].name == key && TabOk(d.tabs[key])
  }

  // Round trips, piece by piece.

  /** Leading white space does not change what an extraction yields. */
  lemma BreakSkipped(c: char, s: string)
    requires IsSpace(c)
    ensures ReadWord([c] + s) == ReadWord(s)
    ensures ReadInt([c] + s) == ReadInt(s) && ReadNat([c] + s) == ReadNat(s) && ReadSize([c] + s) == ReadSize(s)
    ensures ReadCol([c] + s) == ReadCol(s) && ReadIndex([c] + s) == ReadIndex(s) && ReadTab([c] + s) == ReadTab(s)
  {
    SpaceSkipped(c, s, 0, 0);
    SpaceSkipped(c, s, -0x8000_0000, 0x8000_0000);
    SpaceSkipped(c, s, 0, 0x8000_0000);
    SpaceSkipped(c, s, 0, 0x1_0000_0000_0000_0000);
  }

  lemma NumberThen(n: int, rest: string, lo: int, hi: int)
    requires lo <= n < hi && Delimited(rest)
    ensures ReadNumber(" " + (PrintInt(n) + rest), lo, hi) == Some((n, rest))
    ensures ReadNumber("\n" + (PrintInt(n) + rest), lo, hi) == Some((n, rest))
  {
    NumberReads(n, rest, lo, hi);
    SpaceSkipped(' ', PrintInt(n) + rest, lo, hi);
    SpaceSkipped('\n', PrintInt(n) + rest, lo, hi);
  }

  function FlagCode(b: bool): int {
    if b then 1 else 0
  }

  lemma ColUnfolds(c: ColMeta, rest: string)
    ensures PrintCol(c) + rest ==
      c.tab + (" " + (c.name + (" " + (PrintInt(TypeCode(c.colType)) + (" " + (PrintInt(c.len)
      + (" " + (PrintInt(c.offset) + (" " + (PrintInt(FlagCode(c.index)) + rest))))))))))
  {
    hide PrintInt;
  }

  lemma ColReads(c: ColMeta, rest: string)
    requires ColOk(c) && Delimited(rest)
    ensures ReadCol(PrintCol(c) + rest) == Some((c, rest))
  {
    hide PrintInt, ReadNumber, ReadWord, PrintCol, NameOk;
    var s6 := PrintInt(FlagCode(c.index)) + rest;
    var s5 := PrintInt(c.offset) + (" " + s6);
    var s4 := PrintInt(c.len) + (" " + s5);
    var s3 := PrintInt(TypeCode(c.colType)) + (" " + s4);
    var s2 := c.name + (" " + s3);
    ColUnfolds(c, rest);
    WordReads(c.tab, " " + s2);
    WordReads(c.name, " " + s3);
    SpaceSkipped(' ', s2, 0, 0);
    NumberThen(TypeCode(c.colType), " " + s4, -0x8000_0000, 0x8000_0000);
    NumberThen(c.len, " " + s5, 0, 0x8000_0000);
    NumberThen(c.offset, " " + s6, 0, 0x8000_0000);
    NumberThen(FlagCode(c.index), rest, -0x8000_0000, 0x8000_0000);
  }

  lemma {:induction false} IndexColsRead(cols: seq<ColMeta>, rest: string)
    requires (forall i :: 0 <= i < |cols| ==> ColOk(cols[i])) && Delimited(rest)
    ensures ReadCols(PrintIndexCols(cols) + rest, |cols|) == Some((cols, rest))
  {
    hide PrintCol, ReadCol, ReadWord, ReadNumber, ColOk;
    if cols == [] {
      assert PrintIndexCols(cols) + rest == rest;
    } else {
      var n := |cols| - 1;
      var after := "\n" + (PrintCol(cols[n]) + rest);
      assert PrintIndexCols(cols) + rest == PrintIndexCols(cols[..n]) + after;
      IndexColsRead(cols[..n], after);
      BreakSkipped('\n', PrintCol(cols[n]) + rest);
      ColReads(cols[n], rest);
      assert cols == cols[..n] + [cols[n]];
    }
  }

  lemma {:induction false} ColsRead(cols: seq<ColMeta>, rest: string)
    requires forall i :: 0 <= i < |cols| ==> ColOk(cols[i])
    ensures ReadCols("\n" + (PrintCols(cols) + rest), |cols|) == Some((cols, "\n" + rest))
  {
    hide PrintCol, ReadCol, ReadWord, ReadNumber, ColOk;
    if cols == [] {
      assert PrintCols(cols) + rest == rest;
    } else {
      var n := |cols| - 1;
      var after := PrintCol(cols[n]) + ("\n" + rest);
      assert PrintCols(cols) + rest == PrintCols(cols[..n]) + after;
      ColsRead(cols[..n], after);
      BreakSkipped('\n', after);
      ColReads(cols[n], "\n" + rest);
      assert cols == cols[..n] + [cols[n]];
    }
  }

  lemma IndexUnfolds(x: IndexMeta, rest: string)
    ensures PrintIndex(x) + rest ==
      x.tab + (" " + (PrintInt(x.colTotLen) + (" " + (PrintInt(x.colNum) + (PrintIndexCols(x.cols) + rest)))))
  {
    hide PrintInt, PrintIndexCols;
  }

  lemma IndexColsDelimited(cols: seq<ColMeta>, rest: string)
    requires Delimited(rest)
    ensures Delimited(PrintIndexCols(cols) + rest)
  {
    if |cols| == 1 {
      assert PrintIndexCols(cols[..0]) == "";
    } else if cols != [] {
      IndexColsDelimited(cols[..|cols| - 1], "\n" + PrintCol(cols[|cols| - 1]));
    }
  }

  lemma IndexReads(x: IndexMeta, rest: string)
    requires IndexOk(x) && Delimited(rest)
    ensures ReadIndex(PrintIndex(x) + rest) == Some((x, rest))
  {
    var s4 := PrintIndexCols(x.cols) + rest;
    var s3 := PrintInt(x.colNum) + s4;
    var s2 := PrintInt(x.colTotLen) + (" " + s3);
    IndexUnfolds(x, rest);
    IndexColsDelimited(x.cols, rest);
    WordReads(x.tab, " " + s2);
    NumberThen(x.colTotLen, " " + s3, -0x8000_0000, 0x8000_0000);
    NumberThen(x.colNum, s4, -0x8000_0000, 0x8000_0000);
    IndexColsRead(x.cols, rest);
    hide PrintInt, ReadNumber, ReadWord, PrintIndex, ReadCols, PrintIndexCols;
  }

  lemma {:induction false} IndexesRead(xs: seq<IndexMeta>, rest: string)
    requires forall i :: 0 <= i < |xs| ==> IndexOk(xs[i])
    ensures ReadIndexes("\n" + (PrintIndexes(xs) + rest), |xs|) == Some((xs, "\n" + rest))
  {
    hide PrintIndex, ReadIndex, ReadWord, ReadNumber, IndexOk, ReadCol;
    if xs == [] {
      assert PrintIndexes(xs) + rest == rest;
    } else {
      var n := |xs| - 1;
      var after := PrintIndex(xs[n]) + ("\n" + rest);
      assert PrintIndexes(xs) + rest == PrintIndexes(xs[..n]) + after;
      IndexesRead(xs[..n], after);
      BreakSkipped('\n', after);
      IndexReads(xs[n], "\n" + rest);
      assert xs == xs[..n] + [xs[n]];
    }
  }

  lemma TabUnfolds(t: TabMeta, rest: string)
    ensures PrintTab(t) + rest ==
      t.name + ("\n" + (PrintInt(|t.cols|) + ("\n" + (PrintCols(t.cols)
      + (PrintInt(|t.indexes|) + ("\n" + (PrintIndexes(t.indexes) + rest)))))))
  {
    hide PrintInt, PrintCols, PrintIndexes;
  }

  /** Reading a table stops before its last line break. */
  lemma TabReads(t: TabMeta, rest: string)
    requires TabOk(t)
    ensures ReadTab(PrintTab(t) + rest) == Some((t, "\n" + rest))
  {
    var s4 := "\n" + (PrintIndexes(t.indexes) + rest);
    var s3 := PrintInt(|t.indexes|) + s4;
    var s2 := "\n" + (PrintCols(t.cols) + s3);
    var s1 := PrintInt(|t.cols|) + s2;
    TabUnfolds(t, rest);
    WordReads(t.name, "\n" + s1);
    NumberThen(|t.cols|, s2, 0, 0x1_0000_0000_0000_0000);
    ColsRead(t.cols, s3);
    NumberThen(|t.indexes|, s4, 0, 0x1_0000_0000_0000_0000);
    IndexesRead(t.indexes, rest);
    hide PrintInt, ReadNumber, ReadWord, PrintTab, ReadCols, PrintCols, ReadIndexes, PrintIndexes;
  }

  // The whole catalog.

  function FirstTabs(tabs: map<string, TabMeta>, keys: seq<string>): map<string, TabMeta>
    requires forall i :: 0 <= i < |keys| ==> keys[i] in tabs
  {
    map key | key in tabs && key in keys :: tabs[key]
  }

  lemma {:induction false} TabsRead(tabs: map<string, TabMeta>, keys: seq<string>, rest: string)
    requires forall i :: 0 <= i < |keys| ==> keys[i] in tabs && tabs[keys[i]].name == keys[i] && TabOk(tabs[keys[i]])
    ensures ReadTabs("\n" + (PrintTabs(tabs, keys) + rest), |keys|) ==
            Some((FirstTabs(tabs, keys), (if keys == [] then "\n" else "\n\n") + rest))
  {
    hide PrintTab, ReadTab, ReadWord, ReadNumber, TabOk, ReadCol, ReadIndex;
    if keys == [] {
      assert PrintTabs(tabs, keys) + rest == rest;
    } else {
      var n := |keys| - 1;
      var t := tabs[keys[n]];
      var after := PrintTab(t) + ("\n" + rest);
      assert PrintTabs(tabs, keys) + rest == PrintTabs(tabs, keys[..n]) + after;
      TabsRead(tabs, keys[..n], after);
      TabReads(t, "\n" + rest);
      BreakSkipped('\n', after);
      BreakSkipped('\n', "\n" + after);
      assert "\n\n" + after == "\n" + ("\n" + after);
      assert "\n" + ("\n" + rest) == "\n\n" + rest;
      assert keys == keys[..n] + [keys[n]];
      assert FirstTabs(tabs, keys) == FirstTabs(tabs, keys[..n])[keys[n] := t];
    }
  }

  lemma {:induction false} EnumerationSize(tabs: map<string, TabMeta>, keys: seq<string>)
    requires Enumerates(keys, tabs)
    ensures |keys| == |tabs|
    decreases |keys|
  {
    if keys == [] {
      assert tabs == map[];
    } else {
      var n := |keys| - 1;
      assert keys == keys[..n] + [keys[n]];
      EnumerationSize(tabs - {keys[n]}, keys[..n]);
    }
  }

  lemma DbUnfolds(d: DbMeta, keys: seq<string>)
    requires Enumerates(keys, d.tabs)
    ensures PrintDb(d, keys) == d.name + ("\n" + (PrintInt(|d.tabs|) + ("\n" + (PrintTabs(d.tabs, keys) + ""))))
  {
    hide PrintInt, PrintTabs;
  }

  lemma AllTabs(tabs: map<string, TabMeta>, keys: seq<string>)
    requires Enumerates(keys, tabs)
    ensures FirstTabs(tabs, keys) == tabs && |keys| == |tabs|
  {
    EnumerationSize(tabs, keys);
  }

  /** Reading back a printed catalog restores it, whatever order the tables were printed in. */
  lemma DbReads(d: DbMeta, keys: seq<string>)
    requires DbOk(d) && Enumerates(keys, d.tabs)
    ensures ReadDb(PrintDb(d, keys)).Some? && ReadDb(PrintDb(d, keys)).value.0 == d
  {
    AllTabs(d.tabs, keys);
    DbUnfolds(d, keys);
    hide PrintInt, PrintTabs, PrintDb, ReadWord, ReadNumber, ReadTabs, ReadDb, TabOk, FirstTabs;
    var s2 := "\n" + (PrintTabs(d.tabs, keys) + "");
    var s1 := PrintInt(|d.tabs|) + s2;
    WordReads(d.name, "\n" + s1);
    NumberThen(|d.tabs|, s2, 0, 0x1_0000_0000_0000_0000);
    TabsRead(d.tabs, keys, "");
    DbParsed(PrintDb(d, keys), d.name, "\n" + s1, |keys|, s2);
  }

  /** The three parts of a catalog, read one after the other. */
  lemma DbParsed(s: string, name: string, s1: string, n: nat, s2: string)
    requires ReadWord(s) == Some((name, s1)) && ReadSize(s1) == Some((n, s2)) && ReadTabs(s2, n).Some?
    ensures ReadDb(s) == Some((DbMeta(name, ReadTabs(s2, n).value.0), ReadTabs(s2, n).value.1))
  {
    hide ReadWord, ReadSize, ReadTabs;
  }

  // Whatever is read satisfies the conditions, so nothing else can be read back.

  lemma ColReadOk(s: string)
    ensures ReadCol(s).Some? ==> ColOk(ReadCol(s).value.0)
  {
    hide ReadNumber, NameOk;
  }

  lemma {:induction false} ColsReadOk(s: string, n: nat)
    ensures ReadCols(s, n).Some? ==>
              |ReadCols(s, n).value.0| == n && forall i :: 0 <= i < n ==> ColOk(ReadCols(s, n).value.0[i])
  {
    hide ReadCol, ColOk;
    if n == 0 {
    } else {
      ColsReadOk(s, n - 1);
      if ReadCols(s, n - 1).Some? {
        ColReadOk(ReadCols(s, n - 1).value.1);
      }
    }
  }

  lemma IndexReadOk(s: string)
    ensures ReadIndex(s).Some? ==> IndexOk(ReadIndex(s).value.0)
  {
    forall t: string, n: nat ensures ReadCols(t, n).Some? ==>
        |ReadCols(t, n).value.0| == n && forall i :: 0 <= i < n ==> ColOk(ReadCols(t, n).value.0[i])
    {
      ColsReadOk(t, n);
    }
    hide ReadNumber, ReadCols, ColOk, NameOk;
  }

  lemma {:induction false} IndexesReadOk(s: string, n: nat)
    ensures ReadIndexes(s, n).Some? ==>
              |ReadIndexes(s, n).value.0| == n && forall i :: 0 <= i < n ==> IndexOk(ReadIndexes(s, n).value.0[i])
  {
    hide ReadIndex, IndexOk;
    if n == 0 {
    } else {
      IndexesReadOk(s, n - 1);
      if ReadIndexes(s, n - 1).Some? {
        IndexReadOk(ReadIndexes(s, n - 1).value.1);
      }
    }
  }

  lemma TabReadOk(s: string)
    ensures ReadTab(s).Some? ==> TabOk(ReadTab(s).value.0)
  {
    forall t: string, n: nat
      ensures ReadCols(t, n).Some? ==>
        |ReadCols(t, n).value.0| == n && forall i :: 0 <= i < n ==> ColOk(ReadCols(t, n).value.0[i])
      ensures ReadIndexes(t, n).Some? ==>
        |ReadIndexes(t, n).value.0| == n && forall i :: 0 <= i < n ==> IndexOk(ReadIndexes(t, n).value.0[i])
    {
      ColsReadOk(t, n);
      IndexesReadOk(t, n);
    }
    hide ReadNumber, ReadCols, ReadIndexes, ColOk, IndexOk, NameOk;
  }

  lemma {:induction false} TabsReadOk(s: string, n: nat)
    ensures ReadTabs(s, n).Some? ==>
      var tabs := ReadTabs(s, n).value.0;
      |tabs| <= n && forall key :: key in tabs ==> tabs[key].name == key && TabOk(tabs[key])
  {
    hide ReadTab, TabOk;
    if n == 0 {
    } else {
      TabsReadOk(s, n - 1);
      if ReadTabs(s, n - 1).Some? {
        TabReadOk(ReadTabs(s, n - 1).value.1);
      }
    }
  }

  lemma DbReadOk(s: string)
    ensures ReadDb(s).Some? ==> DbOk(ReadDb(s).value.0)
  {
    forall t: string, n: nat ensures ReadTabs(t, n).Some? ==>
        var tabs := ReadTabs(t, n).value.0;
        |tabs| <= n && forall key :: key in tabs ==> tabs[key].name == key && TabOk(tabs[key])
    {
      TabsReadOk(t, n);
    }
    hide ReadNumber, ReadTabs, TabOk, NameOk;
  }

  /** A catalog survives being printed and read back if and only if its names are non-empty and free of
      white space, each table is filed under its own name, every index declares as many columns as it
      has, and the numbers fit their types. */
  lemma RoundTripIff(d: DbMeta, keys: seq<string>)
    requires Enumerates(keys, d.tabs)
    ensures (exists rest :: ReadDb(PrintDb(d, keys)) == Some((d, rest))) <==> DbOk(d)
  {
    DbReadOk(PrintDb(d, keys));
    if DbOk(d) {
      DbReads(d, keys);
      assert ReadDb(PrintDb(d, keys)) == Some((d, ReadDb(PrintDb(d, keys)).value.1));
    }
  }

  /** Three catalogs that do not survive: a name with a space in it, a table filed under another name, and
      an index that declares one column more than it has. */
  function Unreadable(): seq<DbMeta> {
    var renamed := TabMeta("t", [], []);
    var short := TabMeta("t", [], [IndexMeta("t", 4, 1, [])]);
    [DbMeta("my db", map[]), DbMeta("db", map["old" := renamed]), DbMeta("db", map["t" := short])]
  }

  lemma UnreadableLost(i: nat, keys: seq<string>)
    requires i < 3 && Enumerates(keys, Unreadable()[i].tabs)
    ensures !exists rest :: ReadDb(PrintDb(Unreadable()[i], keys)) == Some((Unreadable()[i], rest))
  {
    var d := Unreadable()[i];
    RoundTripIff(d, keys);
    hide ReadDb, PrintDb;
    if i == 0 {
      assert d.name[2] == ' ';
    } else if i == 1 {
      assert "old" in d.tabs && d.tabs["old"].name != "old";
    } else {
      assert !IndexOk(d.tabs["t"].indexes[0]);
    }
  }

  // The text itself.

  /** Decimal notation: the last character is the last digit, what is before it the number without that digit. */
  lemma DecimalText(n: nat)
    ensures
      var r := PrintNat(n);
      && r != "" && r[|r| - 1] as int == 48 + n % 10
      && (n < 10 ==> |r| == 1) && (n >= 10 ==> r[..|r| - 1] == PrintNat(n / 10))
    ensures PrintInt(n) == PrintNat(n)
    ensures
      var k: int := n;
      n > 0 ==> PrintInt(-k) == "-" + PrintNat(n)
  {
  }

  /** Decimal notation, read: a digit more makes ten times as much and that digit. */
  lemma DecimalValue(s: string, c: char)
    requires (forall i :: 0 <= i < |s| ==> IsDigit(s[i])) && '0' <= c <= '9'
    ensures DigitsValue("") == 0
    ensures forall i :: 0 <= i < |s + [c]| ==> IsDigit((s + [c])[i])
    ensures DigitsValue(s + [c]) == 10 * DigitsValue(s) + (c as int - 48)
  {
    assert (s + [c])[..|s|] == s;
  }

  /** A column as it stands in the file: two names, then 0, 1 or 2 for INT, FLOAT or STRING, length, offset, and 0
      or 1. */
  lemma ColText(c: ColMeta)
    ensures PrintCol(c) ==
      c.tab + " " + c.name
      + (match c.colType case TypeInt => " 0 " case TypeFloat => " 1 " case TypeString => " 2 ")
      + PrintNat(c.len) + " " + PrintNat(c.offset) + (if c.index then " 1" else " 0")
  {
    SmallNumbers();
    hide PrintNat;
    var code := PrintInt(TypeCode(c.colType));
    var flag := PrintInt(if c.index then 1 else 0);
    assert c.tab + " " + c.name + " " + code + " " == c.tab + " " + c.name + (" " + code + " ");
    assert " " + code + " " == match c.colType case TypeInt => " 0 " case TypeFloat => " 1 " case TypeString => " 2 ";
    assert " " + flag == if c.index then " 1" else " 0";
  }

  lemma SmallNumbers()
    ensures PrintNat(0) == "0" && PrintNat(1) == "1" && PrintNat(2) == "2" && PrintNat(4) == "4"
  {
  }

  /** Reading it back, from the characters. */
  lemma ColTextReads(tab: string, name: string, len: nat, offset: nat, rest: string)
    requires NameOk(tab) && NameOk(name) && len < 0x8000_0000 && offset < 0x8000_0000 && Delimited(rest)
    ensures
      var numbers := PrintNat(len) + " " + PrintNat(offset);
      && ReadCol(tab + " " + name + " 0 " + numbers + " 0" + rest)
         == Some((ColMeta(tab, name, TypeInt, len, offset, false), rest))
      && ReadCol(tab + " " + name + " 1 " + numbers + " 0" + rest)
         == Some((ColMeta(tab, name, TypeFloat, len, offset, false), rest))
      && ReadCol(tab + " " + name + " 2 " + numbers + " 0" + rest)
         == Some((ColMeta(tab, name, TypeString, len, offset, false), rest))
      && ReadCol(tab + " " + name + " 0 " + numbers + " 1" + rest)
         == Some((ColMeta(tab, name, TypeInt, len, offset, true), rest))
  {
    hide *;
    var numbers := PrintNat(len) + " " + PrintNat(offset);
    ColTextRead(ColMeta(tab, name, TypeInt, len, offset, false), " 0 ", numbers, " 0", rest);
    ColTextRead(ColMeta(tab, name, TypeFloat, len, offset, false), " 1 ", numbers, " 0", rest);
    ColTextRead(ColMeta(tab, name, TypeString, len, offset, false), " 2 ", numbers, " 0", rest);
    ColTextRead(ColMeta(tab, name, TypeInt, len, offset, true), " 0 ", numbers, " 1", rest);
  }

  lemma Regroup(start: string, code: string, n: string, k: string, flag: string, rest: string)
    ensures start + code + (n + " " + k) + flag + rest == start + code + n + " " + k + flag + rest
  {
    assert start + code + (n + " " + k) == start + code + n + " " + k;
  }

  lemma ColTextRead(c: ColMeta, code: string, numbers: string, flag: string, rest: string)
    requires NameOk(c.tab) && NameOk(c.name) && c.len < 0x8000_0000 && c.offset < 0x8000_0000 && Delimited(rest)
    requires code == match c.colType case TypeInt => " 0 " case TypeFloat => " 1 " case TypeString => " 2 "
    requires numbers == PrintNat(c.len) + " " + PrintNat(c.offset) && flag == if c.index then " 1" else " 0"
    ensures ReadCol(c.tab + " " + c.name + code + numbers + flag + rest) == Some((c, rest))
  {
    ColText(c);
    ColIsOk(c);
    hide *;
    ColReads(c, rest);
    Regroup(c.tab + " " + c.name, code, PrintNat(c.len), PrintNat(c.offset), flag, rest);
  }

  lemma ColIsOk(c: ColMeta)
    requires NameOk(c.tab) && NameOk(c.name) && c.len < 0x8000_0000 && c.offset < 0x8000_0000
    ensures ColOk(c)
  {
  }

  lemma Appended(start: string, code: string, numbers: string, flag: string, all: string)
    requires code + numbers + flag == all
    ensures start + code + numbers + flag + "" == start + all
  {
    assert start + code + numbers + flag + "" == start + (code + numbers + flag);
  }

  lemma SampleTexts()
    ensures " 0 " + "4 0" + " 0" == " 0 4 0 0" && " 1 " + "4 0" + " 0" == " 1 4 0 0"
    ensures " 2 " + "4 0" + " 1" == " 2 4 0 1" && "4" + " " + "0" == "4 0"
    ensures Delimited("")
  {
  }

  /** In particular, an INT, a FLOAT and a STRING column as the program writes them. */
  lemma SampleCols(tab: string, name: string)
    requires NameOk(tab) && NameOk(name)
    ensures ReadCol(tab + " " + name + " 0 4 0 0") == Some((ColMeta(tab, name, TypeInt, 4, 0, false), ""))
    ensures ReadCol(tab + " " + name + " 1 4 0 0") == Some((ColMeta(tab, name, TypeFloat, 4, 0, false), ""))
    ensures ReadCol(tab + " " + name + " 2 4 0 1") == Some((ColMeta(tab, name, TypeString, 4, 0, true), ""))
  {
    SmallNumbers();
    hide *;
    SampleTexts();
    var start := tab + " " + name;
    ColTextRead(ColMeta(tab, name, TypeInt, 4, 0, false), " 0 ", "4 0", " 0", "");
    ColTextRead(ColMeta(tab, name, TypeFloat, 4, 0, false), " 1 ", "4 0", " 0", "");
    ColTextRead(ColMeta(tab, name, TypeString, 4, 0, true), " 2 ", "4 0", " 1", "");
    Appended(start, " 0 ", "4 0", " 0", " 0 4 0 0");
    Appended(start, " 1 ", "4 0", " 0", " 1 4 0 0");
    Appended(start, " 2 ", "4 0", " 1", " 2 4 0 1");
  }

  /** The loops write their lines in order: each column of an index after a line break; each column and index of a
      table, and each table, before one. */
  lemma LinesInOrder(cols: seq<ColMeta>, c: ColMeta, xs: seq<IndexMeta>, x: IndexMeta)
    ensures PrintIndexCols([]) == "" && PrintCols([]) == "" && PrintIndexes([]) == ""
    ensures PrintIndexCols(cols + [c]) == PrintIndexCols(cols) + ("\n" + PrintCol(c))
    ensures PrintCols(cols + [c]) == PrintCols(cols) + (PrintCol(c) + "\n")
    ensures PrintIndexes(xs + [x]) == PrintIndexes(xs) + (PrintIndex(x) + "\n")
  {
    assert (cols + [c])[..|cols|] == cols && (xs + [x])[..|xs|] == xs;
    hide PrintCol, PrintIndex;
  }

  lemma TablesInOrder(tabs: map<string, TabMeta>, keys: seq<string>, key: string)
    requires key in tabs && forall i :: 0 <= i < |keys| ==> keys[i] in tabs
    ensures forall i :: 0 <= i < |keys + [key]| ==> (keys + [key])[i] in tabs
    ensures PrintTabs(tabs, []) == ""
    ensures PrintTabs(tabs, keys + [key]) == PrintTabs(tabs, keys) + (PrintTab(tabs[key]) + "\n")
  {
    assert (keys + [key])[..|keys|] == keys;
    hide PrintTab;
  }

  // The operators as the program runs them.

  /** An input stream: the text not yet extracted, and whether every extraction has succeeded. */
  class IStream {
    var rest: string
    var good: bool

    constructor (text: string)
      ensures rest == text && good
    {
      rest, good := text, true;
    }

    /** What a `>>` that yields `r` does to the stream. */
    twostate predicate Extracted<T>(r: Read<T>, value: T)
      reads this
    {
      old(good) ==> good == r.Some? && (r.Some? ==> r.value == (value, rest))
    }

    method Word() returns (w: string)
      modifies this
      ensures Extracted(ReadWord(old(rest)), w)
      ensures !old(good) ==> !good
    {
      w := "";
      if good {
        match ReadWord(rest)
        case Some((v, r)) => w, rest := v, r;
        case None => good := false;
      }
    }

    method Number(lo: int, hi: int) returns (n: int)
      modifies this
      ensures Extracted(ReadNumber(old(rest), lo, hi), n)
      ensures !old(good) ==> !good
    {
      n := 0;
      if good {
        match ReadNumber(rest, lo, hi)
        case Some((v, r)) => n, rest := v, r;
        case None => good := false;
      }
    }

    /** `>>` of a column. An enum is read as its code, a bool as 0 or 1. */
    method Col() returns (c: ColMeta)
      modifies this
      ensures Extracted(ReadCol(old(rest)), c)
      ensures !old(good) ==> !good
    {
      hide ReadWord, ReadNumber;
      var tab := Word();
      var name := Word();
      var code := Number(-0x8000_0000, 0x8000_0000);
      var len := Number(0, 0x8000_0000);
      var offset := Number(0, 0x8000_0000);
      var flag := Number(-0x8000_0000, 0x8000_0000);
      if 0 <= code <= 2 && 0 <= flag <= 1 && 0 <= len && 0 <= offset {
        var t := if code == 0 then TypeInt else if code == 1 then TypeFloat else TypeString;
        c := ColMeta(tab, name, t, len, offset, flag == 1);
      } else {
        good := false;
        c := ColMeta(tab, name, TypeInt, 0, 0, false);
      }
    }

    /** The loop that reads the columns of an index or a table. */
    method Cols(n: nat) returns (cols: seq<ColMeta>)
      modifies this
      ensures Extracted(ReadCols(old(rest), n), cols)
      ensures !old(good) ==> !good
    {
      hide ReadCol;
      cols := [];
      for i := 0 to n
        invariant Extracted(ReadCols(old(rest), i), cols)
        invariant !old(good) ==> !good
      {
        var col := Col();
        cols := cols + [col];
      }
    }

    method Index() returns (x: IndexMeta)
      modifies this
      ensures Extracted(ReadIndex(old(rest)), x)
      ensures !old(good) ==> !good
    {
      hide ReadWord, ReadNumber, ReadCols;
      var tab := Word();
      var total := Number(-0x8000_0000, 0x8000_0000);
      var num := Number(-0x8000_0000, 0x8000_0000);
      var cols := Cols(if num < 0 then 0 else num);
      x := IndexMeta(tab, total, num, cols);
    }

    method Indexes(n: nat) returns (xs: seq<IndexMeta>)
      modifies this
      ensures Extracted(ReadIndexes(old(rest), n), xs)
      ensures !old(good) ==> !good
    {
      hide ReadIndex;
      xs := [];
      for i := 0 to n
        invariant Extracted(ReadIndexes(old(rest), i), xs)
        invariant !old(good) ==> !good
      {
        var x := Index();
        xs := xs + [x];
      }
    }

    method Tab() returns (t: TabMeta)
      modifies this
      ensures Extracted(ReadTab(old(rest)), t)
      ensures !old(good) ==> !good
    {
      hide ReadWord, ReadNumber, ReadCols, ReadIndexes;
      var name := Word();
      var n := Number(0, 0x1_0000_0000_0000_0000);
      var cols := Cols(if n < 0 then 0 else n);
      var k := Number(0, 0x1_0000_0000_0000_0000);
      var indexes := Indexes(if k < 0 then 0 else k);
      t := TabMeta(name, cols, indexes);
    }

    method Tabs(n: nat) returns (tabs: map<string, TabMeta>)
      modifies this
      ensures Extracted(ReadTabs(old(rest), n), tabs)
      ensures !old(good) ==> !good
    {
      hide ReadTab;
      tabs := map[];
      for i := 0 to n
        invariant Extracted(ReadTabs(old(rest), i), tabs)
        invariant !old(good) ==> !good
      {
        var tab := Tab();
        tabs := tabs[tab.name := tab];
      }
    }

    method Db() returns (d: DbMeta)
      modifies this
      ensures Extracted(ReadDb(old(rest)), d)
      ensures !old(good) ==> !good
    {
      hide ReadWord, ReadNumber, ReadTabs;
      var name := Word();
      var n := Number(0, 0x1_0000_0000_0000_0000);
      var tabs := Tabs(if n < 0 then 0 else n);
      d := DbMeta(name, tabs);
    }
  }

  /** Print a catalog, then read it with the stream operators. */
  method Reload(d: DbMeta, keys: seq<string>) returns (good: bool, d': DbMeta)
    requires Enumerates(keys, d.tabs)
    ensures good && d' == d <==> DbOk(d)
  {
    RoundTripIff(d, keys);
    hide ReadDb, PrintDb, DbOk;
    var stream := new IStream(PrintDb(d, keys));
    d' := stream.Db();
    good := stream.good;
  }
}
