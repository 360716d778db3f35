/**
  The mapping loader: the row loop of `load_mapping`. The spreadsheet is
  given as the rows its reader yields, each a sequence of optional cells
  whose values are already text; column A holds the source folder pattern,
  column B the destination folder name.
*/
module MappingLoader {
  import opened Wrappers
  import opened Text
  import opened OrderedMaps

  /** A cell as the reader yields it: empty (`None`) or its value as text. */
  type Cell = Option<string>

  type Row = seq<Cell>

  /** Source folder pattern to destination folder name, in insertion order. */
  type Mapping = OrderedMap<string, string>

  /** A cell's trimmed text; an empty cell reads as the empty string. */
  function CellText(c: Cell): string {
    match c
    case None => ""
    case Some(s) => Strip(s)
  }

  /**
    The entry a row contributes: an empty row, a row with a single cell and
    a row whose first or second trimmed cell is empty contribute nothing.
  */
  function RowEntry(row: Row): Option<Entry<string, string>> {
    if |row| == 0 then None
    else
      var source := CellText(row[0]);
      var dest := if |row| > 1 then CellText(row[1]) else "";
      if source != "" && dest != "" then Some(Entry(source, dest)) else None
  }

  /**
    A row is kept exactly when it has at least two cells and both trimmed
    cells are non-empty; it then maps its trimmed source cell to its trimmed
    destination cell.
  */
  lemma RowKept(row: Row)
    ensures RowEntry(row).Some? <==> |row| >= 2 && CellText(row[0]) != "" && CellText(row[1]) != ""
    ensures RowEntry(row).Some? ==> RowEntry(row).value == Entry(CellText(row[0]), CellText(row[1]))
  {
  }

  /** What each row contributes, row by row. */
  function RowEntries(rows: seq<Row>): (es: seq<Option<Entry<string, string>>>)
    ensures |es| == |rows|
    ensures forall i :: 0 <= i < |rows| ==> es[i] == RowEntry(rows[i])
  {
    seq(|rows|, i requires 0 <= i < |rows| => RowEntry(rows[i]))
  }

  /** A row's contribution is kept and its source cell reads `k`. */
  predicate Defines(e: Option<Entry<string, string>>, k: string) {
    e.Some? && e.value.key == k
  }

  /** The mapping after one more row: `mapping[source_name] = dest_name` when the row is kept. */
  function Absorb(m: Mapping, e: Option<Entry<string, string>>): Mapping {
    match e
    case None => m
    case Some(x) => Put(m, x.key, x.value)
  }

  /** One more row overwrites the value of the key it defines and leaves every other key alone. */
  lemma AbsorbGet(m: Mapping, e: Option<Entry<string, string>>, k: string)
    ensures Get(Absorb(m, e), k) == if Defines(e, k) then Some(e.value.value) else Get(m, k)
  {
    if e.Some? {
      PutSpec(m, e.value.key, e.value.value);
    }
  }

  /** One more row appends its key if it is new and otherwise leaves the key order alone. */
  lemma AbsorbKeys(m: Mapping, e: Option<Entry<string, string>>)
    ensures Keys(Absorb(m, e)) == if e.Some? && e.value.key !in Keys(m) then Keys(m) + [e.value.key] else Keys(m)
  {
    if e.Some? {
      PutSpec(m, e.value.key, e.value.value);
    }
  }

  /** The mapping after the rows have been read top to bottom. */
  function Load(rows: seq<Row>): Mapping {
    if rows == [] then [] else Absorb(Load(rows[..|rows| - 1]), RowEntry(rows[|rows| - 1]))
  }

  /** Reading row `i` takes the mapping read from the rows before it one step further. */
  lemma LoadStep(rows: seq<Row>, i: nat)
    requires i < |rows|
    ensures Load(rows[..i + 1]) == Absorb(Load(rows[..i]), RowEntry(rows[i]))
  {
    assert rows[..i + 1][..i] == rows[..i];
  }

  /** `load_mapping`, once the workbook is open: the loop over the rows. */
  method LoadMapping(rows: seq<Row>) returns (mapping: Mapping)
    ensures mapping == Load(rows)
    ensures DistinctKeys(mapping)
    ensures forall e :: e in mapping ==> e.key != "" && e.value != ""
  {
    mapping := [];
    for i := 0 to |rows|
      invariant mapping == Load(rows[..i])
    {
      LoadStep(rows, i);
      var row := rows[i];
      if |row| == 0 {
        continue;
      }
      var sourceName := if row[0].Some? then Strip(row[0].value) else "";
      var destName := if |row| > 1 && row[1].Some? then Strip(row[1].value) else "";
      assert sourceName == CellText(row[0]);
      if sourceName != "" && destName != "" {
        assert RowEntry(row) == Some(Entry(sourceName, destName));
        mapping := Put(mapping, sourceName, destName);
      } else {
        assert RowEntry(row) == None;
      }
    }
    assert rows[..|rows|] == rows;
    LoadWellFormed(rows);
  }

  /**
    Every loaded key occurs once, and every stored key and value is
    non-empty text with no surrounding whitespace.
  */
  lemma {:induction false} LoadWellFormed(rows: seq<Row>)
    ensures DistinctKeys(Load(rows))
    ensures forall e :: e in Load(rows) ==> e.key != "" && e.value != ""
    ensures forall e :: e in Load(rows) ==> Strip(e.key) == e.key && Strip(e.value) == e.value
  {
    if rows != [] {
      var init := rows[..|rows| - 1];
      LoadWellFormed(init);
      match RowEntry(rows[|rows| - 1])
      case None =>
      case Some(e) =>
        var row := rows[|rows| - 1];
        PutSpec(Load(init), e.key, e.value);
        RowKept(row);
        StripIdempotent(row[0].value);
        StripIdempotent(row[1].value);
    }
  }

  /** The position of the last row that defines `k`, if any. */
  function LastRow(es: seq<Option<Entry<string, string>>>, k: string): (r: Option<nat>)
    ensures r.Some? ==> r.value < |es| && Defines(es[r.value], k)
  {
    if es == [] then None
    else
      match LastRow(es[1..], k)
      case Some(j) => Some(j + 1)
      case None => if Defines(es[0], k) then Some(0) else None
  }

  /** `LastRow` is `None` exactly when no row defines `k`, and otherwise the last row that does. */
  lemma {:induction false} LastRowIsLast(es: seq<Option<Entry<string, string>>>, k: string)
    ensures LastRow(es, k).None? <==> forall i :: 0 <= i < |es| ==> !Defines(es[i], k)
    ensures LastRow(es, k).Some? ==> forall j :: LastRow(es, k).value < j < |es| ==> !Defines(es[j], k)
  {
    if es != [] {
      LastRowIsLast(es[1..], k);
      assert forall j :: 1 <= j < |es| ==> es[j] == es[1..][j - 1];
    }
  }

  /** The value in column B of the last row that defines `k`. */
  function LastValue(es: seq<Option<Entry<string, string>>>, k: string): Option<string> {
    match LastRow(es, k)
    case None => None
    case Some(i) => Some(es[i].value.value)
  }

  /**
    Looking a key up in the loaded mapping gives the value of the last row
    that defines it, and nothing when no row does: later duplicates overwrite
    earlier ones.
  */
  lemma {:induction false} LoadGet(rows: seq<Row>, k: string)
    ensures Get(Load(rows), k) == LastValue(RowEntries(rows), k)
  {
    if rows != [] {
      var init := rows[..|rows| - 1];
      var last := RowEntry(rows[|rows| - 1]);
      LoadGet(init, k);
      assert RowEntries(rows) == RowEntries(init) + [last];
      AbsorbLastValue(Load(init), RowEntries(init), last, k);
    }
  }

  /** If a mapping agrees with the rows read so far on `k`, it still does after one more row. */
  lemma AbsorbLastValue(m: Mapping, es: seq<Option<Entry<string, string>>>, e: Option<Entry<string, string>>, k: string)
    requires Get(m, k) == LastValue(es, k)
    ensures Get(Absorb(m, e), k) == LastValue(es + [e], k)
  {
    LastRowAppend(es, e, k);
    AbsorbGet(m, e, k);
  }

  /** A key is loaded exactly when some row defines it. */
  lemma LoadKeys(rows: seq<Row>, k: string)
    ensures k in Keys(Load(rows)) <==> exists i :: 0 <= i < |rows| && Defines(RowEntry(rows[i]), k)
  {
    LoadGet(rows, k);
    LastRowIsLast(RowEntries(rows), k);
  }

  /** The position of the first row that defines `k`, or the number of rows when none does. */
  function FirstRow(es: seq<Option<Entry<string, string>>>, k: string): (r: nat)
    ensures r <= |es|
  {
    if es == [] then 0
    else if Defines(es[0], k) then 0
    else 1 + FirstRow(es[1..], k)
  }

  /** No row before `FirstRow(es, k)` defines `k`, and the row there, if any, does. */
  lemma {:induction false} FirstRowIsFirst(es: seq<Option<Entry<string, string>>>, k: string)
    ensures forall j :: 0 <= j < FirstRow(es, k) ==> !Defines(es[j], k)
    ensures FirstRow(es, k) < |es| <==> exists j :: 0 <= j < |es| && Defines(es[j], k)
    ensures FirstRow(es, k) < |es| ==> Defines(es[FirstRow(es, k)], k)
  {
    if es != [] && !Defines(es[0], k) {
      FirstRowIsFirst(es[1..], k);
      assert forall j :: 1 <= j < |es| ==> es[j] == es[1..][j - 1];
    }
  }

  /** Reading one more row does not move the first row that defines `k`, if there already was one. */
  lemma {:induction false} FirstRowAppend(es: seq<Option<Entry<string, string>>>, e: Option<Entry<string, string>>, k: string)
    ensures FirstRow(es + [e], k) ==
              if FirstRow(es, k) < |es| then FirstRow(es, k)
              else if Defines(e, k) then |es| else |es| + 1
  {
    if es != [] && !Defines(es[0], k) {
      assert (es + [e])[1..] == es[1..] + [e];
      FirstRowAppend(es[1..], e, k);
    }
  }

  /** A row that defines `k` becomes the last such row; any other row leaves the last one in place. */
  lemma {:induction false} LastRowAppend(es: seq<Option<Entry<string, string>>>, e: Option<Entry<string, string>>, k: string)
    ensures LastRow(es + [e], k) == if Defines(e, k) then Some(|es|) else LastRow(es, k)
  {
    if es != [] {
      assert (es + [e])[1..] == es[1..] + [e];
      LastRowAppend(es[1..], e, k);
    }
  }

  /** The first defining row of each key, in key order. */
  function FirstRows(ks: seq<string>, es: seq<Option<Entry<string, string>>>): (r: seq<nat>)
    ensures |r| == |ks|
    ensures forall i :: 0 <= i < |ks| ==> r[i] == FirstRow(es, ks[i])
  {
    seq(|ks|, i requires 0 <= i < |ks| => FirstRow(es, ks[i]))
  }

  predicate Increasing(s: seq<nat>) {
    forall a, b :: 0 <= a < b < |s| ==> s[a] < s[b]
  }

  /**
    Keys that some row already defines keep their first rows when one more
    row is read, and a key first defined by that row comes after them.
  */
  lemma FirstRowsAppend(ks: seq<string>, es: seq<Option<Entry<string, string>>>, e: Option<Entry<string, string>>)
    requires forall k :: k in ks ==> FirstRow(es, k) < |es|
    ensures FirstRows(ks, es + [e]) == FirstRows(ks, es)
    ensures forall i :: 0 <= i < |ks| ==> FirstRows(ks, es)[i] < |es|
    ensures e.Some? && FirstRow(es, e.value.key) == |es| ==>
              FirstRows(ks + [e.value.key], es + [e]) == FirstRows(ks, es) + [|es|]
  {
    FirstRowsKept(ks, es, e);
    if e.Some? && FirstRow(es, e.value.key) == |es| {
      FirstRowAppend(es, e, e.value.key);
      var ks' := ks + [e.value.key];
      assert forall i :: 0 <= i < |ks| ==> ks'[i] == ks[i];
    }
  }

  /** Keys that some row already defines keep their first rows when one more row is read. */
  lemma FirstRowsKept(ks: seq<string>, es: seq<Option<Entry<string, string>>>, e: Option<Entry<string, string>>)
    requires forall k :: k in ks ==> FirstRow(es, k) < |es|
    ensures forall i :: 0 <= i < |ks| ==> FirstRow(es + [e], ks[i]) == FirstRow(es, ks[i]) < |es|
  {
    forall i | 0 <= i < |ks| ensures FirstRow(es + [e], ks[i]) == FirstRow(es, ks[i]) < |es| {
      assert ks[i] in ks;
      FirstRowAppend(es, e, ks[i]);
    }
  }

  lemma IncreasingAppend(s: seq<nat>, x: nat)
    requires Increasing(s) && forall i :: 0 <= i < |s| ==> s[i] < x
    ensures Increasing(s + [x])
  {
  }

  /**
    The loaded keys are in the order of the rows that first defined them:
    a key overwritten by a later row keeps its original position.
  */
  lemma {:induction false} LoadOrder(rows: seq<Row>)
    ensures Increasing(FirstRows(Keys(Load(rows)), RowEntries(rows)))
  {
    if rows != [] {
      var init := rows[..|rows| - 1];
      var e := RowEntry(rows[|rows| - 1]);
      var es := RowEntries(init);
      assert RowEntries(rows) == es + [e];
      LoadOrder(init);
      var m := Load(init);
      forall k | k in Keys(m) ensures FirstRow(es, k) < |es| {
        LoadKeys(init, k);
        FirstRowIsFirst(es, k);
      }
      FirstRowsAppend(Keys(m), es, e);
      AbsorbKeys(m, e);
      if e.Some? && e.value.key !in Keys(m) {
        LoadKeys(init, e.value.key);
        FirstRowIsFirst(es, e.value.key);
        assert FirstRow(es, e.value.key) == |es|;
        IncreasingAppend(FirstRows(Keys(m), es), |es|);
      }
    }
  }
}
