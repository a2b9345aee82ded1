/**
 * From the tables read off one registry page to the field list written into
 * the dataset: table selection, the split of each table into two label/value
 * halves, the merge of the halves and the projection onto the schema.
 */
module Extraction {
  import opened Options
  import opened Schema

  /** A table as read_html returns it, given as its columns, each read top to bottom. */
  type ParsedTable = seq<seq<string>>

  /**
   * One half of a transposed table: a column of labels and, when the table is
   * wide enough, the column of their values.
   */
  datatype Half = Half(labels: seq<string>, values: Option<seq<string>>)

  /** What process_record gives back, or that it raised. */
  datatype Outcome = Fields(pairs: seq<(string, string)>) | Raised

  /**
   * process_dataframe: columns 0/1 and 2/3 of the table become two halves;
   * a table of fewer than three columns has no label row 2 and is dropped.
   */
  function ProcessDataframe(t: ParsedTable): Option<seq<Half>>
  {
    if |t| < 3 then None
    else Some([Half(t[0], Some(t[1])), Half(t[2], if |t| >= 4 then Some(t[3]) else None)])
  }

  /** How many of the parsed tables are read. */
  function TableCount(n: nat): nat
  {
    if n <= 2 then 1 else 3
  }

  /**
   * The tables the loop reads: the first one when at most two were parsed,
   * the first three otherwise. An empty list stands for read_html raising
   * because the page had no devkit-table, so nothing is selected.
   */
  function SelectTables(data: seq<ParsedTable>): (r: Option<seq<ParsedTable>>)
    ensures r.None? <==> data == []
    ensures r.Some? ==> r.value <= data
    ensures r.Some? ==> (|r.value| == 1 <==> |data| <= 2) && (|r.value| == 3 <==> |data| >= 3)
  {
    if data == [] then None else Some(data[..TableCount(|data|)])
  }

  /** The halves df_list collects from a list of tables, a dropped table adding none. */
  function HalvesOf(ts: seq<ParsedTable>): seq<Half>
  {
    if ts == [] then []
    else
      var last := ProcessDataframe(ts[|ts| - 1]);
      HalvesOf(ts[..|ts| - 1]) + (if last.Some? then last.value else [])
  }

  /** A label/value Series as (label, value) pairs, row by row. */
  function Zip(labels: seq<string>, values: seq<string>): seq<(string, string)>
  {
    var n := if |labels| <= |values| then |labels| else |values|;
    seq(n, k requires 0 <= k < n => (labels[k], values[k]))
  }

  /** dict.update with the pairs, in order. */
  function Update(m: map<string, string>, ps: seq<(string, string)>): map<string, string>
    decreases |ps|
  {
    if ps == [] then m else Update(m[ps[0].0 := ps[0].1], ps[1..])
  }

  /**
   * The loop over df_list, continuing from acc: each half updates the map,
   * and a half without a value row raises.
   */
  function MergeFrom(acc: map<string, string>, hs: seq<Half>): Option<map<string, string>>
    decreases |hs|
  {
    if hs == [] then Some(acc)
    else if hs[0].values.None? then None
    else MergeFrom(Update(acc, Zip(hs[0].labels, hs[0].values.value)), hs[1..])
  }

  /** The value under a label, or the sentinel. */
  function Lookup(m: map<string, string>, key: string): string
  {
    if key in m then m[key] else NotAvailable
  }

  /** The final dict comprehension: every schema field, under its title-cased label. */
  function Project(m: map<string, string>): (r: seq<(string, string)>)
    ensures |r| == |Columns|
    ensures forall k :: 0 <= k < |r| ==> r[k].0 == Columns[k]
    ensures forall k :: 0 <= k < |r| ==>
      (Title(Columns[k]) in m ==> r[k].1 == m[Title(Columns[k])]) &&
      (Title(Columns[k]) !in m ==> r[k].1 == NotAvailable)
  {
    seq(|Columns|, k requires 0 <= k < |Columns| => (Columns[k], Lookup(m, Title(Columns[k]))))
  }

  /**
   * Page labels are compared exactly with the title-cased schema name: a page
   * labelling the field "Status" fills STATUS, one labelling it "STATUS" does not.
   */
  lemma LabelsMatchExactly()
    ensures Project(map["Status" := "Valid"])[0] == (StatusColumn, "Valid")
    ensures Project(map["STATUS" := "Valid"])[0] == (StatusColumn, NotAvailable)
  {
    assert Title(Columns[0]) == "Status";
  }

  /**
   * process_record on the result of fetching and parsing one page: a failed
   * request gives no fields, otherwise the merged tables projected onto the
   * schema, or Raised when reading the tables raises.
   */
  function Extract(page: Option<seq<ParsedTable>>): (r: Outcome)
    ensures page.None? ==> r == Fields([])
    ensures r.Fields? && page.Some? ==> |r.pairs| == |Columns|
    ensures r.Fields? ==> forall k :: 0 <= k < |r.pairs| ==> r.pairs[k].0 == Columns[k]
  {
    match page
    case None => Fields([])
    case Some(data) =>
      match SelectTables(data)
      case None => Raised
      case Some(used) =>
        match MergeFrom(map[], HalvesOf(used))
        case None => Raised
        case Some(m) => Fields(Project(m))
  }

  /** process_record, with the two accumulating loops of the source. */
  method ProcessRecord(page: Option<seq<ParsedTable>>) returns (out: Outcome)
    ensures out == Extract(page)
  {
    if page.None? {
      return Fields([]);
    }
    var data := page.value;
    var count := TableCount(|data|);
    var dfList: seq<Half> := [];
    var i := 0;
    while i < count
      invariant 0 <= i <= count
      invariant i > 0 ==> count <= |data|
      invariant dfList == HalvesOf(data[..i])
    {
      if i >= |data| {
        return Raised;
      }
      var df := ProcessDataframe(data[i]);
      assert data[..i + 1][..i] == data[..i];
      if df.Some? {
        dfList := dfList + df.value;
      }
      i := i + 1;
    }
    var dataDict: map<string, string> := map[];
    var j := 0;
    while j < |dfList|
      invariant 0 <= j <= |dfList|
      invariant MergeFrom(dataDict, dfList[j..]) == MergeFrom(map[], dfList)
    {
      assert dfList[j..][1..] == dfList[j + 1..];
      if dfList[j].values.None? {
        return Raised;
      }
      dataDict := Update(dataDict, Zip(dfList[j].labels, dfList[j].values.value));
      j := j + 1;
    }
    out := Fields(Project(dataDict));
  }

  /** The pairs one half contributes; a half without values contributes none. */
  function PairsOf(h: Half): seq<(string, string)>
  {
    if h.values.Some? then Zip(h.labels, h.values.value) else []
  }

  /** All pairs of a list of halves, in df_list order. */
  function Flat(hs: seq<Half>): seq<(string, string)>
    decreases |hs|
  {
    if hs == [] then [] else PairsOf(hs[0]) + Flat(hs[1..])
  }

  /** Every half has a value row, so reading row 0 of each succeeds. */
  predicate AllValued(hs: seq<Half>)
  {
    forall k :: 0 <= k < |hs| ==> hs[k].values.Some?
  }

  /** Tables are processed independently: the halves of a concatenation concatenate. */
  lemma {:induction false} HalvesOfAppend(a: seq<ParsedTable>, b: seq<ParsedTable>)
    ensures HalvesOf(a + b) == HalvesOf(a) + HalvesOf(b)
    decreases |b|
  {
    if b == [] {
      assert a + b == a;
    } else {
      var b' := b[..|b| - 1];
      assert (a + b)[..|a + b| - 1] == a + b';
      assert (a + b)[|a + b| - 1] == b[|b| - 1];
      HalvesOfAppend(a, b');
    }
  }

  /**
   * A table process_dataframe rejects (fewer than three columns) loses both
   * of its halves, and the tables around it still contribute theirs.
   */
  lemma FailedTableIsDropped(a: seq<ParsedTable>, t: ParsedTable, b: seq<ParsedTable>)
    requires |t| < 3
    ensures HalvesOf(a + [t] + b) == HalvesOf(a) + HalvesOf(b)
  {
    assert [t][..0] == [];
    assert HalvesOf([t]) == [];
    HalvesOfAppend(a, [t]);
    HalvesOfAppend(a + [t], b);
  }

  /** A table of four or more columns pairs column 0 with column 1 and column 2 with column 3. */
  lemma WideTableHalves(t: ParsedTable)
    requires |t| >= 4
    ensures Flat(HalvesOf([t])) == Zip(t[0], t[1]) + Zip(t[2], t[3])
  {
    assert [t][..0] == [] && [t][0] == t;
    var hs := HalvesOf([t]);
    assert hs == HalvesOf([]) + ProcessDataframe(t).value;
    assert hs == [Half(t[0], Some(t[1])), Half(t[2], Some(t[3]))];
    assert hs[1..][1..] == [];
    assert Flat(hs[1..]) == PairsOf(hs[1]) + Flat(hs[1..][1..]);
  }

  /** Updating with two lists in a row is updating with their concatenation. */
  lemma {:induction false} UpdateAppend(m: map<string, string>, p: seq<(string, string)>, q: seq<(string, string)>)
    ensures Update(m, p + q) == Update(Update(m, p), q)
    decreases |p|
  {
    if p == [] {
      assert p + q == q;
    } else {
      assert (p + q)[0] == p[0];
      assert (p + q)[1..] == p[1..] + q;
      UpdateAppend(m[p[0].0 := p[0].1], p[1..], q);
    }
  }

  /** A key no pair names keeps its entry, or stays absent. */
  lemma {:induction false} UpdateKeeps(m: map<string, string>, ps: seq<(string, string)>, key: string)
    requires forall k :: 0 <= k < |ps| ==> ps[k].0 != key
    ensures key in Update(m, ps) <==> key in m
    ensures key in m ==> Update(m, ps)[key] == m[key]
    decreases |ps|
  {
    if ps != [] {
      assert forall k :: 0 <= k < |ps[1..]| ==> ps[1..][k] == ps[k + 1];
      UpdateKeeps(m[ps[0].0 := ps[0].1], ps[1..], key);
    }
  }

  /** dict.update keeps the last value given for a key. */
  lemma {:induction false} UpdateLastWins(m: map<string, string>, ps: seq<(string, string)>, k: nat)
    requires k < |ps|
    requires forall k' :: k < k' < |ps| ==> ps[k'].0 != ps[k].0
    ensures ps[k].0 in Update(m, ps) && Update(m, ps)[ps[k].0] == ps[k].1
    decreases |ps|
  {
    var m' := m[ps[0].0 := ps[0].1];
    assert forall j :: 0 <= j < |ps[1..]| ==> ps[1..][j] == ps[j + 1];
    if k == 0 {
      UpdateKeeps(m', ps[1..], ps[0].0);
    } else {
      UpdateLastWins(m', ps[1..], k - 1);
    }
  }

  /**
   * The merge loop raises exactly when some half has no value row, and
   * otherwise updates the map with every pair of every half, in order.
   */
  lemma {:induction false} MergeFromFlat(acc: map<string, string>, hs: seq<Half>)
    ensures MergeFrom(acc, hs).Some? <==> AllValued(hs)
    ensures AllValued(hs) ==> MergeFrom(acc, hs) == Some(Update(acc, Flat(hs)))
    decreases |hs|
  {
    if hs != [] {
      assert forall k :: 0 <= k < |hs[1..]| ==> hs[1..][k] == hs[k + 1];
      if hs[0].values.Some? {
        var acc' := Update(acc, Zip(hs[0].labels, hs[0].values.value));
        MergeFromFlat(acc', hs[1..]);
        UpdateAppend(acc, PairsOf(hs[0]), Flat(hs[1..]));
      }
    }
  }

  /** When at most two tables are parsed only the first one is read. */
  lemma ExtractReadsFirstTable(data: seq<ParsedTable>)
    requires 1 <= |data| <= 2
    ensures Extract(Some(data)) == Extract(Some(data[..1]))
  {
  }

  /** When three or more tables are parsed only the first three are read. */
  lemma ExtractReadsFirstThree(data: seq<ParsedTable>)
    requires |data| >= 3
    ensures Extract(Some(data)) == Extract(Some(data[..3]))
  {
    assert data[..3][..3] == data[..3];
  }

  /**
   * The projection of the merged pairs: field f holds the value of the last
   * pair labelled with its title, or "N/A" when no pair is.
   */
  lemma ProjectMerged(ps: seq<(string, string)>, f: nat)
    requires f < |Columns|
    ensures var r := Project(Update(map[], ps));
      && ((forall k :: 0 <= k < |ps| ==> ps[k].0 != Title(Columns[f])) ==> r[f].1 == NotAvailable)
      && (forall k :: (0 <= k < |ps| && ps[k].0 == Title(Columns[f]) &&
            (forall k' :: k < k' < |ps| ==> ps[k'].0 != Title(Columns[f]))) ==> r[f].1 == ps[k].1)
  {
    var key := Title(Columns[f]);
    if forall k :: 0 <= k < |ps| ==> ps[k].0 != key {
      UpdateKeeps(map[], ps, key);
    }
    forall k | 0 <= k < |ps| && ps[k].0 == key && (forall k' :: k < k' < |ps| ==> ps[k'].0 != key)
      ensures key in Update(map[], ps) && Update(map[], ps)[key] == ps[k].1
    {
      UpdateLastWins(map[], ps, k);
    }
  }

  /**
   * A page whose selected tables all read cleanly yields every schema field,
   * each taken from the merged pairs of those tables.
   */
  lemma ExtractClean(data: seq<ParsedTable>)
    requires data != []
    requires AllValued(HalvesOf(SelectTables(data).value))
    ensures Extract(Some(data)) == Fields(Project(Update(map[], Flat(HalvesOf(SelectTables(data).value)))))
  {
    MergeFromFlat(map[], HalvesOf(SelectTables(data).value));
  }

  /**
   * process_record raises on a fetched page exactly when read_html finds no
   * table (the empty list) or one of the halves it reads has no value row (a
   * three-column table).
   */
  lemma ExtractRaises(data: seq<ParsedTable>)
    ensures Extract(Some(data)).Raised? <==>
      data == [] || !AllValued(HalvesOf(SelectTables(data).value))
  {
    if data != [] {
      MergeFromFlat(map[], HalvesOf(SelectTables(data).value));
    }
  }
}
