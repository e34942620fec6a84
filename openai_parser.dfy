/** The part of the language-model parser that does not talk to the model
    (db/parsers/openai.py): turning a sheet row into the dictionary sent to the model,
    keyed by the header row, and keeping the rows the model managed to parse. */
module OpenAiParser {
  import opened Outcomes
  import opened Strings
  import opened DbTypes
  import opened ExcelParser

  /** `f"Unnamed column {idx}"`. */
  function UnnamedColumn(idx: nat): (r: string)
    ensures |r| > 15 && r[..15] == "Unnamed column "
    ensures r[15..] == NatToString(idx)
  {
    "Unnamed column " + NatToString(idx)
  }

  /** Different positions give different placeholder keys. */
  lemma UnnamedColumnInjective(i: nat, j: nat)
    requires UnnamedColumn(i) == UnnamedColumn(j)
    ensures i == j
  {
    assert NatToString(i) == UnnamedColumn(i)[15..];
    NatToStringInjective(i, j);
  }

  /** The key of the cell at position `idx`: the header's `str()` when the header row has
      a truthy cell there, and the placeholder otherwise, a missing header included. */
  function ColumnKey(headers: Row, idx: nat): (r: string)
    ensures idx < |headers| && Truthy(headers[idx]) ==> r == Str(headers[idx])
    ensures !(idx < |headers| && Truthy(headers[idx])) ==> r == UnnamedColumn(idx)
  {
    if idx < |headers| && Truthy(headers[idx]) then Str(headers[idx]) else UnnamedColumn(idx)
  }

  /** The value stored for a cell: its `str()` when truthy, "Empty" otherwise. */
  function CellText(v: CellValue): (r: string)
    ensures Truthy(v) ==> r == Str(v)
    ensures !Truthy(v) ==> r == "Empty"
  {
    if Truthy(v) then Str(v) else "Empty"
  }

  /** The dictionary after the first `n` cells of the row have been stored, each under its
      column's key, a later cell overwriting an earlier one with the same key. */
  function RowDict(headers: Row, row: Row, n: nat): map<string, string>
    requires n <= |row|
  {
    if n == 0 then map[]
    else RowDict(headers, row, n - 1)[ColumnKey(headers, n - 1) := CellText(row[n - 1])]
  }

  /** Every stored cell's key is in the dictionary. */
  lemma {:induction false} RowDictHasKey(headers: Row, row: Row, n: nat, i: nat)
    requires i < n <= |row|
    ensures ColumnKey(headers, i) in RowDict(headers, row, n)
  {
    var prev := RowDict(headers, row, n - 1);
    assert RowDict(headers, row, n) == prev[ColumnKey(headers, n - 1) := CellText(row[n - 1])];
    if i < n - 1 {
      RowDictHasKey(headers, row, n - 1, i);
      assert ColumnKey(headers, i) in prev;
    }
  }

  /** Every key of the dictionary is the key of some stored cell. */
  lemma {:induction false} RowDictKeyFromCell(headers: Row, row: Row, n: nat, k: string)
    requires n <= |row| && k in RowDict(headers, row, n)
    ensures exists i :: 0 <= i < n && ColumnKey(headers, i) == k
  {
    if k != ColumnKey(headers, n - 1) {
      RowDictKeyFromCell(headers, row, n - 1, k);
      var i :| 0 <= i < n - 1 && ColumnKey(headers, i) == k;
    }
  }

  /** A key that no stored cell has is not in the dictionary. */
  lemma {:induction false} RowDictFreshKey(headers: Row, row: Row, n: nat, k: string)
    requires n <= |row|
    requires forall i :: 0 <= i < n ==> ColumnKey(headers, i) != k
    ensures k !in RowDict(headers, row, n)
  {
    if n > 0 {
      RowDictFreshKey(headers, row, n - 1, k);
    }
  }

  /** Each cell adds at most one key, so there are at most as many keys as cells. */
  lemma {:induction false} RowDictSizeBound(headers: Row, row: Row, n: nat)
    requires n <= |row|
    ensures |RowDict(headers, row, n)| <= n
  {
    if n > 0 {
      RowDictSizeBound(headers, row, n - 1);
      var prev := RowDict(headers, row, n - 1);
      var key := ColumnKey(headers, n - 1);
      if key in prev {
        assert prev[key := CellText(row[n - 1])].Keys == prev.Keys;
      } else {
        assert prev[key := CellText(row[n - 1])].Keys == prev.Keys + {key};
      }
    }
  }

  /** The value under the key of cell `i` is that cell's text unless a later cell among the
      first `n` has the same key: the last cell with a given key wins. */
  lemma {:induction false} RowDictLastWins(headers: Row, row: Row, n: nat, i: nat)
    requires i < n <= |row|
    requires forall j :: i < j < n ==> ColumnKey(headers, j) != ColumnKey(headers, i)
    ensures ColumnKey(headers, i) in RowDict(headers, row, n)
    ensures RowDict(headers, row, n)[ColumnKey(headers, i)] == CellText(row[i])
  {
    var prev := RowDict(headers, row, n - 1);
    var key, last := ColumnKey(headers, n - 1), ColumnKey(headers, i);
    assert RowDict(headers, row, n) == prev[key := CellText(row[n - 1])];
    if i < n - 1 {
      RowDictLastWins(headers, row, n - 1, i);
      assert key != last;
    }
  }

  /** When no two cells share a key, there is one entry per cell, each holding its cell's
      text. */
  lemma RowDictDistinctKeys(headers: Row, row: Row)
    requires forall i, j :: 0 <= i < j < |row| ==> ColumnKey(headers, i) != ColumnKey(headers, j)
    ensures |RowDict(headers, row, |row|)| == |row|
    ensures forall i :: 0 <= i < |row| ==>
              ColumnKey(headers, i) in RowDict(headers, row, |row|)
              && RowDict(headers, row, |row|)[ColumnKey(headers, i)] == CellText(row[i])
  {
    forall i | 0 <= i < |row|
      ensures ColumnKey(headers, i) in RowDict(headers, row, |row|)
      ensures RowDict(headers, row, |row|)[ColumnKey(headers, i)] == CellText(row[i])
    {
      RowDictLastWins(headers, row, |row|, i);
    }
    RowDictSize(headers, row, |row|);
  }

  /** With pairwise different keys, every stored cell adds an entry. */
  lemma {:induction false} RowDictSize(headers: Row, row: Row, n: nat)
    requires n <= |row|
    requires forall i, j :: 0 <= i < j < |row| ==> ColumnKey(headers, i) != ColumnKey(headers, j)
    ensures |RowDict(headers, row, n)| == n
  {
    if n > 0 {
      RowDictSize(headers, row, n - 1);
      var prev := RowDict(headers, row, n - 1);
      var key := ColumnKey(headers, n - 1);
      RowDictFreshKey(headers, row, n - 1, key);
      assert prev[key := CellText(row[n - 1])].Keys == prev.Keys + {key};
    }
  }

  /** `_format_row_to_dict`, with the header test `idx < len(headers)` that its docstring
      describes: a row longer than the header row gets placeholder keys for the extra
      cells. */
  method FormatRowToDict(row: Row, headers: Row) returns (result: map<string, string>)
    ensures result == RowDict(headers, row, |row|)
  {
    result := map[];
    for idx := 0 to |row|
      invariant result == RowDict(headers, row, idx)
    {
      var key: string;
      if idx < |headers| && Truthy(headers[idx]) {
        key := Str(headers[idx]);
      } else {
        key := UnnamedColumn(idx);
      }
      var r := row[idx];
      result := result[key := if Truthy(r) then Str(r) else "Empty"];
    }
  }

  /** The key test of `_format_row_to_dict` as written: `len(headers) >= idx` lets the
      position just past the header row through, where `headers[idx]` raises IndexError. */
  function ColumnKeyAsWritten(headers: Row, idx: nat): (r: Result<string>)
    ensures r.Err? <==> idx == |headers|
    ensures r.Ok? ==> r.value == ColumnKey(headers, idx)
  {
    if |headers| >= idx then
      if idx == |headers| then Err(IndexError)
      else if Truthy(headers[idx]) then Ok(Str(headers[idx]))
      else Ok(UnnamedColumn(idx))
    else Ok(UnnamedColumn(idx))
  }

  /** The loop of `_format_row_to_dict` as written, after the first `n` cells. */
  function RowDictAsWritten(headers: Row, row: Row, n: nat): Result<map<string, string>>
    requires n <= |row|
  {
    if n == 0 then Ok(map[])
    else
      match RowDictAsWritten(headers, row, n - 1)
      case Err(e) => Err(e)
      case Ok(prev) =>
        match ColumnKeyAsWritten(headers, n - 1)
        case Err(e) => Err(e)
        case Ok(key) => Ok(prev[key := CellText(row[n - 1])])
  }

  /** The code as written fails exactly on rows with more cells than the header row, and
      agrees with the corrected dictionary on all others. */
  lemma {:induction false} AsWrittenFailsOnLongRows(headers: Row, row: Row, n: nat)
    requires n <= |row|
    ensures RowDictAsWritten(headers, row, n).Err? <==> n > |headers|
    ensures RowDictAsWritten(headers, row, n).Err? ==>
              RowDictAsWritten(headers, row, n) == Err(IndexError)
    ensures n <= |headers| ==> RowDictAsWritten(headers, row, n) == Ok(RowDict(headers, row, n))
  {
    if n > 0 {
      AsWrittenFailsOnLongRows(headers, row, n - 1);
    }
  }

  /** A header row with one cell and a data row with two. */
  const ShortHeaders: Row := [Text("Q")]
  const TwoCellRow: Row := [Text("x"), Text("y")]

  /** As written, the longer row raises IndexError; corrected, its second cell is stored
      under "Unnamed column 1". */
  lemma LongRowCounterexample()
    ensures RowDictAsWritten(ShortHeaders, TwoCellRow, 2) == Err(IndexError)
    ensures RowDict(ShortHeaders, TwoCellRow, 2) == map["Q" := "x", "Unnamed column 1" := "y"]
  {
    AsWrittenFailsOnLongRows(ShortHeaders, TwoCellRow, 2);
    assert NatToString(1) == "1";
    assert UnnamedColumn(1) == "Unnamed column 1";
  }

  /** `[r for r in raw_results if r is not None]`. */
  function KeepParsed(raw: seq<Option<ProcessedRow>>): (r: seq<ProcessedRow>)
    ensures |r| <= |raw|
  {
    if raw == [] then []
    else (if raw[0].Some? then [raw[0].value] else []) + KeepParsed(raw[1..])
  }

  /** The rows kept are exactly the parsed ones, each as often as it was parsed, in the
      order of the results. */
  lemma {:induction false} KeepParsedMultiset(raw: seq<Option<ProcessedRow>>, p: ProcessedRow)
    ensures multiset(KeepParsed(raw))[p] == multiset(raw)[Some(p)]
  {
    if raw != [] {
      var head := if raw[0].Some? then [raw[0].value] else [];
      KeepParsedMultiset(raw[1..], p);
      assert raw == [raw[0]] + raw[1..];
      assert multiset(raw)[Some(p)] == multiset{raw[0]}[Some(p)] + multiset(raw[1..])[Some(p)];
      assert multiset(KeepParsed(raw)) == multiset(head) + multiset(KeepParsed(raw[1..]));
      assert multiset(head)[p] == multiset{raw[0]}[Some(p)];
    }
  }

  /** A row is kept exactly when some result parsed to it. */
  lemma KeepParsedMembers(raw: seq<Option<ProcessedRow>>, p: ProcessedRow)
    ensures p in KeepParsed(raw) <==> Some(p) in raw
  {
    KeepParsedMultiset(raw, p);
  }

  /** Keeping commutes with splitting the results, so the kept rows come in the order of
      the results. */
  lemma {:induction false} KeepParsedAppend(a: seq<Option<ProcessedRow>>, b: seq<Option<ProcessedRow>>)
    ensures KeepParsed(a + b) == KeepParsed(a) + KeepParsed(b)
  {
    if a == [] {
      assert a + b == b;
    } else {
      var head := if a[0].Some? then [a[0].value] else [];
      assert (a + b)[0] == a[0];
      assert (a + b)[1..] == a[1..] + b;
      assert KeepParsed(a + b) == head + KeepParsed(a[1..] + b);
      KeepParsedAppend(a[1..], b);
      calc {
        KeepParsed(a + b);
        head + (KeepParsed(a[1..]) + KeepParsed(b));
        { assert head + (KeepParsed(a[1..]) + KeepParsed(b)) == (head + KeepParsed(a[1..])) + KeepParsed(b); }
        (head + KeepParsed(a[1..])) + KeepParsed(b);
        KeepParsed(a) + KeepParsed(b);
      }
    }
  }
}
