/**
 * The report half of `bom_export.py`'s `main`: the output file name, the
 * line numbers given to the grouped items, and the tab-separated text with
 * one header line and one line per item.
 */
module BomReport {
  import opened Text
  import opened StableSort
  import opened Dicts
  import opened Results

  // ---------------------------------------------------------------------------
  // The output path

  /** `p[-4:]`: the last four characters, or all of a shorter text. */
  function Last4(p: string): (t: string)
    ensures |t| == if |p| < 4 then |p| else 4
    ensures p == p[..|p| - |t|] + t
  {
    if |p| < 4 then p else p[|p| - 4..]
  }

  /** `.txt` is appended unless the name already ends in it, in any case. */
  function TxtPath(p: string): string
  {
    if Lower(Last4(p)) != ".txt" then p + ".txt" else p
  }

  lemma LowerTxt()
    ensures Lower(".txt") == ".txt"
  {
    var t := Lower(".txt");
    assert t[0] == '.' && t[1] == 't' && t[2] == 'x' && t[3] == 't';
  }

  /**
   * The output name always ends in `.txt` (in some case), begins with the
   * name given, and equals it exactly when that already ends in `.txt`.
   */
  lemma TxtPathSuffix(p: string)
    ensures Lower(Last4(TxtPath(p))) == ".txt"
    ensures StartsWith(TxtPath(p), p)
    ensures TxtPath(p) == p <==> Lower(Last4(p)) == ".txt"
  {
    if Lower(Last4(p)) != ".txt" {
      var q := p + ".txt";
      assert Last4(q) == ".txt";
      LowerTxt();
      assert q[..|p|] == p;
    }
  }

  /** Fixing up a name that has already been fixed up changes nothing. */
  lemma TxtPathIdempotent(p: string)
    ensures TxtPath(TxtPath(p)) == TxtPath(p)
  {
    TxtPathSuffix(p);
  }

  // ---------------------------------------------------------------------------
  // Line numbers

  /** `line_items[count]['bom_index'] = str(count + 1)` for every item. */
  method NumberItems(items: array<Dict>)
    modifies items
    ensures forall k :: 0 <= k < items.Length ==> items[k] == Set(old(items[k]), "bom_index", Dec(k + 1))
  {
    var count := 0;
    while count < items.Length
      invariant 0 <= count <= items.Length
      invariant forall k :: 0 <= k < count ==> items[k] == Set(old(items[k]), "bom_index", Dec(k + 1))
      invariant forall k :: count <= k < items.Length ==> items[k] == old(items[k])
    {
      items[count] := Set(items[count], "bom_index", Dec(count + 1));
      count := count + 1;
    }
  }

  /**
   * After numbering, item `k` reads `k + 1` as its line number, no two items
   * share a number, and every other field is as it was.
   */
  lemma NumberedItems(items: seq<Dict>, numbered: seq<Dict>)
    requires |numbered| == |items|
    requires forall k :: 0 <= k < |items| ==> numbered[k] == Set(items[k], "bom_index", Dec(k + 1))
    ensures forall k :: 0 <= k < |items| ==>
      Get(numbered[k], "bom_index").Some? && AllDigits(Get(numbered[k], "bom_index").value) &&
      Value(Get(numbered[k], "bom_index").value) == k + 1
    ensures forall j, k :: 0 <= j < k < |items| ==> Get(numbered[j], "bom_index") != Get(numbered[k], "bom_index")
    ensures forall k, key :: 0 <= k < |items| && key != "bom_index" ==> Get(numbered[k], key) == Get(items[k], key)
  {
    forall k | 0 <= k < |items|
      ensures Get(numbered[k], "bom_index") == Some(Dec(k + 1)) && Value(Dec(k + 1)) == k + 1
    {
      ValueDec(k + 1);
    }
    forall j, k | 0 <= j < k < |items| ensures Get(numbered[j], "bom_index") != Get(numbered[k], "bom_index") {
      ValueDec(j + 1);
      ValueDec(k + 1);
    }
  }

  // ---------------------------------------------------------------------------
  // Columns and cells

  /** A column: its heading and the keys tried in turn for its value. */
  type Column = (string, seq<string>)

  const Columns: seq<Column> := [
    ("Line Item", ["bom_index"]),
    ("Quantity", ["quantity"]),
    ("Reference Designator", ["refdes"]),
    ("Description", ["Description", "value"]),
    ("Value", ["value"]),
    ("Manufacturer", ["Manufacturer"]),
    ("Manufacturer", ["Manufacturer PN"]),
    ("Footprint", ["footprint"])
  ]

  /** A column's value for a line: the value of the first of its keys the line has, else empty. */
  function Cell(line: Dict, keys: seq<string>): string
    decreases |keys|
  {
    if keys == [] then ""
    else
      match Get(line, keys[0])
      case Some(v) => v
      case None => Cell(line, keys[1..])
  }

  /** A cell is empty when the line has none of the column's keys, and otherwise holds the value of the first it has. */
  lemma {:induction false} CellFirst(line: Dict, keys: seq<string>)
    ensures (forall j :: 0 <= j < |keys| ==> !HasKey(line, keys[j])) ==> Cell(line, keys) == ""
    ensures forall j :: 0 <= j < |keys| && HasKey(line, keys[j]) && (forall i :: 0 <= i < j ==> !HasKey(line, keys[i])) ==>
      Get(line, keys[j]) == Some(Cell(line, keys))
    decreases |keys|
  {
    if keys != [] {
      var rest := keys[1..];
      CellFirst(line, rest);
      if HasKey(line, keys[0]) {
        forall j | 0 <= j < |keys| && HasKey(line, keys[j]) && (forall i :: 0 <= i < j ==> !HasKey(line, keys[i]))
          ensures Get(line, keys[j]) == Some(Cell(line, keys))
        {
          assert j == 0;
        }
      } else {
        assert Cell(line, keys) == Cell(line, rest);
        if forall j :: 0 <= j < |keys| ==> !HasKey(line, keys[j]) {
          forall j | 0 <= j < |rest| ensures !HasKey(line, rest[j]) {
            assert rest[j] == keys[j + 1];
          }
        }
        forall j | 0 <= j < |keys| && HasKey(line, keys[j]) && (forall i :: 0 <= i < j ==> !HasKey(line, keys[i]))
          ensures Get(line, keys[j]) == Some(Cell(line, keys))
        {
          assert j > 0 && rest[j - 1] == keys[j];
          forall i | 0 <= i < j - 1 ensures !HasKey(line, rest[i]) {
            assert rest[i] == keys[i + 1];
          }
        }
      }
    }
  }

  /** The inner loop of the report: the first key present wins. */
  method CellOf(line: Dict, keys: seq<string>) returns (value: string)
    ensures value == Cell(line, keys)
  {
    value := "";
    var j := 0;
    while j < |keys|
      invariant 0 <= j <= |keys|
      invariant Cell(line, keys) == Cell(line, keys[j..])
      invariant value == ""
    {
      assert keys[j..][0] == keys[j];
      if HasKey(line, keys[j]) {
        value := Get(line, keys[j]).value;
        break;
      }
      assert keys[j..][1..] == keys[j + 1..];
      j := j + 1;
    }
  }

  /** The headings, in column order. */
  function Header(): (h: seq<string>)
    ensures |h| == |Columns| && forall j :: 0 <= j < |Columns| ==> h[j] == Columns[j].0
  {
    seq(|Columns|, j requires 0 <= j < |Columns| => Columns[j].0)
  }

  /** The cells of one line item, column by column. */
  function Row(line: Dict): (r: seq<string>)
    ensures |r| == |Columns| && forall j :: 0 <= j < |Columns| ==> r[j] == Cell(line, Columns[j].1)
  {
    seq(|Columns|, j requires 0 <= j < |Columns| => Cell(line, Columns[j].1))
  }

  /** Every column reads one key, except Description, which falls back to the value. */
  lemma RowCells(line: Dict)
    ensures |Row(line)| == 8
    ensures forall j :: 0 <= j < 8 && j != 3 ==>
      Row(line)[j] == match Get(line, Columns[j].1[0]) case Some(v) => v case None => ""
    ensures Row(line)[3] == match Get(line, "Description") case Some(v) => v case None =>
      match Get(line, "value") case Some(v) => v case None => ""
  {
    forall j | 0 <= j < 8 && j != 3
      ensures Row(line)[j] == match Get(line, Columns[j].1[0]) case Some(v) => v case None => ""
    {
      assert |Columns[j].1| == 1;
    }
    assert Columns[3].1 == ["Description", "value"];
  }

  // ---------------------------------------------------------------------------
  // The report text

  /** One line of the report: the item's cells, tab-separated. */
  function RowLine(line: Dict): string
  {
    Join(Row(line), "\t")
  }

  /** `result_lines`: the header, then one line per item. */
  function ReportLines(items: seq<Dict>): (ls: seq<string>)
    ensures |ls| == |items| + 1
  {
    [Join(Header(), "\t")] + MapSeq(RowLine, items)
  }

  /** What is written to the file and to standard output. */
  function Report(items: seq<Dict>): string
  {
    Join(ReportLines(items), "\n") + "\n"
  }

  lemma ReportLinesSnoc(items: seq<Dict>, i: nat)
    requires i < |items|
    ensures ReportLines(items[..i + 1]) == ReportLines(items[..i]) + [Join(Row(items[i]), "\t")]
  {
    assert items[..i + 1] == items[..i] + [items[i]];
    MapSeqSnoc(RowLine, items[..i], items[i]);
  }

  lemma ReportLinesEmpty(items: seq<Dict>)
    ensures ReportLines(items[..0]) == [Join(Header(), "\t")]
  {
    assert items[..0] == [];
  }

  lemma RowSnoc(line: Dict, f: nat)
    requires f < |Columns|
    ensures Row(line)[..f + 1] == Row(line)[..f] + [Cell(line, Columns[f].1)]
  {
  }

  lemma HeaderSnoc(f: nat)
    requires f < |Columns|
    ensures Header()[..f + 1] == Header()[..f] + [Columns[f].0]
  {
  }

  /** The report loop: each line item's cells, tab-joined, after the header line. */
  method RenderBom(lineItems: seq<Dict>) returns (result: string)
    ensures result == Report(lineItems)
  {
    var headings: seq<string> := [];
    var f := 0;
    while f < |Columns|
      invariant 0 <= f <= |Columns|
      invariant headings == Header()[..f]
    {
      HeaderSnoc(f);
      headings := headings + [Columns[f].0];
      f := f + 1;
    }
    assert headings == Header();
    ReportLinesEmpty(lineItems);
    var resultLines := [Join(headings, "\t")];
    var i := 0;
    while i < |lineItems|
      invariant 0 <= i <= |lineItems|
      invariant resultLines == ReportLines(lineItems[..i])
    {
      var line := lineItems[i];
      var values: seq<string> := [];
      f := 0;
      while f < |Columns|
        invariant 0 <= f <= |Columns|
        invariant values == Row(line)[..f]
      {
        var value := CellOf(line, Columns[f].1);
        RowSnoc(line, f);
        values := values + [value];
        f := f + 1;
      }
      assert values == Row(line);
      ReportLinesSnoc(lineItems, i);
      resultLines := resultLines + [Join(values, "\t")];
      i := i + 1;
    }
    assert lineItems[..i] == lineItems;
    result := Join(resultLines, "\n") + "\n";
  }

  /** No field value of the item holds a tab or a line break. */
  predicate Printable(line: Dict)
  {
    forall i :: 0 <= i < |line| ==> '\t' !in line[i].1 && '\n' !in line[i].1
  }

  lemma {:induction false} JoinFree(parts: seq<string>, sep: string, c: char)
    requires c !in sep && forall i :: 0 <= i < |parts| ==> c !in parts[i]
    ensures c !in Join(parts, sep)
    decreases |parts|
  {
    if |parts| > 1 {
      JoinFree(parts[1..], sep, c);
    }
  }

  lemma CellFree(line: Dict, keys: seq<string>)
    requires Printable(line)
    ensures '\t' !in Cell(line, keys) && '\n' !in Cell(line, keys)
    decreases |keys|
  {
    if keys != [] && Get(line, keys[0]).None? {
      CellFree(line, keys[1..]);
    }
  }

  /** No heading holds a tab or a line break. */
  lemma HeadingsClean()
    ensures forall j :: 0 <= j < |Header()| ==> '\t' !in Header()[j] && '\n' !in Header()[j]
  {
    forall j | 0 <= j < |Columns| ensures '\t' !in Columns[j].0 && '\n' !in Columns[j].0 {
    }
  }

  /** The header line splits back into the headings. */
  lemma HeaderParses()
    ensures '\n' !in Join(Header(), "\t")
    ensures Split(Join(Header(), "\t"), '\t') == Header()
  {
    HeadingsClean();
    JoinFree(Header(), "\t", '\n');
    SplitJoin(Header(), '\t');
  }

  /** An item's line splits back into its cells. */
  lemma RowParses(line: Dict)
    requires Printable(line)
    ensures '\n' !in Join(Row(line), "\t")
    ensures Split(Join(Row(line), "\t"), '\t') == Row(line)
  {
    var row := Row(line);
    forall j | 0 <= j < |row| ensures '\t' !in row[j] && '\n' !in row[j] {
      CellFree(line, Columns[j].1);
    }
    JoinFree(row, "\t", '\n');
    SplitJoin(row, '\t');
  }

  /**
   * The report reads back: split at line breaks (the final one dropped) it
   * gives one line more than there are items, the first splitting at tabs
   * into the headings and each other into its item's cells.
   */
  lemma ReportParses(items: seq<Dict>)
    requires forall k :: 0 <= k < |items| ==> Printable(items[k])
    ensures var text := Report(items);
      var lines := Split(text[..|text| - 1], '\n');
      |lines| == |items| + 1 &&
      Split(lines[0], '\t') == Header() &&
      forall k :: 0 <= k < |items| ==> Split(lines[k + 1], '\t') == Row(items[k])
  {
    var ls := ReportLines(items);
    HeaderParses();
    forall k | 0 <= k < |items|
      ensures '\n' !in ls[k + 1] && Split(ls[k + 1], '\t') == Row(items[k])
    {
      RowParses(items[k]);
    }
    var text := Report(items);
    assert text[..|text| - 1] == Join(ls, "\n");
    SplitJoin(ls, '\n');
  }
}
