/** Concrete tables and documents, each with the outcome the program
    produces for it. */
module Scenarios {
  import opened Results
  import opened Html
  import opened TableLocator
  import opened MetadataDecoder
  import opened StationReport

  function Key(k: string): Node {
    Element("td", [Element("b", [Text(k)])])
  }

  function Value(v: string): Node {
    Element("td", [Text(v)])
  }

  function Row(cells: seq<Node>): Node {
    Element("tr", cells)
  }

  function Table(rows: seq<Node>): Node {
    Element("table", [Element("tbody", rows)])
  }

  /** One key and one value per row. */
  lemma TwoRows()
    ensures ParseMetadataTable(Table([Row([Key("A"), Value("1")]), Row([Key("B"), Value("2")])]))
      == Ok(map["A" := "1", "B" := "2"])
  {
  }

  /** Two values after one key: the second overwrites the first. */
  lemma LastValueWins()
    ensures ParseMetadataTable(Table([Row([Key("A"), Value("1"), Value("2")])]))
      == Ok(map["A" := "2"])
  {
    var row := [Key("A"), Value("1"), Value("2")];
    var st := DecodeState("A", map["A" := "1"]);
    assert st.data["A" := "2"] == map["A" := "2"];
    assert DecodeCells(st, row[2..]) == Ok(DecodeState("A", map["A" := "2"]));
    assert DecodeCells(Start, row) == DecodeCells(st, row[2..]);
  }

  /** A value before any key is stored under the empty key, and a key set in
      one row still applies in the next. */
  lemma ValueBeforeKeyAndKeyAcrossRows()
    ensures ParseMetadataTable(Table([Row([Value("x"), Key("A")]), Row([Value("1")])]))
      == Ok(map["" := "x", "A" := "1"])
  {
  }

  /** A key cell with no value after it adds no entry. */
  lemma DanglingKey()
    ensures ParseMetadataTable(Table([Row([Key("A"), Value("1"), Key("B")])]))
      == Ok(map["A" := "1"])
  {
  }

  /** A table without a `tbody` child, and cells without content. */
  lemma MalformedTables()
    ensures ParseMetadataTable(Element("table", [Row([Key("A"), Value("1")])])) == Err(NoBody)
    ensures ParseMetadataTable(Table([Row([Key("A"), Element("td", [])])])) == Err(EmptyCell)
    ensures ParseMetadataTable(Table([Row([Element("td", [Element("b", [])])])])) == Err(EmptyBold)
  {
  }

  /** A page with no table reports the station as not found. */
  lemma NoTableNotFound()
    ensures LookupStation(Element("html", [Element("body", [Text("no such station")])]))
      == Err(StationNotFound)
  {
  }

  /** A table nested in another comes after it. */
  lemma NestedTableAfterAncestor()
    ensures var inner := Table([]);
      var outer := Element("table", [Element("tbody", [Row([Element("td", [inner])])])]);
      FindTables(Element("html", [outer, Text("end")])) == [outer, inner]
  {
    var inner := Table([]);
    var td := Element("td", [inner]);
    var tr := Row([td]);
    var body := Element("tbody", [tr]);
    var outer := Element("table", [body]);
    var doc := Element("html", [outer, Text("end")]);
    assert FindTables(inner) == [inner];
    assert FindTablesFrom(td, 1) == [];
    assert FindTables(td) == [inner];
    assert FindTablesFrom(tr, 1) == [];
    assert FindTables(tr) == [inner];
    assert FindTablesFrom(body, 1) == [];
    assert FindTables(body) == [inner];
    assert FindTablesFrom(outer, 1) == [];
    assert FindTables(outer) == [outer, inner];
    assert FindTables(Text("end")) == [];
    assert FindTablesFrom(doc, 1) == [];
  }
}
