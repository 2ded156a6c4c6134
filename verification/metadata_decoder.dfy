/** The metadata table decoder: reads a station-details table whose rows hold
    cells of two kinds. A cell whose first child is a `<b>` element names a
    key; any other cell holds a value for the key named last. The key in
    force starts as the empty string and is never reset between rows.

    The program dereferences missing nodes in three places and panics; the
    model reports each as an `Err` of its own (`DecodeError`). */
module MetadataDecoder {
  import opened Results
  import opened Html

  /** The three points where the program dereferences a missing node. */
  datatype DecodeError =
    | NoBody     // the table has no direct `tbody` child
    | EmptyCell  // a cell has no child
    | EmptyBold  // a cell's `<b>` has no child

  /** A cell after classification. */
  datatype Cell = KeyCell(key: string) | ValueCell(value: string)

  predicate IsBody(n: Node) {
    IsElement(n, "tbody")
  }

  predicate IsBold(n: Node) {
    IsElement(n, "b")
  }

  /** `b` is the first position among `cs` holding a `tbody` element. */
  predicate IsFirstBody(cs: seq<Node>, b: nat) {
    b < |cs| && IsBody(cs[b]) && forall j | 0 <= j < b :: !IsBody(cs[j])
  }

  /** Scan the children from position `i` for the first `tbody` element;
      the scan stops there. */
  function FirstBodyFrom(cs: seq<Node>, i: nat): (r: Option<nat>)
    requires i <= |cs|
    ensures r.Some? ==> i <= r.value < |cs| && IsBody(cs[r.value])
    ensures r.Some? ==> forall j | i <= j < r.value :: !IsBody(cs[j])
    ensures r.None? ==> forall j | i <= j < |cs| :: !IsBody(cs[j])
    decreases |cs| - i
  {
    if i == |cs| then None
    else if IsBody(cs[i]) then Some(i)
    else FirstBodyFrom(cs, i + 1)
  }

  /** A scan started at or before the first `tbody` stops exactly there. */
  lemma FirstBodyFromFinds(cs: seq<Node>, i: nat, b: nat)
    requires i <= b && IsFirstBody(cs, b)
    ensures FirstBodyFrom(cs, i) == Some(b)
  {
  }

  /** Classify one cell by its first child. A `<b>` yields a key cell keyed
      by the `data` of the `<b>`'s first child; anything else yields a value
      cell holding the first child's `data` (the text of a text node, the tag
      name of an element). */
  function ClassifyCell(td: Node): (r: Result<Cell, DecodeError>)
    ensures r == Err(EmptyCell) <==> td.children == []
    ensures r == Err(EmptyBold) <==>
      td.children != [] && IsBold(td.children[0]) && td.children[0].children == []
    ensures r != Err(NoBody)
    ensures r.Ok? && r.value.KeyCell? <==>
      td.children != [] && IsBold(td.children[0]) && td.children[0].children != []
    ensures r.Ok? && r.value.KeyCell? ==> r.value.key == td.children[0].children[0].data
    ensures r.Ok? && r.value.ValueCell? ==> r.value.value == td.children[0].data
  {
    if td.children == [] then Err(EmptyCell)
    else
      var first := td.children[0];
      if IsBold(first) then
        if first.children == [] then Err(EmptyBold)
        else Ok(KeyCell(first.children[0].data))
      else Ok(ValueCell(first.data))
  }

  // ---------------------------------------------------------------------
  // The two-state machine

  /** The key in force and the entries decoded so far. */
  datatype DecodeState = DecodeState(currentKey: string, data: map<string, string>)

  /** Before the first cell: the empty key and no entries. */
  const Start := DecodeState("", map[])

  /** One transition: a key cell replaces the key in force and leaves the
      entries alone; a value cell stores its value under the key in force,
      overwriting an earlier value, and keeps the key. */
  function Apply(st: DecodeState, c: Cell): (r: DecodeState)
    ensures c.KeyCell? ==> r.currentKey == c.key && r.data == st.data
    ensures c.ValueCell? ==> r.currentKey == st.currentKey
    ensures c.ValueCell? ==> r.data.Keys == st.data.Keys + {st.currentKey}
    ensures c.ValueCell? ==> r.data[st.currentKey] == c.value
    ensures forall k | k in st.data && (c.KeyCell? || k != st.currentKey) :: r.data[k] == st.data[k]
  {
    match c
    case KeyCell(k) => st.(currentKey := k)
    case ValueCell(v) => st.(data := st.data[st.currentKey := v])
  }

  /** The cells of one row, in order, each classified then applied; the
      first malformed cell stops the decode. */
  function DecodeCells(st: DecodeState, tds: seq<Node>): Result<DecodeState, DecodeError>
    decreases |tds|
  {
    if tds == [] then Ok(st)
    else
      var c :- ClassifyCell(tds[0]);
      DecodeCells(Apply(st, c), tds[1..])
  }

  /** The rows of the body, in order, with the state carried from row to row. */
  function DecodeRows(st: DecodeState, trs: seq<Node>): Result<DecodeState, DecodeError>
    decreases |trs|
  {
    if trs == [] then Ok(st)
    else
      var st' :- DecodeCells(st, trs[0].children);
      DecodeRows(st', trs[1..])
  }

  /** Decode a metadata table: find its first direct `tbody` child, then run
      the state machine over every cell of every row of it. */
  function ParseMetadataTable(table: Node): Result<map<string, string>, DecodeError>
  {
    match FirstBodyFrom(table.children, 0)
    case None => Err(NoBody)
    case Some(b) =>
      var st :- DecodeRows(Start, table.children[b].children);
      Ok(st.data)
  }

  // ---------------------------------------------------------------------
  // Reference definitions

  /** Every child of every row, rows in order and children in order. */
  function CellsOf(trs: seq<Node>): seq<Node>
    decreases |trs|
  {
    if trs == [] then [] else trs[0].children + CellsOf(trs[1..])
  }

  /** Classify all cells up front; the first malformed one decides the error. */
  function ClassifyAll(tds: seq<Node>): (r: Result<seq<Cell>, DecodeError>)
    ensures r.Ok? <==> forall j | 0 <= j < |tds| :: ClassifyCell(tds[j]).Ok?
    ensures r.Ok? ==> |r.value| == |tds|
    ensures r.Ok? ==> forall j | 0 <= j < |tds| :: ClassifyCell(tds[j]) == Ok(r.value[j])
    ensures r.Err? ==> exists j | 0 <= j < |tds| ::
      ClassifyCell(tds[j]) == Err(r.error) && forall i | 0 <= i < j :: ClassifyCell(tds[i]).Ok?
    decreases |tds|
  {
    if tds == [] then Ok([])
    else
      var c :- ClassifyCell(tds[0]);
      var rest :- ClassifyAll(tds[1..]);
      assert forall j | 1 <= j < |tds| :: tds[j] == tds[1..][j - 1];
      Ok([c] + rest)
  }

  /** The transitions applied to classified cells, left to right. */
  function Run(st: DecodeState, cs: seq<Cell>): DecodeState
    decreases |cs|
  {
    if cs == [] then st else Run(Apply(st, cs[0]), cs[1..])
  }

  /** The key in force just before cell `j`: that of the nearest key cell
      before `j`, or `k0` when there is none. */
  function KeyInForce(k0: string, cs: seq<Cell>, j: nat): string
    requires j <= |cs|
  {
    if j == 0 then k0
    else if cs[j - 1].KeyCell? then cs[j - 1].key
    else KeyInForce(k0, cs, j - 1)
  }

  /** Cell `j` is a value cell read while `k` was the key in force. */
  predicate ValueFor(k0: string, cs: seq<Cell>, j: int, k: string) {
    0 <= j < |cs| && cs[j].ValueCell? && KeyInForce(k0, cs, j) == k
  }

  /** ... and no later value cell is read under `k`. */
  predicate LastValueFor(k0: string, cs: seq<Cell>, j: int, k: string) {
    ValueFor(k0, cs, j, k) && forall i | j < i < |cs| :: !ValueFor(k0, cs, i, k)
  }

  /** `r` is the state reached from `st` over the cells `cs`: the key in
      force is the last one named, the entries are the earlier ones plus one
      per key under which some value cell was read, and each key holds the
      value of the last value cell read under it. */
  ghost predicate Describes(st: DecodeState, cs: seq<Cell>, r: DecodeState) {
    && r.currentKey == KeyInForce(st.currentKey, cs, |cs|)
    && (forall k :: k in r.data <==> k in st.data || exists j :: ValueFor(st.currentKey, cs, j, k))
    && (forall j, k | LastValueFor(st.currentKey, cs, j, k) :: k in r.data && r.data[k] == cs[j].value)
    && (forall k | k in st.data && (forall j :: !ValueFor(st.currentKey, cs, j, k)) ::
          r.data[k] == st.data[k])
  }

  /** `m` is what a table whose cells classify as `cs` encodes. */
  ghost predicate Decodes(cs: seq<Cell>, m: map<string, string>) {
    && (forall k :: k in m <==> exists j :: ValueFor("", cs, j, k))
    && (forall j, k | LastValueFor("", cs, j, k) :: k in m && m[k] == cs[j].value)
  }

  // ---------------------------------------------------------------------
  // The fold against the reference

  lemma {:induction false} RunSnoc(st: DecodeState, cs: seq<Cell>, c: Cell)
    ensures Run(st, cs + [c]) == Apply(Run(st, cs), c)
    decreases |cs|
  {
    if cs == [] {
      assert [c][1..] == [];
    } else {
      assert (cs + [c])[1..] == cs[1..] + [c];
      RunSnoc(Apply(st, cs[0]), cs[1..], c);
    }
  }

  lemma {:induction false} KeyInForceSnoc(k0: string, cs: seq<Cell>, c: Cell, j: nat)
    requires j <= |cs|
    ensures KeyInForce(k0, cs + [c], j) == KeyInForce(k0, cs, j)
  {
    if j > 0 {
      assert (cs + [c])[j - 1] == cs[j - 1];
      KeyInForceSnoc(k0, cs, c, j - 1);
    }
  }

  /** Appending a cell keeps every earlier `ValueFor` fact and adds at most
      one: the new cell, under the key in force after `cs`. */
  lemma ValueForSnoc(k0: string, cs: seq<Cell>, c: Cell)
    ensures forall j, k | 0 <= j < |cs| :: ValueFor(k0, cs + [c], j, k) == ValueFor(k0, cs, j, k)
    ensures forall k :: ValueFor(k0, cs + [c], |cs|, k) <==>
      c.ValueCell? && k == KeyInForce(k0, cs, |cs|)
  {
    forall j, k | 0 <= j < |cs|
      ensures ValueFor(k0, cs + [c], j, k) == ValueFor(k0, cs, j, k)
    {
      KeyInForceSnoc(k0, cs, c, j);
    }
    KeyInForceSnoc(k0, cs, c, |cs|);
  }

  /** The left fold meets the declarative description, for every start
      state and every cell sequence. */
  lemma {:induction false} RunDescribes(st: DecodeState, cs: seq<Cell>)
    ensures Describes(st, cs, Run(st, cs))
    decreases |cs|
  {
    var k0 := st.currentKey;
    if cs == [] {
      assert Run(st, cs) == st;
    } else {
      var n := |cs| - 1;
      var cs0, c := cs[..n], cs[n];
      assert cs == cs0 + [c];
      RunDescribes(st, cs0);
      RunSnoc(st, cs0, c);
      ValueForSnoc(k0, cs0, c);
      KeyInForceSnoc(k0, cs0, c, n);
      var r0 := Run(st, cs0);
      var r := Run(st, cs);
      assert r == Apply(r0, c);
      assert r0.currentKey == KeyInForce(k0, cs, n);
      forall k
        ensures k in r.data <==> k in st.data || exists j :: ValueFor(k0, cs, j, k)
      {
        if exists j :: ValueFor(k0, cs, j, k) {
          var j :| ValueFor(k0, cs, j, k);
          if j < n {
            assert ValueFor(k0, cs0, j, k);
            assert k in r0.data;
          } else {
            assert c.ValueCell? && k == r0.currentKey;
          }
        }
        if k in r.data && k !in st.data {
          if k in r0.data {
            var j :| ValueFor(k0, cs0, j, k);
            assert ValueFor(k0, cs, j, k);
          } else {
            assert c.ValueCell? && k == r0.currentKey;
            assert ValueFor(k0, cs, n, k);
          }
        }
      }
      forall j, k | LastValueFor(k0, cs, j, k)
        ensures k in r.data && r.data[k] == cs[j].value
      {
        if j < n {
          assert LastValueFor(k0, cs0, j, k) by {
            forall i | j < i < |cs0|
              ensures !ValueFor(k0, cs0, i, k)
            {
              assert !ValueFor(k0, cs, i, k);
            }
          }
          assert !ValueFor(k0, cs, n, k);
        }
      }
      forall k | k in st.data && (forall j :: !ValueFor(k0, cs, j, k))
        ensures r.data[k] == st.data[k]
      {
        forall j
          ensures !ValueFor(k0, cs0, j, k)
        {
          assert !ValueFor(k0, cs, j, k);
        }
        assert !ValueFor(k0, cs, n, k);
      }
    }
  }

  /** A key under which some value cell was read has a last such cell. */
  lemma {:induction false} LastValueExists(k0: string, cs: seq<Cell>, j: int, k: string)
    requires ValueFor(k0, cs, j, k)
    ensures exists i :: LastValueFor(k0, cs, i, k)
    decreases |cs| - j
  {
    if !LastValueFor(k0, cs, j, k) {
      var i :| j < i < |cs| && ValueFor(k0, cs, i, k);
      LastValueExists(k0, cs, i, k);
    }
  }

  /** The description pins the decoded map down completely. */
  lemma DecodesUnique(cs: seq<Cell>, m1: map<string, string>, m2: map<string, string>)
    requires Decodes(cs, m1) && Decodes(cs, m2)
    ensures m1 == m2
  {
    forall k | k in m1
      ensures k in m2 && m1[k] == m2[k]
    {
      var j :| ValueFor("", cs, j, k);
      LastValueExists("", cs, j, k);
      var i :| LastValueFor("", cs, i, k);
    }
    assert m1.Keys == m2.Keys;
  }

  // ---------------------------------------------------------------------
  // The interleaved decode against the reference

  lemma {:induction false} DecodeCellsAppend(st: DecodeState, a: seq<Node>, b: seq<Node>)
    ensures DecodeCells(st, a + b) ==
      match DecodeCells(st, a)
      case Ok(st') => DecodeCells(st', b)
      case Err(e) => Err(e)
    decreases |a|
  {
    if a != [] {
      assert (a + b)[0] == a[0];
      assert (a + b)[1..] == a[1..] + b;
      match ClassifyCell(a[0])
      case Ok(c) => DecodeCellsAppend(Apply(st, c), a[1..], b);
      case Err(_) =>
    } else {
      assert a + b == b;
    }
  }

  /** The key in force is carried across rows: decoding the rows one after
      another is decoding all their cells as one sequence. */
  lemma {:induction false} DecodeRowsFlatten(st: DecodeState, trs: seq<Node>)
    ensures DecodeRows(st, trs) == DecodeCells(st, CellsOf(trs))
    decreases |trs|
  {
    if trs != [] {
      DecodeCellsAppend(st, trs[0].children, CellsOf(trs[1..]));
      match DecodeCells(st, trs[0].children)
      case Ok(st') => DecodeRowsFlatten(st', trs[1..]);
      case Err(_) =>
    }
  }

  /** Classifying a cell and applying it at once is classifying all cells
      first and then running the transitions; the first malformed cell
      decides the error either way. */
  lemma {:induction false} DecodeCellsClassifyThenRun(st: DecodeState, tds: seq<Node>)
    ensures DecodeCells(st, tds) ==
      match ClassifyAll(tds)
      case Ok(cs) => Ok(Run(st, cs))
      case Err(e) => Err(e)
    decreases |tds|
  {
    if tds != [] {
      match ClassifyCell(tds[0]) {
        case Ok(c) =>
          DecodeCellsClassifyThenRun(Apply(st, c), tds[1..]);
          match ClassifyAll(tds[1..]) {
            case Ok(rest) =>
              assert ([c] + rest)[0] == c && ([c] + rest)[1..] == rest;
            case Err(_) =>
          }
        case Err(_) =>
      }
    }
  }

  // ---------------------------------------------------------------------
  // The decoder's contract

  /** Decoding fails for want of a body exactly when no direct child of the
      table is a `tbody` element, whatever its deeper descendants are. */
  lemma ParseMetadataTableNoBody(table: Node)
    ensures ParseMetadataTable(table) == Err(NoBody) <==>
      forall j | 0 <= j < |table.children| :: !IsBody(table.children[j])
  {
    var cs := table.children;
    match FirstBodyFrom(cs, 0)
    case None =>
    case Some(b) =>
      var trs := cs[b].children;
      DecodeRowsFlatten(Start, trs);
      DecodeCellsClassifyThenRun(Start, CellsOf(trs));
      assert IsBody(cs[b]);
  }

  /** With `b` the first `tbody` child of the table, and `tds` every child of
      every row of it: decoding succeeds exactly when every cell classifies;
      otherwise it reports the error of the first cell that does not; and on
      success the map is the one the cells describe under the bold-key
      convention, starting from the empty key. */
  lemma ParseMetadataTableSpec(table: Node, b: nat)
    requires IsFirstBody(table.children, b)
    ensures var tds := CellsOf(table.children[b].children);
      && (ParseMetadataTable(table).Ok? <==> forall j | 0 <= j < |tds| :: ClassifyCell(tds[j]).Ok?)
      && (ParseMetadataTable(table).Err? ==> exists j | 0 <= j < |tds| ::
            ClassifyCell(tds[j]) == Err(ParseMetadataTable(table).error)
            && forall i | 0 <= i < j :: ClassifyCell(tds[i]).Ok?)
      && (ParseMetadataTable(table).Ok? ==>
            ClassifyAll(tds).Ok? && Decodes(ClassifyAll(tds).value, ParseMetadataTable(table).value))
  {
    var cs := table.children;
    FirstBodyFromFinds(cs, 0, b);
    var trs := cs[b].children;
    var tds := CellsOf(trs);
    DecodeRowsFlatten(Start, trs);
    DecodeCellsClassifyThenRun(Start, tds);
    match ClassifyAll(tds)
    case Ok(cells) =>
      RunDescribes(Start, cells);
    case Err(_) =>
  }

  /** Only the first `tbody` child is read: children appended after it, a
      later `tbody` among them, and the table's own tag and kind change
      nothing. */
  lemma LaterChildrenIgnored(table: Node, b: nat, extra: seq<Node>, kind: NodeType, data: string)
    requires IsFirstBody(table.children, b)
    ensures ParseMetadataTable(Node(kind, data, table.children + extra)) == ParseMetadataTable(table)
  {
    var cs, cs' := table.children, table.children + extra;
    FirstBodyFromFinds(cs, 0, b);
    assert IsFirstBody(cs', b) by {
      assert forall j | 0 <= j <= b :: cs'[j] == cs[j];
    }
    FirstBodyFromFinds(cs', 0, b);
    assert cs'[b] == cs[b];
  }

  /** Rows and cells are read through their children only: every child of a
      row counts as a cell whatever its tag, and a cell's own tag is never
      looked at. */
  lemma {:induction false} OnlyChildrenMatter(st: DecodeState, trs: seq<Node>, trs': seq<Node>)
    requires |trs| == |trs'|
    requires forall i | 0 <= i < |trs| :: |trs[i].children| == |trs'[i].children|
    requires forall i, j | 0 <= i < |trs| && 0 <= j < |trs[i].children| ::
      trs[i].children[j].children == trs'[i].children[j].children
    ensures DecodeRows(st, trs) == DecodeRows(st, trs')
    decreases |trs|
  {
    if trs != [] {
      SameCellContents(st, trs[0].children, trs'[0].children);
      match DecodeCells(st, trs[0].children)
      case Ok(st') =>
        OnlyChildrenMatter(st', trs[1..], trs'[1..]);
      case Err(_) =>
    }
  }

  lemma {:induction false} SameCellContents(st: DecodeState, tds: seq<Node>, tds': seq<Node>)
    requires |tds| == |tds'|
    requires forall j | 0 <= j < |tds| :: tds[j].children == tds'[j].children
    ensures DecodeCells(st, tds) == DecodeCells(st, tds')
    decreases |tds|
  {
    if tds != [] {
      assert ClassifyCell(tds[0]) == ClassifyCell(tds'[0]);
      match ClassifyCell(tds[0])
      case Ok(c) =>
        SameCellContents(Apply(st, c), tds[1..], tds'[1..]);
      case Err(_) =>
    }
  }

  /** A value cell whose first child is an element other than `<b>` yields
      that element's tag name, not its text. */
  lemma ElementValueIsTagName(td: Node, tag: string, grandchildren: seq<Node>)
    requires td.children != [] && td.children[0] == Element(tag, grandchildren)
    requires tag != "b"
    ensures ClassifyCell(td) == Ok(ValueCell(tag))
  {
  }
}
