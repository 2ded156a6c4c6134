/** The `stations` command after the page is parsed: pick the first table
    of the document (none means the station does not exist), decode it,
    and compute the column widths and separator rule of the printout. */
module StationReport {
  import opened Results
  import opened Html
  import opened TableLocator
  import opened MetadataDecoder

  /** Why no metadata could be shown. `StationNotFound` is the reported
      "not found" exit; `MalformedTable` is the decoder's panic. */
  datatype LookupError = StationNotFound | MalformedTable(reason: DecodeError)

  function WithLookupError(r: Result<map<string, string>, DecodeError>): Result<map<string, string>, LookupError> {
    match r
    case Ok(m) => Ok(m)
    case Err(e) => Err(MalformedTable(e))
  }

  /** Zero tables: the station is not found. Otherwise the first table found
      is decoded and no other is looked at. */
  function LookupStation(doc: Node): (r: Result<map<string, string>, LookupError>)
    ensures r == Err(StationNotFound) <==> FindTables(doc) == []
  {
    var tables := FindTables(doc);
    if tables == [] then Err(StationNotFound)
    else WithLookupError(ParseMetadataTable(tables[0]))
  }

  /** `p` is the position of the table that comes first in document order. */
  ghost predicate IsFirstTablePath(doc: Node, p: Path) {
    IsTablePath(doc, p) && forall q | IsTablePath(doc, q) && q != p :: DocBefore(p, q)
  }

  /** "Not found" is reported exactly when the document holds no table;
      otherwise the outcome is the decode of the table that comes first in
      document order. */
  lemma LookupStationSpec(doc: Node)
    ensures LookupStation(doc) == Err(StationNotFound) ==>
      forall p | ValidPath(doc, p) :: !IsTable(At(doc, p))
    ensures (forall p | ValidPath(doc, p) :: !IsTable(At(doc, p))) ==>
      LookupStation(doc) == Err(StationNotFound)
    ensures LookupStation(doc) != Err(StationNotFound) ==>
      exists p | IsFirstTablePath(doc, p) ::
        LookupStation(doc) == WithLookupError(ParseMetadataTable(At(doc, p)))
  {
    FindTablesEmptyIff(doc);
    if FindTables(doc) != [] {
      FirstTableFirstInDocument(doc);
      var p := TablePaths(doc)[0];
      assert IsFirstTablePath(doc, p);
    }
  }

  /** The widths of the key and value columns: one pass over the entries in
      no particular order, keeping the longest key and the longest value. */
  method ColumnWidths(m: map<string, string>) returns (keylen: nat, vallen: nat)
    ensures forall k | k in m :: |k| <= keylen && |m[k]| <= vallen
    ensures m == map[] ==> keylen == 0 && vallen == 0
    ensures m != map[] ==> exists k | k in m :: |k| == keylen
    ensures m != map[] ==> exists k | k in m :: |m[k]| == vallen
  {
    keylen, vallen := 0, 0;
    var todo := m.Keys;
    while todo != {}
      invariant todo <= m.Keys
      invariant forall k | k in m && k !in todo :: |k| <= keylen && |m[k]| <= vallen
      invariant todo == m.Keys ==> keylen == 0 && vallen == 0
      invariant todo != m.Keys ==> exists k | k in m && k !in todo :: |k| == keylen
      invariant todo != m.Keys ==> exists k | k in m && k !in todo :: |m[k]| == vallen
      decreases todo
    {
      var key :| key in todo;
      if |key| > keylen {
        keylen := |key|;
      }
      if |m[key]| > vallen {
        vallen := |m[key]|;
      }
      todo := todo - {key};
    }
  }

  /** `n` copies of `c`. */
  function Repeat(c: char, n: nat): (s: string)
    ensures |s| == n
    ensures forall i | 0 <= i < n :: s[i] == c
  {
    if n == 0 then "" else [c] + Repeat(c, n - 1)
  }

  /** The rule printed under every row: dashes spanning both columns plus
      two. */
  function Separator(keylen: nat, vallen: nat): (line: string)
    ensures |line| == keylen + vallen + 2
    ensures forall i | 0 <= i < |line| :: line[i] == '-'
  {
    Repeat('-', keylen + vallen + 2)
  }
}
