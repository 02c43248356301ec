/**
 * The harvesting run of `main()`: for every ISBN of the input column, one
 * query per catalogue (DNB, B3Kat, swisscovery, in that order), each
 * isolated from the failures of the others; then one consolidated entry per
 * ISBN with the title chosen by source priority and the labelled notations
 * of all three sources without duplicates; then the presence flags.
 */
module Harvest {
  import opened Wrappers
  import opened Endpoints
  import opened Marc
  import opened Cells

  /** The network as the run sees it: the parsed record each catalogue
      returns for a query URL, and the RVK label service. A URL absent from
      `catalogs` is one answered with an HTTP error status. */
  datatype Web = Web(catalogs: map<string, Record>, rvk: LabelService)

  /** What one catalogue contributed for one ISBN. */
  datatype SourceData = SourceData(title: Option<string>, notations: seq<Labelled>)

  /** The initial value of a source's fields, kept when its query fails. */
  const Unanswered := SourceData(None, [])

  /** One entry of `all_isbn_data`. */
  datatype IsbnEntry = IsbnEntry(isbn: Cell, dnb: SourceData, b3kat: SourceData, slsp: SourceData)

  /** The presence flags added to each consolidated entry. */
  datatype Presence = Presence(
    dnbTitle: bool, b3katTitle: bool, slspTitle: bool,
    dnbRvk: bool, b3katRvk: bool, slspRvk: bool)

  /** One entry of `consolidated_isbn_data`; `presence` is `None` until the
      flag loop has run over it. */
  datatype Consolidated = Consolidated(
    isbn: Cell, title: Option<string>, unique: seq<Labelled>,
    dnb: SourceData, b3kat: SourceData, slsp: SourceData,
    presence: Option<Presence>)

  /** One row of the result table. */
  datatype ResultRow = ResultRow(isbn: Cell, consolidatedTitle: Option<string>, unique: seq<Labelled>, flags: Presence)

  // ---------------------------------------------------------------------
  // Specification
  // ---------------------------------------------------------------------

  /** `metadata_query(key, isbn)`: fetch the catalogue record and extract
      from it, or SystemExit when the catalogue or a label lookup fails. */
  function Query(key: string, isbn: Cell, web: Web): Extraction
    requires key in CatalogKeys
  {
    var url := CatalogUrl(key, Str(isbn));
    if url in web.catalogs then Extract(web.catalogs[url], web.rvk) else Exit
  }

  function SourceOutcome(key: string, isbn: Cell, web: Web): SourceData
    requires key in CatalogKeys
  {
    match Query(key, isbn, web)
    case Exit => Unanswered
    case Extracted(title, notations) => SourceData(title, notations)
  }

  /** The entry the collection loop builds for one ISBN. */
  function Collected(isbn: Cell, web: Web): IsbnEntry {
    IsbnEntry(isbn, SourceOutcome(Dnb, isbn, web), SourceOutcome(B3kat, isbn, web), SourceOutcome(Slsp, isbn, web))
  }

  /** The first title that is present, in the order given. */
  function FirstPresent(titles: seq<Option<string>>): (t: Option<string>)
    ensures t.None? <==> forall k :: 0 <= k < |titles| ==> titles[k].None?
    ensures t.Some? ==> exists k :: 0 <= k < |titles| && titles[k] == t && forall j :: 0 <= j < k ==> titles[j].None?
  {
    if titles == [] then None
    else if titles[0].Some? then titles[0]
    else
      var t := FirstPresent(titles[1..]);
      assert forall k :: 1 <= k < |titles| ==> titles[k] == titles[1..][k - 1];
      t
  }

  /** The title priority of the consolidation: DNB, then B3Kat, then swisscovery. */
  function PriorityTitle(e: IsbnEntry): Option<string> {
    FirstPresent([e.dnb.title, e.b3kat.title, e.slsp.title])
  }

  function Elems<T>(s: seq<T>): set<T> {
    set x | x in s
  }

  predicate Distinct<T(==)>(s: seq<T>) {
    forall i, j :: 0 <= i < j < |s| ==> s[i] != s[j]
  }

  /** Every labelled notation of the three sources. */
  function AllPairs(e: IsbnEntry): set<Labelled> {
    Elems(e.dnb.notations) + Elems(e.b3kat.notations) + Elems(e.slsp.notations)
  }

  function Flags(dnb: SourceData, b3kat: SourceData, slsp: SourceData): Presence {
    Presence(dnb.title.Some?, b3kat.title.Some?, slsp.title.Some?,
      |dnb.notations| > 0, |b3kat.notations| > 0, |slsp.notations| > 0)
  }

  /** The consolidated entry built from `e`, before the flag loop. */
  predicate ConsolidatedFrom(c: Consolidated, e: IsbnEntry) {
    && c.isbn == e.isbn
    && c.title == PriorityTitle(e)
    && Elems(c.unique) == AllPairs(e) && Distinct(c.unique)
    && c.dnb == e.dnb && c.b3kat == e.b3kat && c.slsp == e.slsp
    && c.presence.None?
  }

  // ---------------------------------------------------------------------
  // Collection
  // ---------------------------------------------------------------------

  /** `metadata_query`: the URL from the endpoint table, the fetch, the
      extraction. It returns exactly when the catalogue answers the URL and
      every notation of the record gets a label, and then gives the record's
      title and its labelled notations. */
  method MetadataQuery(key: string, isbn: Cell, web: Web) returns (r: Extraction)
    requires key in CatalogKeys
    ensures var url := CatalogUrl(key, Str(isbn));
      r.Extracted? <==> url in web.catalogs && AllLabelled(RvkNotations(web.catalogs[url]), web.rvk)
    ensures var url := CatalogUrl(key, Str(isbn));
      r.Extracted? ==> r.title == Title(web.catalogs[url]) && r.notations == WithLabels(RvkNotations(web.catalogs[url]), web.rvk)
  {
    var endpoint := EndpointOf(key).value;
    var url := endpoint.prefix + Str(isbn) + endpoint.suffix;
    if url !in web.catalogs {
      return Exit;
    }
    r := ExtractRvk(web.catalogs[url], web.rvk);
  }

  /** The body of the collection loop for one ISBN: start with every source
      unanswered and overwrite a source's fields only when its query returns. */
  method QueryIsbn(isbn: Cell, web: Web) returns (entry: IsbnEntry)
    ensures entry == Collected(isbn, web)
  {
    entry := IsbnEntry(isbn, Unanswered, Unanswered, Unanswered);
    var dnb := MetadataQuery(Dnb, isbn, web);
    if dnb.Extracted? {
      entry := entry.(dnb := SourceData(dnb.title, dnb.notations));
    }
    var b3kat := MetadataQuery(B3kat, isbn, web);
    if b3kat.Extracted? {
      entry := entry.(b3kat := SourceData(b3kat.title, b3kat.notations));
    }
    var slsp := MetadataQuery(Slsp, isbn, web);
    if slsp.Extracted? {
      entry := entry.(slsp := SourceData(slsp.title, slsp.notations));
    }
  }

  /** The collection loop: one entry per input ISBN, in input order. */
  method CollectAll(isbns: seq<Cell>, web: Web) returns (all: seq<IsbnEntry>)
    ensures |all| == |isbns|
    ensures forall i :: 0 <= i < |isbns| ==> all[i] == Collected(isbns[i], web)
  {
    all := [];
    for i := 0 to |isbns|
      invariant |all| == i
      invariant forall k :: 0 <= k < i ==> all[k] == Collected(isbns[k], web)
    {
      var entry := QueryIsbn(isbns[i], web);
      all := all + [entry];
    }
  }

  // ---------------------------------------------------------------------
  // Consolidation
  // ---------------------------------------------------------------------

  /** The three loops that fill `unique_rvk_notations_set`. */
  method UniqueNotations(e: IsbnEntry) returns (unique: set<Labelled>)
    ensures unique == AllPairs(e)
  {
    unique := {};
    for i := 0 to |e.dnb.notations|
      invariant unique == Elems(e.dnb.notations[..i])
    {
      assert e.dnb.notations[..i + 1] == e.dnb.notations[..i] + [e.dnb.notations[i]];
      unique := unique + {e.dnb.notations[i]};
    }
    assert e.dnb.notations[..|e.dnb.notations|] == e.dnb.notations;
    ghost var fromDnb := unique;
    for i := 0 to |e.b3kat.notations|
      invariant unique == fromDnb + Elems(e.b3kat.notations[..i])
    {
      assert e.b3kat.notations[..i + 1] == e.b3kat.notations[..i] + [e.b3kat.notations[i]];
      unique := unique + {e.b3kat.notations[i]};
    }
    assert e.b3kat.notations[..|e.b3kat.notations|] == e.b3kat.notations;
    ghost var fromDnbB3kat := unique;
    for i := 0 to |e.slsp.notations|
      invariant unique == fromDnbB3kat + Elems(e.slsp.notations[..i])
    {
      assert e.slsp.notations[..i + 1] == e.slsp.notations[..i] + [e.slsp.notations[i]];
      unique := unique + {e.slsp.notations[i]};
    }
    assert e.slsp.notations[..|e.slsp.notations|] == e.slsp.notations;
  }

  /** `list(s)`: every element once, in an order the model leaves open. */
  method ListOf(s: set<Labelled>) returns (l: seq<Labelled>)
    ensures Elems(l) == s && Distinct(l)
  {
    l := [];
    var rest := s;
    while rest != {}
      invariant Elems(l) + rest == s && Elems(l) !! rest && Distinct(l)
      decreases rest
    {
      var x :| x in rest;
      l := l + [x];
      rest := rest - {x};
    }
  }

  /** The body of the consolidation loop for one entry. */
  method ConsolidateEntry(e: IsbnEntry) returns (c: Consolidated)
    ensures ConsolidatedFrom(c, e)
  {
    var title: Option<string> := None;
    if e.dnb.title.Some? {
      title := e.dnb.title;
    } else if e.b3kat.title.Some? {
      title := e.b3kat.title;
    } else if e.slsp.title.Some? {
      title := e.slsp.title;
    }
    PriorityTitleOrder(e);
    var uniqueSet := UniqueNotations(e);
    var unique := ListOf(uniqueSet);
    c := Consolidated(e.isbn, title, unique, e.dnb, e.b3kat, e.slsp, None);
  }

  /** The consolidation loop: one consolidated entry per collected entry, in order. */
  method ConsolidateAll(all: seq<IsbnEntry>) returns (out: seq<Consolidated>)
    ensures |out| == |all|
    ensures forall i :: 0 <= i < |all| ==> ConsolidatedFrom(out[i], all[i])
  {
    out := [];
    for i := 0 to |all|
      invariant |out| == i
      invariant forall k :: 0 <= k < i ==> ConsolidatedFrom(out[k], all[k])
    {
      var c := ConsolidateEntry(all[i]);
      out := out + [c];
    }
  }

  /** The flag loop: every entry gains its six presence flags in place. */
  method AddPresenceFlags(entries: array<Consolidated>)
    modifies entries
    ensures forall i :: 0 <= i < entries.Length ==>
      entries[i] == old(entries[i]).(presence := Some(Flags(old(entries[i]).dnb, old(entries[i]).b3kat, old(entries[i]).slsp)))
  {
    for i := 0 to entries.Length
      invariant forall k :: 0 <= k < i ==>
        entries[k] == old(entries[k]).(presence := Some(Flags(old(entries[k]).dnb, old(entries[k]).b3kat, old(entries[k]).slsp)))
      invariant forall k :: i <= k < entries.Length ==> entries[k] == old(entries[k])
    {
      var entry := entries[i];
      entries[i] := entry.(presence := Some(Flags(entry.dnb, entry.b3kat, entry.slsp)));
    }
  }

  /** The result row for one input ISBN. */
  predicate RowFor(row: ResultRow, isbn: Cell, web: Web) {
    var e := Collected(isbn, web);
    && row.isbn == isbn
    && row.consolidatedTitle == PriorityTitle(e)
    && Elems(row.unique) == AllPairs(e) && Distinct(row.unique)
    && row.flags == Flags(e.dnb, e.b3kat, e.slsp)
  }

  /**
   * The whole run: collect, consolidate, add the flags, keep the result
   * columns. One row per input ISBN, in input order, with the ISBN carried
   * through unchanged.
   */
  method Run(isbns: seq<Cell>, web: Web) returns (rows: seq<ResultRow>)
    ensures |rows| == |isbns|
    ensures forall i :: 0 <= i < |isbns| ==> RowFor(rows[i], isbns[i], web)
  {
    var all := CollectAll(isbns, web);
    var consolidated := ConsolidateAll(all);
    var entries := new Consolidated[|consolidated|](k requires 0 <= k < |consolidated| => consolidated[k]);
    AddPresenceFlags(entries);
    rows := [];
    for i := 0 to entries.Length
      invariant |rows| == i
      invariant forall k :: 0 <= k < i ==> RowFor(rows[k], isbns[k], web)
    {
      var c := entries[i];
      assert c == consolidated[i].(presence := Some(Flags(c.dnb, c.b3kat, c.slsp)));
      assert ConsolidatedFrom(consolidated[i], all[i]) && all[i] == Collected(isbns[i], web);
      rows := rows + [ResultRow(c.isbn, c.title, c.unique, c.presence.value)];
    }
  }

  // ---------------------------------------------------------------------
  // Properties
  // ---------------------------------------------------------------------

  /** When one catalogue fails for an ISBN, that source keeps its initial
      `None` / `[]` and the other two sources are recorded as before. */
  lemma FailureIsolated(key: string, isbn: Cell, web: Web)
    requires key in CatalogKeys
    ensures var failed := web.(catalogs := web.catalogs - {CatalogUrl(key, Str(isbn))});
      && SourceOutcome(key, isbn, failed) == Unanswered
      && forall other :: other in CatalogKeys && other != key ==>
           SourceOutcome(other, isbn, failed) == SourceOutcome(other, isbn, web)
  {
    forall other | other in CatalogKeys && other != key
      ensures CatalogUrl(other, Str(isbn)) != CatalogUrl(key, Str(isbn))
    {
      if CatalogUrl(other, Str(isbn)) == CatalogUrl(key, Str(isbn)) {
        CatalogUrlInjective(other, Str(isbn), key, Str(isbn));
      }
    }
  }

  /** The consolidated title is taken whole from the first source, in the
      order DNB, B3Kat, swisscovery, that has one (an empty title counts);
      it is absent only when all three are. */
  lemma PriorityTitleOrder(e: IsbnEntry)
    ensures e.dnb.title.Some? ==> PriorityTitle(e) == e.dnb.title
    ensures e.dnb.title.None? && e.b3kat.title.Some? ==> PriorityTitle(e) == e.b3kat.title
    ensures e.dnb.title.None? && e.b3kat.title.None? ==> PriorityTitle(e) == e.slsp.title
  {
    var ts := [e.dnb.title, e.b3kat.title, e.slsp.title];
    if e.dnb.title.None? {
      assert ts[1..] == [e.b3kat.title, e.slsp.title];
      assert PriorityTitle(e) == FirstPresent([e.b3kat.title, e.slsp.title]);
      if e.b3kat.title.None? {
        assert [e.b3kat.title, e.slsp.title][1..] == [e.slsp.title];
        assert FirstPresent([e.b3kat.title, e.slsp.title]) == FirstPresent([e.slsp.title]);
      }
    }
  }

  lemma {:induction false} ElemsBound<T>(s: seq<T>)
    ensures |Elems(s)| <= |s|
  {
    if s != [] {
      ElemsBound(s[1..]);
      assert Elems(s) == {s[0]} + Elems(s[1..]);
    }
  }

  lemma {:induction false} DistinctElems<T>(s: seq<T>)
    requires Distinct(s)
    ensures |Elems(s)| == |s|
  {
    if s != [] {
      DistinctElems(s[1..]);
      assert Elems(s) == {s[0]} + Elems(s[1..]);
      assert s[0] !in Elems(s[1..]);
    }
  }

  /** The unique list holds each labelled notation of the three sources
      exactly once, so it is never longer than the three lists together. */
  lemma UniqueBound(c: Consolidated, e: IsbnEntry)
    requires ConsolidatedFrom(c, e)
    ensures |c.unique| <= |e.dnb.notations| + |e.b3kat.notations| + |e.slsp.notations|
  {
    DistinctElems(c.unique);
    ElemsBound(e.dnb.notations);
    ElemsBound(e.b3kat.notations);
    ElemsBound(e.slsp.notations);
    var d, b, s := Elems(e.dnb.notations), Elems(e.b3kat.notations), Elems(e.slsp.notations);
    assert |d + b| <= |d| + |b|;
    assert |d + b + s| <= |d + b| + |s|;
  }

  /** The flags agree with the consolidation: no title flag set exactly when
      the consolidated title is absent, no notation flag set exactly when the
      unique list is empty. */
  lemma FlagsMatchConsolidation(c: Consolidated, e: IsbnEntry)
    requires ConsolidatedFrom(c, e)
    ensures var p := Flags(c.dnb, c.b3kat, c.slsp);
      && (c.title.None? <==> !p.dnbTitle && !p.b3katTitle && !p.slspTitle)
      && (c.unique == [] <==> !p.dnbRvk && !p.b3katRvk && !p.slspRvk)
  {
    if e.dnb.notations != [] { assert e.dnb.notations[0] in AllPairs(e); }
    if e.b3kat.notations != [] { assert e.b3kat.notations[0] in AllPairs(e); }
    if e.slsp.notations != [] { assert e.slsp.notations[0] in AllPairs(e); }
    if c.unique != [] { assert c.unique[0] in Elems(c.unique); }
    PriorityTitleOrder(e);
  }
}
