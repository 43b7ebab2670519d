/**
  The advisory database and its flattening for one release (unt-scan.py, filter_db).
  A Python dict that the code iterates over is an ordered list of (key, value) entries,
  in the dict's iteration order; `releases`, which is only looked up, is a map.
*/
module Advisories {
  import opened Wrappers

  /** One binary package entry of a release; only its fixed version is used. */
  datatype Binary = Binary(version: string)

  /** The part of an advisory that concerns one release. */
  datatype Release = Release(binaries: seq<(string, Binary)>)

  /** One advisory record; `isummary` and `summary` are optional keys. */
  datatype Advisory = Advisory(
    releases: map<string, Release>,
    cves: seq<string>,
    isummary: Option<string>,
    summary: Option<string>)

  /** The decoded database: advisory id to record, in iteration order. */
  type Database = seq<(string, Advisory)>

  /** One flattened item: a binary package of one advisory for the chosen release. */
  datatype Item = Item(unt: string, name: string, version: string, summary: string, cves: seq<string>)

  const NO_SUMMARY := "No summary"

  function SummaryOf(content: Advisory): string
  {
    match (content.isummary, content.summary)
    case (Some(s), _) => s
    case (None, Some(s)) => s
    case (None, None) => NO_SUMMARY
  }

  /** The items of one advisory for the binaries listed, in their order. */
  function BinaryItems(unt: string, content: Advisory, binaries: seq<(string, Binary)>): seq<Item>
  {
    if binaries == [] then []
    else [Item(unt, binaries[0].0, binaries[0].1.version, SummaryOf(content), content.cves)]
         + BinaryItems(unt, content, binaries[1..])
  }

  /** What one advisory contributes: nothing unless its releases name the codename. */
  function AdvisoryItems(unt: string, content: Advisory, codename: string): seq<Item>
  {
    if codename !in content.releases then []
    else BinaryItems(unt, content, content.releases[codename].binaries)
  }

  /** The whole flattened sequence, advisory after advisory. */
  function FilterDb(db: Database, codename: string): seq<Item>
  {
    if db == [] then []
    else AdvisoryItems(db[0].0, db[0].1, codename) + FilterDb(db[1..], codename)
  }

  /**
    One item per binary, in order, each carrying the advisory's id and CVEs, the binary's
    name and fixed version, and the summary chosen by priority isummary, summary, "No summary".
  */
  lemma {:induction false} BinaryItemsAt(unt: string, content: Advisory, binaries: seq<(string, Binary)>, j: nat)
    requires j < |binaries|
    ensures |BinaryItems(unt, content, binaries)| == |binaries|
    ensures BinaryItems(unt, content, binaries)[j] ==
      Item(unt, binaries[j].0, binaries[j].1.version, SummaryOf(content), content.cves)
    ensures content.isummary.Some? ==> BinaryItems(unt, content, binaries)[j].summary == content.isummary.value
    ensures content.isummary.None? && content.summary.Some? ==>
      BinaryItems(unt, content, binaries)[j].summary == content.summary.value
    ensures content.isummary.None? && content.summary.None? ==>
      BinaryItems(unt, content, binaries)[j].summary == NO_SUMMARY
  {
    if j > 0 {
      BinaryItemsAt(unt, content, binaries[1..], j - 1);
    } else if |binaries| > 1 {
      BinaryItemsAt(unt, content, binaries[1..], 0);
    }
  }

  /** An advisory whose releases lack the codename yields nothing; otherwise one item per binary. */
  lemma AdvisoryItemsCount(unt: string, content: Advisory, codename: string)
    ensures codename !in content.releases ==> AdvisoryItems(unt, content, codename) == []
    ensures codename in content.releases ==>
      |AdvisoryItems(unt, content, codename)| == |content.releases[codename].binaries|
  {
    if codename in content.releases {
      var binaries := content.releases[codename].binaries;
      if binaries != [] {
        BinaryItemsAt(unt, content, binaries, 0);
      }
    }
  }

  /** Filtering is compositional: a concatenated database yields the concatenated items. */
  lemma {:induction false} FilterDbAppend(a: Database, b: Database, codename: string)
    ensures FilterDb(a + b, codename) == FilterDb(a, codename) + FilterDb(b, codename)
  {
    if a != [] {
      assert (a + b)[1..] == a[1..] + b;
      FilterDbAppend(a[1..], b, codename);
    } else {
      assert a + b == b;
    }
  }

  /** An advisory that does not name the codename contributes no item at all. */
  lemma OtherReleaseContributesNothing(a: Database, unt: string, content: Advisory, b: Database, codename: string)
    requires codename !in content.releases
    ensures FilterDb(a + [(unt, content)] + b, codename) == FilterDb(a + b, codename)
  {
    FilterDbAppend(a + [(unt, content)], b, codename);
    FilterDbAppend(a, [(unt, content)], codename);
    FilterDbAppend(a, b, codename);
  }

  /** `item` is what binary `j` of `entry`'s release `codename` is flattened to. */
  predicate FlattenedFrom(item: Item, entry: (string, Advisory), codename: string)
  {
    codename in entry.1.releases &&
    item.unt == entry.0 && item.cves == entry.1.cves && item.summary == SummaryOf(entry.1) &&
    exists j :: 0 <= j < |entry.1.releases[codename].binaries| &&
      item.name == entry.1.releases[codename].binaries[j].0 &&
      item.version == entry.1.releases[codename].binaries[j].1.version
  }

  /** Every item produced comes from some advisory of the database that names the codename. */
  lemma {:induction false} FilterDbSound(db: Database, codename: string, k: nat)
    requires k < |FilterDb(db, codename)|
    ensures exists i :: 0 <= i < |db| && FlattenedFrom(FilterDb(db, codename)[k], db[i], codename)
  {
    var head := AdvisoryItems(db[0].0, db[0].1, codename);
    AdvisoryItemsCount(db[0].0, db[0].1, codename);
    if k < |head| {
      BinaryItemsAt(db[0].0, db[0].1, db[0].1.releases[codename].binaries, k);
      assert FlattenedFrom(FilterDb(db, codename)[k], db[0], codename);
    } else {
      FilterDbSound(db[1..], codename, k - |head|);
      var i :| 0 <= i < |db[1..]| && FlattenedFrom(FilterDb(db[1..], codename)[k - |head|], db[1..][i], codename);
      assert FlattenedFrom(FilterDb(db, codename)[k], db[i + 1], codename);
    }
  }

  /** Every binary of every advisory naming the codename is produced. */
  lemma FilterDbComplete(db: Database, codename: string, i: nat, j: nat)
    requires i < |db| && codename in db[i].1.releases
    requires j < |db[i].1.releases[codename].binaries|
    ensures Item(db[i].0, db[i].1.releases[codename].binaries[j].0,
                 db[i].1.releases[codename].binaries[j].1.version,
                 SummaryOf(db[i].1), db[i].1.cves) in FilterDb(db, codename)
  {
    var entry := db[i];
    assert db == db[..i] + [entry] + db[i + 1..];
    FilterDbAppend(db[..i] + [entry], db[i + 1..], codename);
    FilterDbAppend(db[..i], [entry], codename);
    assert FilterDb([entry], codename) == AdvisoryItems(entry.0, entry.1, codename);
    BinaryItemsAt(entry.0, entry.1, entry.1.releases[codename].binaries, j);
  }
}
