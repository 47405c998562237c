/** The export and the import taken together: what `dumpAndCompress` leaves
    in the backup directory is what `importDatabases` reads back. A dump
    small enough to stay whole gunzips back unchanged; a split dump merges
    back as its lines joined with line feeds plus one final line feed,
    provided it was cut into at most 1000 parts and the directory held no
    part archive of it from an earlier run (which the export never deletes
    and the import would merge as well). */
module RoundTrip {
  import opened Wrappers
  import opened Strings
  import opened Unicode
  import opened Decimal
  import opened Codec
  import opened Chunking
  import opened DatabaseExport
  import opened DatabaseImport

  /** The archives of a split dump, in part order. */
  function PartArchives(database: string, dump: string, chunkSize: nat): seq<string>
  {
    GzNames(ToCompress(database, dump, chunkSize))
  }

  /** No JavaScript line terminator in a name. */
  predicate OnOneLine(s: string) {
    forall i :: 0 <= i < |s| ==> !IsLineTerminator(s[i])
  }

  // ---------------------------------------------------------------------
  // Which group, and in which order.

  /** Every part archive of a split dump falls into the group of the dump's
      own file name, so the import merges them into one file. */
  lemma PartArchivesGroup(database: string, dump: string, chunkSize: nat)
    requires IsSplit(dump, chunkSize) && OnOneLine(SqlName(database))
    ensures var gz := PartArchives(database, dump, chunkSize);
      forall k :: 0 <= k < |gz| ==> PartBase(gz[k]) == Some(SqlName(database))
  {
    var sql := SqlName(database);
    var gz := PartArchives(database, dump, chunkSize);
    forall k | 0 <= k < |gz| ensures PartBase(gz[k]) == Some(sql) {
      assert |Pad3(k)| >= 1 by {
        assert |NatToString(k)| >= 1;
      }
      assert gz[k] == sql + ".part" + Pad3(k) + ".gz";
      PartBaseOf(sql, Pad3(k));
    }
  }

  /** The archive of a dump that was not split is a single, not a part. */
  lemma WholeArchiveSingle(database: string)
    ensures PartBase(GzName(SqlName(database))) == None
  {
    var file := GzName(SqlName(database));
    assert file[|file| - 4] == 'l';
    if MatchPart(file).Some? {
      assert false;
    }
  }

  /** Below 1000 parts the part archives are strictly sorted. */
  lemma PartArchivesSorted(database: string, dump: string, chunkSize: nat)
    requires IsSplit(dump, chunkSize) && |PartsOfDump(dump, chunkSize)| <= 1000
    ensures StrictlySorted(PartArchives(database, dump, chunkSize))
  {
    var sql := SqlName(database);
    var gz := PartArchives(database, dump, chunkSize);
    forall i, j | 0 <= i < j < |gz| ensures Before(gz[i], gz[j]) {
      PartNameOrder(sql, i, j, ".gz");
    }
  }

  /** Whatever order the directory lists the part archives in, sorting
      them gives the parts in the order they were written. */
  lemma ListingSortsToPartOrder(database: string, dump: string, chunkSize: nat, listing: seq<string>)
    requires IsSplit(dump, chunkSize) && |PartsOfDump(dump, chunkSize)| <= 1000
    requires multiset(listing) == multiset(PartArchives(database, dump, chunkSize))
    ensures SortStrings(listing) == PartArchives(database, dump, chunkSize)
  {
    PartArchivesSorted(database, dump, chunkSize);
    SortRecovers(listing, PartArchives(database, dump, chunkSize));
  }

  // ---------------------------------------------------------------------
  // What the merge writes.

  /** The texts of the parts joined back: the dump's lines, each `\r\n`
      turned into `\n`, with one line feed after the last. */
  lemma PartTextsRejoin(dump: string, chunkSize: nat)
    requires IsSplit(dump, chunkSize)
    ensures Terminated(UnitTexts(dump, chunkSize)) == NormalizeNewlines(dump) + "\n"
  {
    var lines := SplitLines(dump);
    var parts := PartsOfDump(dump, chunkSize);
    ChunksFromNonEmpty(lines, [], chunkSize);
    PartsMeetThreshold(lines, chunkSize);
    assert NoEmptyPart(parts);
    TerminatedJoin(parts);
    assert UnitTexts(dump, chunkSize) == seq(|parts|, k requires 0 <= k < |parts| => JoinWith(parts[k], "\n"));
    LinesPreserved(lines, chunkSize);
    JoinSplitLines(dump);
  }

  /** Each part archive in the exported directory gunzips to its part's text. */
  lemma PartArchivesUnzip(files: map<string, string>, database: string, dump: string, chunkSize: nat, merged: string)
    requires IsSplit(dump, chunkSize)
    requires EndsWith(merged, ".sql")
    requires var gz := PartArchives(database, dump, chunkSize);
      var texts := UnitTexts(dump, chunkSize);
      forall k :: 0 <= k < |gz| ==> gz[k] in files && files[gz[k]] == Gzip(texts[k])
    ensures var gz := PartArchives(database, dump, chunkSize);
      var texts := UnitTexts(dump, chunkSize);
      && |gz| == |texts|
      && forall k :: 0 <= k < |gz| ==> PartArchiveName(gz[k]) && Unzipped(files[merged := ""], gz[k]) == Some(texts[k])
  {
    var sql := SqlName(database);
    var gz := PartArchives(database, dump, chunkSize);
    var texts := UnitTexts(dump, chunkSize);
    EndsWithLast(merged, ".sql");
    forall k | 0 <= k < |gz|
      ensures PartArchiveName(gz[k]) && Unzipped(files[merged := ""], gz[k]) == Some(texts[k])
    {
      var p := PartName(sql, k);
      PartNameEndsWithDigit(sql, k);
      assert gz[k] == p + ".gz";
      assert gz[k][|gz[k]| - 4] == p[|p| - 1];
      assert gz[k][|gz[k]| - 3..] == ".gz";
      assert gz[k] != merged;
      GunzipGzip(texts[k]);
    }
  }

  /** Merging the part archives, in part order, into an empty merged file
      writes the dump's lines back. */
  lemma MergeArchives(files: map<string, string>, database: string, dump: string, chunkSize: nat,
                      temps: seq<string>, commands: seq<string>)
    requires IsSplit(dump, chunkSize)
    requires var gz := PartArchives(database, dump, chunkSize);
      var texts := UnitTexts(dump, chunkSize);
      forall k :: 0 <= k < |gz| ==> gz[k] in files && files[gz[k]] == Gzip(texts[k])
    ensures var merged := MergedName(SqlName(database));
      var p := MergeParts(Run(files[merged := ""], temps, commands), merged, PartArchives(database, dump, chunkSize));
      && p.Running? && merged in p.run.files
      && p.run.files[merged] == NormalizeNewlines(dump) + "\n"
  {
    var merged := MergedName(SqlName(database));
    var gz := PartArchives(database, dump, chunkSize);
    var texts := UnitTexts(dump, chunkSize);
    assert merged[|merged| - 4..] == ".sql";
    PartArchivesUnzip(files, database, dump, chunkSize, merged);
    var r := Run(files[merged := ""], temps, commands);
    MergePartsText(r, merged, gz, texts);
    PartTextsRejoin(dump, chunkSize);
    assert r.files[merged] + Terminated(texts) == NormalizeNewlines(dump) + "\n";
  }

  /** The export-import round trip of a split dump: after the export, the
      import's merge of the group, whatever order the directory lists it
      in, writes the dump's lines back with `\n` between and after them. */
  lemma SplitDumpRoundTrip(m: map<string, string>, database: string, dump: string, chunkSize: nat,
                           listing: seq<string>, temps: seq<string>, commands: seq<string>)
    requires IsSplit(dump, chunkSize) && |PartsOfDump(dump, chunkSize)| <= 1000
    requires multiset(listing) == multiset(PartArchives(database, dump, chunkSize))
    ensures var files := AfterDump(m, database, dump, chunkSize);
      var merged := MergedName(SqlName(database));
      var p := MergeParts(Run(files[merged := ""], temps, commands), merged, SortStrings(listing));
      && p.Running? && merged in p.run.files
      && p.run.files[merged] == NormalizeNewlines(dump) + "\n"
  {
    ListingSortsToPartOrder(database, dump, chunkSize, listing);
    DumpArchives(m, database, dump, chunkSize);
    MergeArchives(AfterDump(m, database, dump, chunkSize), database, dump, chunkSize, temps, commands);
  }

  // ---------------------------------------------------------------------
  // Archives left by earlier runs.

  /** The directory holds no archive that falls into the group of `sql`, as
      a part archive of an earlier export of the same database would. */
  predicate NoStaleParts(m: map<string, string>, sql: string) {
    forall n :: n in m ==> PartBase(n) != Some(sql)
  }

  /** The export deletes no archive: a part archive of an earlier run
      survives a dump that is not split, beside the new `d.sql.gz`, and the
      import puts it into the group of `d.sql`. */
  lemma StalePartJoinsGroup(dump: string, chunkSize: nat, stale: string)
    requires !IsSplit(dump, chunkSize)
    ensures var r := AfterDump(map["d.sql.part000.gz" := stale], "d", dump, chunkSize);
      && "d.sql.gz" in r && "d.sql.part000.gz" in r && r["d.sql.part000.gz"] == stale
      && PartBase("d.sql.part000.gz") == Some("d.sql")
  {
    var m := map["d.sql.part000.gz" := stale];
    assert SqlName("d") == "d.sql" && GzName("d.sql") == "d.sql.gz";
    StaleSurvives(m, "d", "d.sql.part000.gz", dump, chunkSize);
    StalePartBase();
  }

  /** An entry other than the dump and its archive survives a dump that is
      not split, and the archive is there. */
  lemma StaleSurvives(m: map<string, string>, database: string, n: string, dump: string, chunkSize: nat)
    requires !IsSplit(dump, chunkSize)
    requires n in m && n != SqlName(database) && n != GzName(SqlName(database))
    ensures var r := AfterDump(m, database, dump, chunkSize);
      GzName(SqlName(database)) in r && n in r && r[n] == m[n]
  {
    DumpKeepsOthers(m, database, dump, chunkSize);
    DumpArchives(m, database, dump, chunkSize);
    assert GzNames(ToCompress(database, dump, chunkSize)) == [GzName(SqlName(database))];
  }

  lemma StalePartBase()
    ensures PartBase("d.sql.part000.gz") == Some("d.sql")
  {
    PartBaseOf("d.sql", "000");
    assert "d.sql" + ".part" + "000" + ".gz" == "d.sql.part000.gz";
  }

  /** Without such leftovers, the entries of the directory after the dump
      that fall into the group of `<db>.sql` are exactly the part archives
      just written, and there are none when the dump stayed whole. */
  lemma DumpGroupIsParts(m: map<string, string>, database: string, dump: string, chunkSize: nat)
    requires OnOneLine(SqlName(database)) && NoStaleParts(m, SqlName(database))
    ensures var r := AfterDump(m, database, dump, chunkSize);
      forall n :: n in r ==>
        (PartBase(n) == Some(SqlName(database)) <==> IsSplit(dump, chunkSize) && n in PartArchives(database, dump, chunkSize))
  {
    var sql := SqlName(database);
    var r := AfterDump(m, database, dump, chunkSize);
    var gz := GzNames(ToCompress(database, dump, chunkSize));
    DumpEntries(m, database, dump, chunkSize);
    WholeArchiveSingle(database);
    if IsSplit(dump, chunkSize) {
      PartArchivesGroup(database, dump, chunkSize);
    } else {
      assert gz == [GzName(sql)];
    }
    forall n | n in r && PartBase(n) == Some(sql)
      ensures IsSplit(dump, chunkSize) && n in PartArchives(database, dump, chunkSize)
    {
      assert n in gz;
    }
  }

  /** A listing without repeats counts each of its names once. */
  lemma {:induction false} DistinctCount(a: seq<string>, x: string)
    requires Distinct(a)
    ensures multiset(a)[x] == if x in a then 1 else 0
  {
    if a != [] {
      assert Distinct(a[1..]) by {
        forall i, j | 0 <= i < j < |a[1..]| ensures a[1..][i] != a[1..][j] {
          assert a[1..][i] == a[i + 1] && a[1..][j] == a[j + 1];
        }
      }
      DistinctCount(a[1..], x);
      assert a == [a[0]] + a[1..];
      if a[0] == x {
        assert x !in a[1..] by {
          forall j | 0 <= j < |a[1..]| ensures a[1..][j] != x {
            assert a[1..][j] == a[j + 1];
          }
        }
      }
    }
  }

  /** Two listings without repeats that name the same entries are the same
      entries in some order. */
  lemma SameEntries(a: seq<string>, b: seq<string>)
    requires Distinct(a) && Distinct(b)
    requires forall x :: x in a <==> x in b
    ensures multiset(a) == multiset(b)
  {
    forall x ensures multiset(a)[x] == multiset(b)[x] {
      DistinctCount(a, x);
      DistinctCount(b, x);
    }
  }

  /** The part archives of a dump are all different. */
  lemma PartArchivesDistinct(database: string, dump: string, chunkSize: nat)
    requires IsSplit(dump, chunkSize)
    ensures Distinct(PartArchives(database, dump, chunkSize))
  {
    var names := PartNames(SqlName(database), |PartsOfDump(dump, chunkSize)|);
    var gz := PartArchives(database, dump, chunkSize);
    PartNamesDistinct(SqlName(database), |names|);
    assert gz == GzNames(names);
    forall i, j | 0 <= i < j < |gz| ensures gz[i] != gz[j] {
      assert gz[i][..|gz[i]| - 3] == names[i];
      assert gz[j][..|gz[j]| - 3] == names[j];
    }
  }

  /** The import's group of `<db>.sql`, however the directory lists it, is
      the part archives of the dump, when no earlier run left any. */
  lemma GroupListingIsParts(m: map<string, string>, database: string, dump: string, chunkSize: nat,
                            listing: seq<string>)
    requires IsSplit(dump, chunkSize) && OnOneLine(SqlName(database)) && NoStaleParts(m, SqlName(database))
    requires Distinct(listing)
    requires forall n :: n in listing <==>
      n in AfterDump(m, database, dump, chunkSize) && PartBase(n) == Some(SqlName(database))
    ensures multiset(listing) == multiset(PartArchives(database, dump, chunkSize))
  {
    var gz := PartArchives(database, dump, chunkSize);
    DumpGroupIsParts(m, database, dump, chunkSize);
    DumpArchives(m, database, dump, chunkSize);
    PartArchivesDistinct(database, dump, chunkSize);
    assert forall x :: x in gz ==> x in AfterDump(m, database, dump, chunkSize);
    SameEntries(listing, gz);
  }

  /** The round trip of a split dump from a directory that held no part
      archive of it before: the group the import finds is the one the export
      wrote, and merging it gives the dump's lines back. */
  lemma FreshSplitRoundTrip(m: map<string, string>, database: string, dump: string, chunkSize: nat,
                            listing: seq<string>, temps: seq<string>, commands: seq<string>)
    requires IsSplit(dump, chunkSize) && |PartsOfDump(dump, chunkSize)| <= 1000
    requires OnOneLine(SqlName(database)) && NoStaleParts(m, SqlName(database))
    requires Distinct(listing)
    requires forall n :: n in listing <==>
      n in AfterDump(m, database, dump, chunkSize) && PartBase(n) == Some(SqlName(database))
    ensures var files := AfterDump(m, database, dump, chunkSize);
      var merged := MergedName(SqlName(database));
      var p := MergeParts(Run(files[merged := ""], temps, commands), merged, SortStrings(listing));
      && p.Running? && merged in p.run.files
      && p.run.files[merged] == NormalizeNewlines(dump) + "\n"
  {
    GroupListingIsParts(m, database, dump, chunkSize, listing);
    SplitDumpRoundTrip(m, database, dump, chunkSize, listing, temps, commands);
  }

  /** The round trip of a dump that was not split: its one archive is a
      single, and gunzipping it writes the dump back under its own name. */
  lemma WholeDumpRoundTrip(m: map<string, string>, database: string, dump: string, chunkSize: nat,
                           temps: seq<string>, commands: seq<string>, cfg: Config)
    requires !IsSplit(dump, chunkSize)
    ensures var files := AfterDump(m, database, dump, chunkSize);
      var archive := GzName(SqlName(database));
      var p := DecompressSingles(Run(files, temps, commands), [archive], cfg);
      && PartBase(archive) == None
      && p.Running? && SqlName(database) in p.run.files
      && p.run.files[SqlName(database)] == dump
  {
    var sql := SqlName(database);
    var files := AfterDump(m, database, dump, chunkSize);
    var archive := GzName(sql);
    WholeArchiveSingle(database);
    DumpArchives(m, database, dump, chunkSize);
    assert GzNames(ToCompress(database, dump, chunkSize))[0] == archive;
    GunzipGzip(dump);
    assert Unzipped(files, archive) == Some(dump);
    assert StripGz(archive) == sql;
  }
}
